/** Order-preserving selection from a sequence, JavaScript's `Array.prototype.filter`. */
module Seqs {

  /** The elements of `xs` that satisfy `keep`, in their original order. */
  function Filter<T(==)>(xs: seq<T>, keep: T -> bool): (ys: seq<T>)
    ensures |ys| <= |xs|
    ensures forall i :: 0 <= i < |ys| ==> ys[i] in xs && keep(ys[i])
    ensures forall i :: 0 <= i < |xs| && keep(xs[i]) ==> xs[i] in ys
  {
    if |xs| == 0 then []
    else (if keep(xs[0]) then [xs[0]] else []) + Filter(xs[1..], keep)
  }

  /** Filtering keeps every passing element exactly as often as it occurs, and no other. */
  lemma {:induction false} FilterCount<T(!new)>(xs: seq<T>, keep: T -> bool)
    ensures forall x :: multiset(Filter(xs, keep))[x] == if keep(x) then multiset(xs)[x] else 0
  {
    if |xs| > 0 {
      assert xs == [xs[0]] + xs[1..];
      FilterCount(xs[1..], keep);
    }
  }

  /** `ys` can be obtained from `xs` by deleting elements: relative order is kept. */
  predicate SubSeq<T(==)>(ys: seq<T>, xs: seq<T>)
    decreases |xs|
  {
    |ys| == 0 || (|xs| > 0 && if ys[0] == xs[0] then SubSeq(ys[1..], xs[1..]) else SubSeq(ys, xs[1..]))
  }

  /** Filtering keeps the surviving elements in their original relative order. */
  lemma {:induction false} FilterIsSubSeq<T>(xs: seq<T>, keep: T -> bool)
    ensures SubSeq(Filter(xs, keep), xs)
  {
    if |xs| > 0 {
      FilterIsSubSeq(xs[1..], keep);
      var rest := Filter(xs[1..], keep);
      if keep(xs[0]) {
        assert ([xs[0]] + rest)[1..] == rest;
      } else {
        assert [] + rest == rest;
        SubSeqDrop(rest, xs);
      }
    }
  }

  /** A subsequence of the tail is a subsequence of the whole. */
  lemma {:induction false} SubSeqDrop<T>(ys: seq<T>, xs: seq<T>)
    requires |xs| > 0 && SubSeq(ys, xs[1..])
    ensures SubSeq(ys, xs)
    decreases |xs|, 0
  {
    if |ys| > 0 && ys[0] == xs[0] {
      SubSeqTail(ys, xs[1..]);
    }
  }

  /** Dropping the first element of a subsequence keeps it a subsequence. */
  lemma {:induction false} SubSeqTail<T>(ys: seq<T>, xs: seq<T>)
    requires |ys| > 0 && SubSeq(ys, xs)
    ensures SubSeq(ys[1..], xs)
    decreases |xs|, 1
  {
    if |ys| > 1 {
      if ys[0] != xs[0] {
        SubSeqTail(ys, xs[1..]);
      }
      SubSeqDrop(ys[1..], xs);
    }
  }

  /** Filtering a concatenation filters each part. */
  lemma {:induction false} FilterAppend<T>(a: seq<T>, b: seq<T>, keep: T -> bool)
    ensures Filter(a + b, keep) == Filter(a, keep) + Filter(b, keep)
  {
    if |a| == 0 {
      assert a + b == b;
    } else {
      assert (a + b)[1..] == a[1..] + b;
      FilterAppend(a[1..], b, keep);
    }
  }

  /** A sequence whose every element passes is kept whole. */
  lemma {:induction false} FilterAll<T>(xs: seq<T>, keep: T -> bool)
    requires forall i :: 0 <= i < |xs| ==> keep(xs[i])
    ensures Filter(xs, keep) == xs
  {
    if |xs| > 0 {
      FilterAll(xs[1..], keep);
    }
  }

  /** A filter that keeps nothing yields the empty sequence. */
  lemma {:induction false} FilterNone<T>(xs: seq<T>, keep: T -> bool)
    requires forall i :: 0 <= i < |xs| ==> !keep(xs[i])
    ensures Filter(xs, keep) == []
  {
    if |xs| > 0 {
      FilterNone(xs[1..], keep);
    }
  }
}
