/**
 * Node's POSIX `path.extname`: the extension of the last path segment,
 * from its last dot, empty for names without a dot, for dot-files such as
 * `.env` and for `..`.
 */
module PathExt {
  import opened Wrappers

  /** `p` without its trailing slashes. */
  function StripTrailingSlashes(p: string): (r: string)
    ensures |r| <= |p|
  {
    if |p| > 0 && p[|p| - 1] == '/' then StripTrailingSlashes(p[..|p| - 1]) else p
  }

  /** The last segment of a path without trailing slashes. */
  function LastSegment(p: string): (b: string)
    ensures |b| <= |p|
  {
    if |p| == 0 || p[|p| - 1] == '/' then "" else LastSegment(p[..|p| - 1]) + [p[|p| - 1]]
  }

  /** The index of the last `c` in `s`, if any. */
  function LastIndexOf(s: string, c: char): (r: Option<nat>)
    ensures r.Some? ==> r.value < |s| && s[r.value] == c
  {
    if |s| == 0 then None
    else if s[|s| - 1] == c then Some(|s| - 1)
    else LastIndexOf(s[..|s| - 1], c)
  }

  /** `path.extname(p)`. */
  function ExtName(p: string): (ext: string)
    ensures ext == "" || ext[0] == '.'
  {
    var b := LastSegment(StripTrailingSlashes(p));
    match LastIndexOf(b, '.')
    case None => ""
    case Some(d) =>
      if d == 0 || b == ".." then "" else b[d..]
  }

  /** A name with a stem that does not start with a dot has the extension written after its last dot. */
  lemma ExtNameOfName(dir: string, stem: string, e: string)
    requires |dir| == 0 || dir[|dir| - 1] == '/'
    requires |stem| > 0 && stem[0] != '.'
    requires forall k :: 0 <= k < |stem| ==> stem[k] != '/'
    requires forall k :: 0 <= k < |e| ==> e[k] != '/' && e[k] != '.'
    ensures ExtName(dir + stem + "." + e) == "." + e
  {
    var name := stem + "." + e;
    var p := dir + name;
    assert p == dir + stem + "." + e;
    assert p[|p| - 1] == name[|name| - 1] != '/';
    assert StripTrailingSlashes(p) == p;
    SegmentOfSuffix(dir, name);
    var d := |stem|;
    LastDotOfName(stem, e);
    assert name[d..] == "." + e;
  }

  /** With no dot after it, the dot that ends the stem is the last one. */
  lemma {:induction false} LastDotOfName(stem: string, e: string)
    requires forall k :: 0 <= k < |e| ==> e[k] != '.'
    ensures LastIndexOf(stem + "." + e, '.') == Some(|stem|)
    decreases |e|
  {
    var name := stem + "." + e;
    if |e| == 0 {
      assert name[|name| - 1] == '.';
    } else {
      var init := e[..|e| - 1];
      assert name[|name| - 1] == e[|e| - 1];
      assert name[..|name| - 1] == stem + "." + init;
      LastDotOfName(stem, init);
    }
  }

  /** The last segment of `dir/name` is `name`. */
  lemma {:induction false} SegmentOfSuffix(dir: string, name: string)
    requires forall k :: 0 <= k < |name| ==> name[k] != '/'
    requires |dir| == 0 || dir[|dir| - 1] == '/'
    ensures LastSegment(dir + name) == name
    decreases |name|
  {
    var p := dir + name;
    if |name| == 0 {
      assert p == dir;
    } else {
      var last := name[|name| - 1];
      var init := name[..|name| - 1];
      assert p[|p| - 1] == last;
      assert p[..|p| - 1] == dir + init;
      SegmentOfSuffix(dir, init);
      assert name == init + [last];
    }
  }

  /** No character of the last segment is a slash. */
  lemma {:induction false} LastSegmentNoSlash(p: string)
    ensures forall k :: 0 <= k < |LastSegment(p)| ==> LastSegment(p)[k] != '/'
  {
    if |p| > 0 && p[|p| - 1] != '/' {
      LastSegmentNoSlash(p[..|p| - 1]);
    }
  }

  /** The index found is the last occurrence; when none is found there is none. */
  lemma {:induction false} LastIndexOfIsLast(s: string, c: char)
    ensures LastIndexOf(s, c).Some? ==> forall k :: LastIndexOf(s, c).value < k < |s| ==> s[k] != c
    ensures LastIndexOf(s, c).None? ==> forall k :: 0 <= k < |s| ==> s[k] != c
  {
    if |s| > 0 && s[|s| - 1] != c {
      LastIndexOfIsLast(s[..|s| - 1], c);
    }
  }

  /** An extension is empty, or a dot followed by characters that are neither dots nor slashes. */
  lemma ExtNameShape(p: string)
    ensures var ext := ExtName(p);
      ext == "" || (ext[0] == '.' && forall k :: 1 <= k < |ext| ==> ext[k] != '.' && ext[k] != '/')
  {
    var b := LastSegment(StripTrailingSlashes(p));
    LastSegmentNoSlash(StripTrailingSlashes(p));
    LastIndexOfIsLast(b, '.');
  }

  /** A name without any dot has no extension. */
  lemma NoDotNoExt(name: string)
    requires forall k :: 0 <= k < |name| ==> name[k] != '/' && name[k] != '.'
    ensures ExtName(name) == ""
  {
    if |name| > 0 {
      assert name[|name| - 1] != '/';
    }
    assert StripTrailingSlashes(name) == name;
    SegmentOfSuffix("", name);
    assert "" + name == name;
    LastIndexOfIsLast(name, '.');
  }

  /** A dot-file such as `.env` has no extension. */
  lemma DotFileHasNoExt()
    ensures ExtName(".env") == ""
  {
    assert StripTrailingSlashes(".env") == ".env";
    SegmentOfSuffix("", ".env");
    assert "" + ".env" == ".env";
    LastIndexOfIsLast(".env", '.');
    assert ".env"[0] == '.';
  }
}
