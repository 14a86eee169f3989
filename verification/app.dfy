/**
 * The client's top-level state: the list of pages, the selected page id
 * and the API-key modal, under the upload, delete and update callbacks.
 */
module App {
  import opened Wrappers
  import opened Types
  import Seqs

  /** The pages shown and the selection; an absent or empty id selects nothing. */
  datatype AppState = AppState(pages: seq<Page>, selected: Option<string>)

  /** JavaScript truthiness of the selected id. */
  predicate HasSelection(s: AppState) {
    s.selected.Some? && s.selected.value != ""
  }

  const Initial: AppState := AppState([], None)

  /** Upload success: the new pages go after the old ones; with nothing selected the first new page is selected. */
  function UploadSuccess(s: AppState, uploaded: seq<Page>): (t: AppState)
    ensures t.pages == s.pages + uploaded
    ensures |uploaded| > 0 && !HasSelection(s) ==> t.selected == Some(uploaded[0].id)
    ensures |uploaded| == 0 || HasSelection(s) ==> t.selected == s.selected
  {
    AppState(s.pages + uploaded, if |uploaded| > 0 && !HasSelection(s) then Some(uploaded[0].id) else s.selected)
  }

  /**
   * Delete success as written: the page goes, and when it was selected
   * the selection moves to the first page of the list as it was before
   * the delete (when that list had more than one page), else to nothing.
   */
  function DeleteSuccess(s: AppState, id: string): (t: AppState)
    ensures forall i :: 0 <= i < |t.pages| ==> t.pages[i].id != id && t.pages[i] in s.pages
    ensures forall i :: 0 <= i < |s.pages| && s.pages[i].id != id ==> s.pages[i] in t.pages
    ensures forall p :: multiset(t.pages)[p] == if p.id != id then multiset(s.pages)[p] else 0
    ensures s.selected != Some(id) ==> t.selected == s.selected
    ensures s.selected == Some(id) && |s.pages| > 1 ==> t.selected == Some(s.pages[0].id)
    ensures s.selected == Some(id) && |s.pages| <= 1 ==> t.selected.None?
  {
    Seqs.FilterCount(s.pages, (p: Page) => p.id != id);
    AppState(Seqs.Filter(s.pages, (p: Page) => p.id != id),
             if s.selected == Some(id) then (if |s.pages| > 1 then Some(s.pages[0].id) else None) else s.selected)
  }

  /** Delete success as evidently intended: the selection moves to the first remaining page. */
  function DeleteSuccessFixed(s: AppState, id: string): (t: AppState)
    ensures t.pages == DeleteSuccess(s, id).pages
    ensures s.selected != Some(id) ==> t.selected == s.selected
    ensures s.selected == Some(id) ==> t.selected == (if |t.pages| > 0 then Some(t.pages[0].id) else None)
  {
    var rest := Seqs.Filter(s.pages, (p: Page) => p.id != id);
    AppState(rest, if s.selected == Some(id) then (if |rest| > 0 then Some(rest[0].id) else None) else s.selected)
  }

  /** `handleUpdatePage`: the page with the same id is replaced, every other page stays, in place. */
  function UpdatePage(s: AppState, updated: Page): (t: AppState)
    ensures |t.pages| == |s.pages| && t.selected == s.selected
    ensures forall i :: 0 <= i < |s.pages| ==>
      t.pages[i] == (if s.pages[i].id == updated.id then updated else s.pages[i])
  {
    AppState(seq(|s.pages|, i requires 0 <= i < |s.pages| => if s.pages[i].id == updated.id then updated else s.pages[i]),
             s.selected)
  }

  /** The index of the first page with the id, if any. */
  function FindIndex(pages: seq<Page>, id: string): (r: Option<nat>)
    ensures r.Some? ==>
      r.value < |pages| && pages[r.value].id == id && (forall k :: 0 <= k < r.value ==> pages[k].id != id)
    ensures r.None? ==> forall k :: 0 <= k < |pages| ==> pages[k].id != id
  {
    if |pages| == 0 then None
    else if pages[0].id == id then Some(0)
    else match FindIndex(pages[1..], id)
      case None => None
      case Some(k) => Some(k + 1)
  }

  /** `selectedPage`: the first page whose id is the selected id. */
  function SelectedPage(s: AppState): (p: Option<Page>)
    ensures p.Some? ==> s.selected.Some? && p.value in s.pages && p.value.id == s.selected.value
    ensures s.selected.Some? && (exists i :: 0 <= i < |s.pages| && s.pages[i].id == s.selected.value) ==> p.Some?
    ensures s.selected.None? ==> p.None?
    ensures p.Some? ==> exists i :: 0 <= i < |s.pages| && s.pages[i] == p.value &&
                                    forall k :: 0 <= k < i ==> s.pages[k].id != s.selected.value
  {
    if s.selected.None? then None
    else match FindIndex(s.pages, s.selected.value)
      case None => None
      case Some(i) => Some(s.pages[i])
  }

  /** What the health poll drives: the last reported configuration and whether the key modal is open. */
  datatype KeyStatus = KeyStatus(configured: Option<bool>, showModal: bool)

  /**
   * The effect run on each health reply: record the reported flag, and
   * open the modal when no key is configured and no page is loaded. The
   * effect never closes the modal; only its close button does.
   */
  function HealthEffect(k: KeyStatus, reportedConfigured: bool, pageCount: nat): (r: KeyStatus)
    ensures r.configured == Some(reportedConfigured)
    ensures r.showModal <==> k.showModal || (!reportedConfigured && pageCount == 0)
  {
    KeyStatus(Some(reportedConfigured), if !reportedConfigured && pageCount == 0 then true else k.showModal)
  }

  /** Once pages are loaded, health replies neither open nor close the modal. */
  lemma HealthKeepsModalWithPages(k: KeyStatus, reportedConfigured: bool, pageCount: nat)
    requires pageCount > 0
    ensures HealthEffect(k, reportedConfigured, pageCount).showModal == k.showModal
  {
  }

  /** Deleting keeps the remaining pages in their order. */
  lemma DeleteKeepsOrder(s: AppState, id: string)
    ensures Seqs.SubSeq(DeleteSuccess(s, id).pages, s.pages)
  {
    Seqs.FilterIsSubSeq(s.pages, (p: Page) => p.id != id);
  }

  /** The first upload into an empty app selects its first page, which is then the page shown. */
  lemma FirstUploadShowsFirstPage(uploaded: seq<Page>)
    requires |uploaded| > 0
    ensures SelectedPage(UploadSuccess(Initial, uploaded)) == Some(uploaded[0])
  {
  }

  /** Updating the selected page shows the update: the editor sees its own changes. */
  lemma UpdateShowsUpdatedPage(s: AppState, updated: Page)
    requires s.selected == Some(updated.id)
    requires exists i :: 0 <= i < |s.pages| && s.pages[i].id == updated.id
    ensures SelectedPage(UpdatePage(s, updated)) == Some(updated)
  {
    var t := UpdatePage(s, updated);
    var i :| 0 <= i < |s.pages| && s.pages[i].id == updated.id;
    assert t.pages[i].id == updated.id;
    var j := FindIndex(t.pages, updated.id).value;
    assert t.pages[j] == updated;
  }

  /**
   * As written, deleting the selected first page of two leaves the deleted
   * page's id selected: no page is shown although one remains.
   */
  lemma DeleteFirstSelectsDeleted(a: Page, b: Page)
    requires a.id != b.id
    ensures var t := DeleteSuccess(AppState([a, b], Some(a.id)), a.id);
      t.selected == Some(a.id) && t.pages == [b] && SelectedPage(t).None?
  {
    var t := DeleteSuccess(AppState([a, b], Some(a.id)), a.id);
    var keep := (p: Page) => p.id != a.id;
    assert [a, b][1..] == [b] && [b][1..] == [];
    assert Seqs.Filter([b], keep) == [b] + Seqs.Filter([], keep);
    assert t.pages == [b];
  }

  /** Corrected: after deleting the selected page the selection names a remaining page, if any remains. */
  lemma DeleteFixedSelectsRemaining(s: AppState, id: string)
    requires s.selected == Some(id)
    ensures var t := DeleteSuccessFixed(s, id);
      (|t.pages| > 0 ==> SelectedPage(t) == Some(t.pages[0])) && (|t.pages| == 0 ==> t.selected.None?)
  {
  }
}
