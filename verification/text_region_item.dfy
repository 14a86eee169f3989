/**
 * The per-region editor of the work panel: an edit flag and a draft, with
 * save, cancel and the "Modified" badge. The component stays mounted
 * while its region changes (it is keyed by the region id), so the draft
 * outlives updates of the region's replacement text.
 */
module TextRegionItem {
  import opened Wrappers
  import opened Types
  import PageEditor

  /** The component's own state. */
  datatype Item = Item(isEditing: bool, draft: string)

  /** A call of `onUpdate(id, translated)`. */
  datatype Update = Update(id: string, translated: string)

  /** The state after a handler with the `onUpdate` calls it made. */
  datatype Handled = Handled(item: Item, updates: seq<Update>)

  /** At mount: not editing, the draft is the region's replacement text. */
  function Mount(region: TextRegion): (it: Item)
    ensures !it.isEditing && it.draft == region.translated
  {
    Item(false, region.translated)
  }

  /** The edit button as written: editing starts with whatever draft is held. */
  function StartEdit(it: Item, region: TextRegion): (r: Item)
    ensures r.isEditing && r.draft == it.draft
  {
    it.(isEditing := true)
  }

  /** The edit button as evidently intended: editing starts from the region's current replacement text. */
  function StartEditFresh(it: Item, region: TextRegion): (r: Item)
    ensures r.isEditing && r.draft == region.translated
  {
    Item(true, region.translated)
  }

  /** Typing in the text area replaces the draft. */
  function Type(it: Item, text: string): (r: Item)
    ensures r.draft == text && r.isEditing == it.isEditing
  {
    it.(draft := text)
  }

  /** `handleSave`: one `onUpdate` with the region's id and the draft, and editing ends. */
  function Save(it: Item, region: TextRegion): (h: Handled)
    ensures !h.item.isEditing && h.item.draft == it.draft
    ensures h.updates == [Update(region.id, it.draft)]
  {
    Handled(it.(isEditing := false), [Update(region.id, it.draft)])
  }

  /** Cancel: the draft goes back to the region's text, editing ends, nothing is reported. */
  function Cancel(it: Item, region: TextRegion): (h: Handled)
    ensures h.item == Mount(region) && h.updates == []
  {
    Handled(Item(false, region.translated), [])
  }

  /** The "Modified" badge is shown exactly when the replacement differs from the original. */
  function ShowsModified(region: TextRegion): (shown: bool)
    ensures shown <==> region.original != region.translated
  {
    IsModified(region)
  }

  /** Applying an `onUpdate` call to the page's list, as the editor does. */
  function Apply(regions: seq<TextRegion>, u: Update): (rs: seq<TextRegion>)
    ensures |rs| == |regions|
  {
    PageEditor.UpdateRegion(regions, u.id, u.translated)
  }

  /**
   * As written: mount on region text "a", let auto-translate change it to
   * "b", press edit and save straight away — the stale draft "a" is
   * written back over the translation.
   */
  lemma StaleDraftRevertsTranslation()
    ensures var r0 := TextRegion("r1", BBox(0.0, 0.0, 1.0, 1.0), "a", "a", None);
      var r1 := r0.(translated := "b");
      var h := Save(StartEdit(Mount(r0), r1), r1);
      Apply([r1], h.updates[0]) == [r0]
  {
  }

  /** Saving without typing writes back the region's own text: the list is unchanged when ids are distinct. */
  lemma SaveUnchangedIsNoOp(regions: seq<TextRegion>, i: nat, it: Item)
    requires i < |regions|
    requires forall a, b :: 0 <= a < b < |regions| ==> regions[a].id != regions[b].id
    requires it.draft == regions[i].translated
    ensures Apply(regions, Save(it, regions[i]).updates[0]) == regions
  {
    var rs := Apply(regions, Save(it, regions[i]).updates[0]);
    forall k | 0 <= k < |regions|
      ensures rs[k] == regions[k]
    {
      if k != i {
        assert regions[k].id != regions[i].id;
      }
    }
  }

  /** Corrected: an edit started and saved at once never changes the list, whatever happened to the region since mount. */
  lemma FreshDraftSaveIsNoOp(regions: seq<TextRegion>, i: nat, it: Item)
    requires i < |regions|
    requires forall a, b :: 0 <= a < b < |regions| ==> regions[a].id != regions[b].id
    ensures Apply(regions, Save(StartEditFresh(it, regions[i]), regions[i]).updates[0]) == regions
  {
    SaveUnchangedIsNoOp(regions, i, StartEditFresh(it, regions[i]));
  }
}
