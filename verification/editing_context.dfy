/**
 * The one-slot edit context of the client: at most one open edit, which
 * auto-save commits by calling its save callback. Callbacks are tokens;
 * calling one appends it to the log a step returns.
 */
module EditingContext {
  import opened Wrappers

  /** A save callback, identified by a token. */
  type SaveToken = nat

  /** An open edit: the region, the draft and the callback that commits it. */
  datatype Edit = Edit(regionId: string, value: string, onSave: SaveToken)

  /** The provider's state: the open edit, if any. */
  datatype Slot = Slot(current: Option<Edit>)

  /** A state with the callbacks a step called, in call order. */
  datatype Saved = Saved(slot: Slot, calls: seq<SaveToken>)

  const OutsideProvider: string := "useEditing must be used within an EditingProvider"

  /** The provider starts with no edit open. */
  const Initial: Slot := Slot(None)

  /** `setCurrentEdit`: opens, replaces or clears the edit; the replaced edit is not saved. */
  function SetCurrentEdit(s: Slot, edit: Option<Edit>): (r: Saved)
    ensures r.slot.current == edit && r.calls == []
  {
    Saved(Slot(edit), [])
  }

  /** `autoSaveCurrentEdit`: an open edit is saved once and closed; with none open nothing happens. */
  function AutoSave(s: Slot): (r: Saved)
    ensures s.current.None? ==> r == Saved(s, [])
    ensures s.current.Some? ==> r.slot.current.None? && r.calls == [s.current.value.onSave]
  {
    match s.current
    case None => Saved(s, [])
    case Some(e) => Saved(Slot(None), [e.onSave])
  }

  /** `useEditing`: the provider's state, or the error thrown outside a provider. */
  function UseEditing(provider: Option<Slot>): (r: Result<Slot>)
    ensures provider.None? <==> r.Failure?
    ensures r.Failure? ==> r.error == OutsideProvider
    ensures provider.Some? ==> r == Success(provider.value)
  {
    match provider
    case None => Failure(OutsideProvider)
    case Some(s) => Success(s)
  }

  /** A second auto-save right after the first calls nothing: each open edit is saved exactly once. */
  lemma AutoSaveOnce(s: Slot)
    ensures var first := AutoSave(s);
      var second := AutoSave(first.slot);
      second.calls == [] && |first.calls + second.calls| == (if s.current.Some? then 1 else 0)
  {
  }

  /** Replacing an open edit drops it: the following auto-save calls only the new edit's callback. */
  lemma ReplaceDropsOpenEdit(open: Edit, next: Edit)
    requires open.onSave != next.onSave
    ensures var r := SetCurrentEdit(Slot(Some(open)), Some(next));
      var a := AutoSave(r.slot);
      open.onSave !in r.calls + a.calls && a.calls == [next.onSave]
  {
  }

  /** The actions the components can take on the context. */
  datatype Action = Set(edit: Option<Edit>) | AutoSaveNow

  /** The context after a sequence of actions, with every callback called, in order. */
  function Run(s: Slot, actions: seq<Action>): (r: Saved)
    decreases |actions|
  {
    if |actions| == 0 then Saved(s, [])
    else
      var step := match actions[0]
        case Set(e) => SetCurrentEdit(s, e)
        case AutoSaveNow => AutoSave(s);
      var rest := Run(step.slot, actions[1..]);
      Saved(rest.slot, step.calls + rest.calls)
  }

  /** The callbacks that the actions open, in action order. */
  function Opened(actions: seq<Action>): (ts: seq<SaveToken>)
    ensures |ts| <= |actions|
  {
    if |actions| == 0 then []
    else (if actions[0].Set? && actions[0].edit.Some? then [actions[0].edit.value.onSave] else []) + Opened(actions[1..])
  }

  /**
   * Every call is of a callback that was open at the start or opened by
   * an action, and there are never more calls than edits opened: no edit
   * is saved twice and nothing is saved out of thin air.
   */
  lemma {:induction false} RunCallsOpenedOnly(s: Slot, actions: seq<Action>)
    ensures var r := Run(s, actions);
      var avail := (if s.current.Some? then [s.current.value.onSave] else []) + Opened(actions);
      |r.calls| <= |avail| && forall k :: 0 <= k < |r.calls| ==> r.calls[k] in avail
    decreases |actions|
  {
    if |actions| > 0 {
      var step := match actions[0]
        case Set(e) => SetCurrentEdit(s, e)
        case AutoSaveNow => AutoSave(s);
      RunCallsOpenedOnly(step.slot, actions[1..]);
    }
  }
}
