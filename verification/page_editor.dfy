/**
 * The page editor of the client: the region-list operations behind the
 * work panel, and the extract, auto-translate and render pipeline with
 * its busy flags. Every handler is one atomic step; the server calls are
 * parameters whose replies the step receives.
 */
module PageEditor {
  import opened Wrappers
  import opened Strings
  import opened Types
  import Seqs

  // ----- region-list operations -----

  /** `handleUpdateRegion`: every region with the id gets the new replacement text. */
  function UpdateRegion(regions: seq<TextRegion>, id: string, translated: string): (rs: seq<TextRegion>)
    ensures |rs| == |regions| && Ids(rs) == Ids(regions)
    ensures forall i :: 0 <= i < |rs| ==>
      && rs[i].bbox == regions[i].bbox && rs[i].original == regions[i].original
      && rs[i].status == regions[i].status
      && (regions[i].id == id ==> rs[i].translated == translated)
      && (regions[i].id != id ==> rs[i] == regions[i])
  {
    seq(|regions|, i requires 0 <= i < |regions| =>
      if regions[i].id == id then regions[i].(translated := translated) else regions[i])
  }

  /** `handleDeleteRegion`: the regions without that id, in their order. */
  function DeleteRegion(regions: seq<TextRegion>, id: string): (rs: seq<TextRegion>)
    ensures forall i :: 0 <= i < |rs| ==> rs[i].id != id && rs[i] in regions
    ensures forall i :: 0 <= i < |regions| && regions[i].id != id ==> regions[i] in rs
    ensures forall r :: multiset(rs)[r] == if r.id != id then multiset(regions)[r] else 0
  {
    Seqs.FilterCount(regions, (r: TextRegion) => r.id != id);
    Seqs.Filter(regions, (r: TextRegion) => r.id != id)
  }

  /** Deleting keeps the surviving regions in their original relative order. */
  lemma DeleteRegionKeepsOrder(regions: seq<TextRegion>, id: string)
    ensures Seqs.SubSeq(DeleteRegion(regions, id), regions)
  {
    Seqs.FilterIsSubSeq(regions, (r: TextRegion) => r.id != id);
  }

  /** Deleting an id no region carries changes nothing. */
  lemma DeleteAbsentRegion(regions: seq<TextRegion>, id: string)
    requires forall i :: 0 <= i < |regions| ==> regions[i].id != id
    ensures DeleteRegion(regions, id) == regions
  {
    Seqs.FilterAll(regions, (r: TextRegion) => r.id != id);
  }

  /** Editing a region and then deleting it is the same as deleting it. */
  lemma {:induction false} DeleteAfterUpdate(regions: seq<TextRegion>, id: string, translated: string)
    ensures DeleteRegion(UpdateRegion(regions, id, translated), id) == DeleteRegion(regions, id)
  {
    if |regions| > 0 {
      var us := UpdateRegion(regions, id, translated);
      assert us[1..] == UpdateRegion(regions[1..], id, translated);
      DeleteAfterUpdate(regions[1..], id, translated);
    }
  }

  /** Editing the same region twice with the same text is editing it once. */
  lemma UpdateRegionIdempotent(regions: seq<TextRegion>, id: string, translated: string)
    ensures UpdateRegion(UpdateRegion(regions, id, translated), id, translated) == UpdateRegion(regions, id, translated)
  {
  }

  // ----- auto-translate -----

  /** The texts auto-translate sends: the original of every region, in list order, whatever its status. */
  function OriginalTexts(regions: seq<TextRegion>): (texts: seq<string>)
    ensures |texts| == |regions|
    ensures forall i :: 0 <= i < |regions| ==> texts[i] == regions[i].original
  {
    seq(|regions|, i requires 0 <= i < |regions| => regions[i].original)
  }

  /**
   * `translations[index] || region.translated`: the i-th region takes the
   * i-th translation when there is one and it is non-empty; surplus
   * translations are ignored.
   */
  function ApplyTranslations(regions: seq<TextRegion>, translations: seq<string>): (rs: seq<TextRegion>)
    ensures |rs| == |regions| && Ids(rs) == Ids(regions)
    ensures forall i :: 0 <= i < |rs| ==>
      && rs[i].bbox == regions[i].bbox && rs[i].original == regions[i].original
      && rs[i].status == regions[i].status
      && (i < |translations| && translations[i] != "" ==> rs[i].translated == translations[i])
      && (i >= |translations| || translations[i] == "" ==> rs[i] == regions[i])
  {
    seq(|regions|, i requires 0 <= i < |regions| =>
      if i < |translations| && translations[i] != "" then regions[i].(translated := translations[i]) else regions[i])
  }

  /** Translations beyond the last region change nothing. */
  lemma SurplusTranslationsIgnored(regions: seq<TextRegion>, translations: seq<string>, extra: seq<string>)
    requires |translations| >= |regions|
    ensures ApplyTranslations(regions, translations + extra) == ApplyTranslations(regions, translations)
  {
    var a := ApplyTranslations(regions, translations + extra);
    var b := ApplyTranslations(regions, translations);
    forall i | 0 <= i < |regions|
      ensures a[i] == b[i]
    {
      assert (translations + extra)[i] == translations[i];
    }
  }

  /** An empty reply, or one of empty strings, leaves every region as it was. */
  lemma EmptyTranslationsKeepRegions(regions: seq<TextRegion>, translations: seq<string>)
    requires forall i :: 0 <= i < |translations| ==> translations[i] == ""
    ensures ApplyTranslations(regions, translations) == regions
  {
  }

  /** Applying the same reply twice is applying it once. */
  lemma ApplyTranslationsIdempotent(regions: seq<TextRegion>, translations: seq<string>)
    ensures ApplyTranslations(ApplyTranslations(regions, translations), translations)
      == ApplyTranslations(regions, translations)
  {
  }

  /** A reply echoing the originals leaves no region with a non-empty original modified. */
  lemma EchoedOriginalsUnmodify(regions: seq<TextRegion>)
    requires forall i :: 0 <= i < |regions| ==> regions[i].original != ""
    ensures !HasTranslations(ApplyTranslations(regions, OriginalTexts(regions)))
  {
  }

  // ----- generate button -----

  /** `hasTranslations`: some region's replacement differs from its original. */
  predicate HasTranslations(regions: seq<TextRegion>) {
    exists i :: 0 <= i < |regions| && IsModified(regions[i])
  }

  /** The generate button is shown for a non-empty list and enabled unless rendering or nothing is translated. */
  function GenerateEnabled(regions: seq<TextRegion>, isRendering: bool): (enabled: bool)
    ensures enabled <==> |regions| > 0 && !isRendering && exists i :: 0 <= i < |regions| && regions[i].original != regions[i].translated
  {
    |regions| > 0 && !(isRendering || !HasTranslations(regions))
  }

  /** Whenever the renderers have something to draw, the button is enabled when idle. */
  lemma DrawableEnablesGenerate(regions: seq<TextRegion>)
    requires RenderedRegions(regions) != []
    ensures GenerateEnabled(regions, false)
  {
    var kept := RenderedRegions(regions);
    assert kept[0] in regions;
    var i :| 0 <= i < |regions| && regions[i] == kept[0];
    assert IsModified(regions[i]);
  }

  /** The button can be enabled with nothing to draw: a region translated to the empty string counts as translated. */
  lemma EnabledWithNothingToDraw()
    ensures var r := TextRegion("r", BBox(0.0, 0.0, 1.0, 1.0), "Hi", "", None);
      GenerateEnabled([r], false) && RenderedRegions([r]) == []
  {
    var r := TextRegion("r", BBox(0.0, 0.0, 1.0, 1.0), "Hi", "", None);
    assert IsModified([r][0]);
    assert [r][1..] == [];
  }

  // ----- editor state and handlers -----

  /** What the editor holds: the page it was given and its own busy flags and image key. */
  datatype Editor = Editor(page: Page, isExtracting: bool, isTranslating: bool, isRendering: bool, imageKey: int)

  /** The alerts the handlers raise. */
  datatype Alert = ExtractAlert | TranslateAlert | TooLargeAlert | DetailedAlert(text: string) | GenericAlert

  /** The editor after a handler, with the alert it raised if any. */
  datatype Step = Step(editor: Editor, alert: Option<Alert>)

  /** The editor as first mounted for a page: nothing running, image key 0. */
  function Mount(page: Page): (e: Editor)
    ensures e.page == page && !e.isExtracting && !e.isTranslating && !e.isRendering && e.imageKey == 0
  {
    Editor(page, false, false, false, 0)
  }

  /** `handleExtractText`: success replaces the whole region list, failure alerts and changes nothing. */
  function ExtractText(e: Editor, reply: Result<seq<TextRegion>>): (s: Step)
    ensures !s.editor.isExtracting
    ensures reply.Success? ==> s == Step(e.(isExtracting := false, page := e.page.(regions := reply.value)), None)
    ensures reply.Failure? ==> s == Step(e.(isExtracting := false), Some(ExtractAlert))
  {
    match reply
    case Success(regions) => Step(e.(page := e.page.(regions := regions), isExtracting := false), None)
    case Failure(_) => Step(e.(isExtracting := false), Some(ExtractAlert))
  }

  /**
   * `handleAutoTranslate`: the originals of all regions go to `translate`
   * with the language; its reply is applied position by position.
   */
  function AutoTranslate(e: Editor, targetLanguage: string,
                         translate: (seq<string>, string) -> Result<seq<string>>): (s: Step)
    ensures !s.editor.isTranslating
    ensures s.editor.page.id == e.page.id && |s.editor.page.regions| == |e.page.regions|
    ensures var reply := translate(OriginalTexts(e.page.regions), targetLanguage);
      && (reply.Success? ==> s == Step(e.(isTranslating := false,
                                         page := e.page.(regions := ApplyTranslations(e.page.regions, reply.value))), None))
      && (reply.Failure? ==> s == Step(e.(isTranslating := false), Some(TranslateAlert)))
  {
    match translate(OriginalTexts(e.page.regions), targetLanguage)
    case Success(ts) => Step(e.(page := e.page.(regions := ApplyTranslations(e.page.regions, ts)), isTranslating := false), None)
    case Failure(_) => Step(e.(isTranslating := false), Some(TranslateAlert))
  }

  // ----- render -----

  /** A failed render request: the reply's `details` and the error's `message`, absent or empty when not given. */
  datatype RenderFailure = RenderFailure(details: Option<string>, message: Option<string>)

  /** The reply of the render request: the new image URL, or the failure. */
  datatype RenderReply = Rendered(imageUrl: string) | Failed(failure: RenderFailure)

  const UnknownError: string := "Unknown error"
  const PixelLimitText: string := "exceeds pixel limit"
  const InputTooLargeText: string := "Input image exceeds"
  const RenderedDetailText: string := "Failed to render translated image"

  /** The error text: the details when given, else the message, else "Unknown error". */
  function ErrorText(f: RenderFailure): (text: string)
    ensures f.details.Some? && f.details.value != "" ==> text == f.details.value
    ensures !(f.details.Some? && f.details.value != "") && f.message.Some? && f.message.value != "" ==> text == f.message.value
    ensures !(f.details.Some? && f.details.value != "") && !(f.message.Some? && f.message.value != "") ==> text == UnknownError
    ensures text != ""
  {
    if f.details.Some? && f.details.value != "" then f.details.value
    else if f.message.Some? && f.message.value != "" then f.message.value
    else UnknownError
  }

  /** The alert for a failed render, by the first substring test the text passes. */
  function ClassifyRenderError(text: string): (a: Alert)
    ensures Contains(text, PixelLimitText) || Contains(text, InputTooLargeText) ==> a == TooLargeAlert
    ensures !Contains(text, PixelLimitText) && !Contains(text, InputTooLargeText) && Contains(text, RenderedDetailText)
      ==> a == DetailedAlert(text)
    ensures !Contains(text, PixelLimitText) && !Contains(text, InputTooLargeText) && !Contains(text, RenderedDetailText)
      ==> a == GenericAlert
  {
    if Contains(text, PixelLimitText) || Contains(text, InputTooLargeText) then TooLargeAlert
    else if Contains(text, RenderedDetailText) then DetailedAlert(text)
    else GenericAlert
  }

  /** A failure without details or message gets the generic alert. */
  lemma UnknownErrorIsGeneric(f: RenderFailure)
    requires !(f.details.Some? && f.details.value != "") && !(f.message.Some? && f.message.value != "")
    ensures ClassifyRenderError(ErrorText(f)) == GenericAlert
  {
    if Contains(UnknownError, PixelLimitText) { ContainsLength(UnknownError, PixelLimitText); }
    if Contains(UnknownError, InputTooLargeText) { ContainsLength(UnknownError, InputTooLargeText); }
    if Contains(UnknownError, RenderedDetailText) { ContainsLength(UnknownError, RenderedDetailText); }
  }

  /** The too-large test wins over the detailed one when a text passes both. */
  lemma TooLargeWins(text: string)
    requires Contains(text, RenderedDetailText)
    requires Contains(text, InputTooLargeText)
    ensures ClassifyRenderError(text) == TooLargeAlert
  {
  }

  /**
   * The start of `handleGenerateImage`: while a render runs a second press
   * does nothing (None); otherwise the editor is marked rendering and the
   * page's id and regions are sent.
   */
  function BeginRender(e: Editor): (r: Option<Editor>)
    ensures e.isRendering <==> r.None?
    ensures r.Some? ==> r.value == e.(isRendering := true)
  {
    if e.isRendering then None else Some(e.(isRendering := true))
  }

  /**
   * The end of `handleGenerateImage` with the server's reply: success
   * records the returned URL and bumps the image key so the preview
   * reloads; failure classifies the error text; the flag is always cleared.
   */
  function FinishRender(e: Editor, reply: RenderReply): (s: Step)
    ensures !s.editor.isRendering
    ensures s.editor.isExtracting == e.isExtracting && s.editor.isTranslating == e.isTranslating
    ensures reply.Rendered? ==>
      && s.editor.page == e.page.(renderedImageUrl := Some(reply.imageUrl))
      && s.editor.imageKey == e.imageKey + 1 && s.alert.None?
    ensures reply.Failed? ==>
      && s.editor == e.(isRendering := false)
      && s.alert == Some(ClassifyRenderError(ErrorText(reply.failure)))
  {
    match reply
    case Rendered(url) => Step(e.(page := e.page.(renderedImageUrl := Some(url)), imageKey := e.imageKey + 1,
                              isRendering := false), None)
    case Failed(f) => Step(e.(isRendering := false), Some(ClassifyRenderError(ErrorText(f))))
  }

  /** One press of the generate button, run to completion with the server's reply. */
  function GenerateImage(e: Editor, reply: RenderReply): (s: Step)
    ensures e.isRendering ==> s == Step(e, None)
    ensures !e.isRendering ==> s == FinishRender(e.(isRendering := true), reply)
  {
    match BeginRender(e)
    case None => Step(e, None)
    case Some(busy) => FinishRender(busy, reply)
  }

  /** A completed render leaves the flag cleared whatever the outcome, and a failure changes nothing else. */
  lemma RenderSingleFlight(e: Editor, reply: RenderReply)
    requires !e.isRendering
    ensures var s := GenerateImage(e, reply);
      && !s.editor.isRendering
      && s.editor.page.regions == e.page.regions && s.editor.page.id == e.page.id
      && (reply.Failed? ==> s.editor == e)
      && (reply.Rendered? ==> s.editor.imageKey == e.imageKey + 1)
  {
  }

  /**
   * A failure text that starts with the basic client's prefix and mentions
   * no size limit is classified as detailed. This is a statement about the
   * classifier only: the render route does not pass the client's text on
   * (see `RouteFailureIsGeneric`).
   */
  lemma ClientPrefixIsDetailed(text: string)
    requires StartsWith(text, "Failed to render translated image: ")
    requires !Contains(text, PixelLimitText) && !Contains(text, InputTooLargeText)
    ensures ClassifyRenderError(text) == DetailedAlert(text)
  {
    assert text[0..][..|RenderedDetailText|] == RenderedDetailText;
    ContainsAt(text, RenderedDetailText, 0);
  }

  /** The HTTP client's message for a reply with status 500. */
  const Status500Message: string := "Request failed with status code 500"

  /**
   * The render route answers any failure with status 500 and a body holding
   * only `error`, no `details`: the editor falls back to the HTTP client's
   * message, which mentions neither a size limit nor the detailed marker,
   * so the user sees the generic alert.
   */
  lemma RouteFailureIsGeneric(f: RenderFailure)
    requires f.details.None? && f.message == Some(Status500Message)
    ensures ClassifyRenderError(ErrorText(f)) == GenericAlert
  {
    var text := Status500Message;
    assert !Contains(text, PixelLimitText) by {
      assert PixelLimitText[1] == 'x' && 'x' !in text;
      AbsentChar(text, PixelLimitText, 1);
    }
    assert !Contains(text, InputTooLargeText) by {
      assert InputTooLargeText[0] == 'I' && 'I' !in text;
      AbsentChar(text, InputTooLargeText, 0);
    }
    assert !Contains(text, RenderedDetailText) by {
      assert RenderedDetailText[0] == 'F' && 'F' !in text;
      AbsentChar(text, RenderedDetailText, 0);
    }
  }
}
