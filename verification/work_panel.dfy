/**
 * The work panel beside the page: the target-language choice for
 * auto-translate, sent by its English name, and the list of regions.
 */
module WorkPanel {
  import opened Wrappers
  import opened Types
  import Language

  /** An entry of the panel's language list. */
  datatype LanguageOption = LanguageOption(code: string, name: string)

  /** The panel's target languages, in display order. */
  const Languages: seq<LanguageOption> := [
    LanguageOption("en", "English"), LanguageOption("es", "Spanish"), LanguageOption("fr", "French"),
    LanguageOption("de", "German"), LanguageOption("it", "Italian"), LanguageOption("pt", "Portuguese"),
    LanguageOption("ru", "Russian"), LanguageOption("ja", "Japanese"), LanguageOption("ko", "Korean"),
    LanguageOption("zh", "Chinese"), LanguageOption("ar", "Arabic"), LanguageOption("hi", "Hindi"),
    LanguageOption("vi", "Vietnamese")
  ]

  /** The target selected when the panel mounts. */
  const DefaultTarget: string := "es"

  /** `LANGUAGES.find(l => l.code === code)`: the first entry with the code. */
  function Find(options: seq<LanguageOption>, code: string): (r: Option<LanguageOption>)
    ensures r.Some? ==> r.value in options && r.value.code == code
    ensures r.None? <==> forall i :: 0 <= i < |options| ==> options[i].code != code
    ensures |options| > 0 && options[0].code == code ==> r == Some(options[0])
  {
    if |options| == 0 then None
    else if options[0].code == code then Some(options[0])
    else Find(options[1..], code)
  }

  /** The argument auto-translate sends: the entry's name, or the code itself when it is not listed. */
  function LanguageName(code: string): (name: string)
    ensures name == code || exists i :: 0 <= i < |Languages| && Languages[i].code == code && Languages[i].name == name
  {
    match Find(Languages, code)
    case Some(o) => if o.name != "" then o.name else code
    case None => code
  }

  /** The list's codes are pairwise distinct. */
  lemma CodesDistinct()
    ensures forall i, j :: 0 <= i < j < |Languages| ==> Languages[i].code != Languages[j].code
  {
  }

  /** The list offers exactly the interface's thirteen language codes, in the same order. */
  lemma SameCodesAsInterface()
    ensures |Languages| == |Language.Codes|
    ensures forall i :: 0 <= i < |Languages| ==> Languages[i].code == Language.Codes[i]
  {
  }

  /** With distinct codes, `Find` of an entry's code is that entry. */
  lemma {:induction false} FindListed(options: seq<LanguageOption>, i: nat)
    requires i < |options|
    requires forall a, b :: 0 <= a < b < |options| ==> options[a].code != options[b].code
    ensures Find(options, options[i].code) == Some(options[i])
  {
    if i > 0 {
      assert options[0].code != options[i].code;
      FindListed(options[1..], i - 1);
    }
  }

  /** Choosing a listed code sends its listed name. */
  lemma ListedCodeSendsName(i: nat)
    requires i < |Languages|
    ensures LanguageName(Languages[i].code) == Languages[i].name
  {
    CodesDistinct();
    FindListed(Languages, i);
    NamesNonEmpty();
  }

  /** Every listed language has a name. */
  lemma NamesNonEmpty()
    ensures forall i :: 0 <= i < |Languages| ==> Languages[i].name != ""
  {
  }

  /** A code not in the list is sent unchanged. */
  lemma UnlistedCodeSentAsIs(code: string)
    requires forall i :: 0 <= i < |Languages| ==> Languages[i].code != code
    ensures LanguageName(code) == code
  {
  }

  /** The default target is sent as "Spanish". */
  lemma DefaultSendsSpanish()
    ensures LanguageName(DefaultTarget) == "Spanish"
  {
    ListedCodeSendsName(1);
  }

  /** A row of the region list: the region with its 0-based position. */
  datatype Row = Row(index: nat, region: TextRegion)

  /** What the panel shows: the empty state, or the header count, the translate control and the rows. */
  datatype View = EmptyState | Listing(count: nat, canTranslate: bool, rows: seq<Row>)

  /** The panel for a region list while translating or not. */
  function Render(regions: seq<TextRegion>, isTranslating: bool): (v: View)
    ensures v.EmptyState? <==> |regions| == 0
    ensures v.Listing? ==> v.count == |regions| && |v.rows| == |regions|
    ensures v.Listing? ==> forall i :: 0 <= i < |v.rows| ==> v.rows[i] == Row(i, regions[i])
    ensures v.Listing? ==> (v.canTranslate <==> !isTranslating)
  {
    if |regions| == 0 then EmptyState
    else Listing(|regions|, !isTranslating, seq(|regions|, i requires 0 <= i < |regions| => Row(i, regions[i])))
  }

  /** The rows read back as the region list itself: nothing is dropped, added or reordered. */
  lemma RowsAreRegions(regions: seq<TextRegion>, isTranslating: bool)
    requires |regions| > 0
    ensures var v := Render(regions, isTranslating);
      seq(|v.rows|, i requires 0 <= i < |v.rows| => v.rows[i].region) == regions
  {
  }

  /** The panel's own state: the selected target code. */
  datatype Panel = Panel(selected: string)

  /** The panel at mount. */
  function Mount(): (p: Panel)
    ensures p.selected == DefaultTarget
  {
    Panel(DefaultTarget)
  }

  /** Choosing a target in the select. */
  function Select(p: Panel, code: string): (r: Panel)
    ensures r.selected == code
  {
    Panel(code)
  }

  /** The auto-translate button: the name sent to `onAutoTranslate`, none while translating (the button is disabled). */
  function AutoTranslateClick(p: Panel, isTranslating: bool): (sent: Option<string>)
    ensures sent.Some? <==> !isTranslating
    ensures sent.Some? ==> sent.value == LanguageName(p.selected)
  {
    if isTranslating then None else Some(LanguageName(p.selected))
  }

  /** Selecting an entry and pressing auto-translate sends that entry's name. */
  lemma SelectThenTranslate(p: Panel, i: nat)
    requires i < |Languages|
    ensures AutoTranslateClick(Select(p, Languages[i].code), false) == Some(Languages[i].name)
  {
    ListedCodeSendsName(i);
  }
}
