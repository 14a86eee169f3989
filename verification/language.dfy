/**
 * The client's interface-language context: the language chosen at start
 * (stored choice, then browser tag, then English), the persisted switch,
 * and the string lookup `t` with its fallback to English and then to the
 * key itself. The string tables are a parameter; `Sample` holds a few of
 * their entries.
 */
module Language {
  import opened Wrappers

  /** One language's table: translation key to text. */
  type Table = map<string, string>

  /** The tables by language code. */
  type Tables = map<string, Table>

  /** The local-storage key the chosen language is persisted under. */
  const StorageKey: string := "monkeytranslate-language"

  const OutsideProvider: string := "useLanguage must be used within a LanguageProvider"

  /** The thirteen interface language codes, in the order of the language list. */
  const Codes: seq<string> := ["en", "es", "fr", "de", "it", "pt", "ru", "ja", "ko", "zh", "ar", "hi", "vi"]

  /** The table of `language` has a non-empty text for `key` (JavaScript treats "" as missing). */
  predicate HasEntry(tables: Tables, language: string, key: string) {
    language in tables && key in tables[language] && tables[language][key] != ""
  }

  /** `t`: the language's own text, else the English text, else the key. */
  function Translate(tables: Tables, language: string, key: string): (r: string)
    ensures r == key || (HasEntry(tables, language, key) && r == tables[language][key])
                     || (HasEntry(tables, "en", key) && r == tables["en"][key])
    ensures key != "" ==> r != ""
  {
    if HasEntry(tables, language, key) then tables[language][key]
    else if HasEntry(tables, "en", key) then tables["en"][key]
    else key
  }

  /** A text the language has always wins over English and over the key. */
  lemma OwnEntryWins(tables: Tables, language: string, key: string)
    requires HasEntry(tables, language, key)
    ensures Translate(tables, language, key) == tables[language][key]
  {
  }

  /** A key the language lacks (or leaves empty) reads exactly as in English. */
  lemma MissingReadsAsEnglish(tables: Tables, language: string, key: string)
    requires !HasEntry(tables, language, key)
    ensures Translate(tables, language, key) == Translate(tables, "en", key)
  {
  }

  /** A key no table holds is shown as the key itself. */
  lemma UnknownKeyIsItself(tables: Tables, language: string, key: string)
    requires !HasEntry(tables, language, key) && !HasEntry(tables, "en", key)
    ensures Translate(tables, language, key) == key
  {
  }

  /** `navigator.language.split('-')[0]`: the tag up to its first '-'. */
  function BrowserPrefix(tag: string): (p: string)
    ensures |p| <= |tag| && p == tag[..|p|]
    ensures forall k :: 0 <= k < |p| ==> p[k] != '-'
    ensures |p| < |tag| ==> tag[|p|] == '-'
  {
    if |tag| == 0 || tag[0] == '-' then ""
    else [tag[0]] + BrowserPrefix(tag[1..])
  }

  /** What the browser offers at start: the stored choice and the navigator's language tag. */
  datatype Window = Window(stored: Option<string>, navigatorLanguage: string)

  /**
   * The initial language: the stored code if it names a table, else the
   * browser tag's prefix if that names a table, else English. Without a
   * window (server-side rendering) it is English.
   */
  function InitialLanguage(tables: Tables, w: Option<Window>): (code: string)
    ensures code in tables || code == "en"
    ensures w.None? ==> code == "en"
    ensures (w.Some? && !(w.value.stored.Some? && w.value.stored.value != "" && w.value.stored.value in tables)
             && BrowserPrefix(w.value.navigatorLanguage) !in tables) ==> code == "en"
    ensures w.Some? && w.value.stored.Some? && w.value.stored.value != "" && w.value.stored.value in tables
      ==> code == w.value.stored.value
    ensures (w.Some? && !(w.value.stored.Some? && w.value.stored.value != "" && w.value.stored.value in tables)
             && BrowserPrefix(w.value.navigatorLanguage) in tables) ==> code == BrowserPrefix(w.value.navigatorLanguage)
  {
    if w.None? then "en"
    else if w.value.stored.Some? && w.value.stored.value != "" && w.value.stored.value in tables then w.value.stored.value
    else if BrowserPrefix(w.value.navigatorLanguage) in tables then BrowserPrefix(w.value.navigatorLanguage)
    else "en"
  }

  /** A stored code that names a table is used whatever the browser says. */
  lemma StoredCodeWins(tables: Tables, stored: string, tag: string)
    requires stored != "" && stored in tables
    ensures InitialLanguage(tables, Some(Window(Some(stored), tag))) == stored
  {
  }

  /** Without a usable stored code, a browser tag "xx-YY" selects the table "xx" when it exists. */
  lemma BrowserTagSelectsPrefix(tables: Tables, stored: Option<string>, code: string, region: string)
    requires stored.None? || stored.value !in tables
    requires code in tables && forall k :: 0 <= k < |code| ==> code[k] != '-'
    ensures InitialLanguage(tables, Some(Window(stored, code + "-" + region))) == code
  {
    PrefixOfTag(code, region);
  }

  /** Without a usable stored code, a regionless tag such as "de" selects its own table when it exists. */
  lemma RegionlessTagSelectsItself(tables: Tables, stored: Option<string>, code: string)
    requires stored.None? || stored.value !in tables
    requires code in tables && forall k :: 0 <= k < |code| ==> code[k] != '-'
    ensures InitialLanguage(tables, Some(Window(stored, code))) == code
  {
    var p := BrowserPrefix(code);
    assert p == code[..|code|] == code;
  }

  /** The prefix of "code-region" is the code when the code has no '-'. */
  lemma {:induction false} PrefixOfTag(code: string, region: string)
    requires forall k :: 0 <= k < |code| ==> code[k] != '-'
    ensures BrowserPrefix(code + "-" + region) == code
  {
    var tag := code + "-" + region;
    if |code| > 0 {
      assert tag[0] == code[0] && tag[1..] == code[1..] + "-" + region;
      PrefixOfTag(code[1..], region);
      assert code == [code[0]] + code[1..];
    }
  }

  /** The provider's state and what local storage holds under `StorageKey`. */
  datatype Provider = Provider(language: string, initialized: bool, stored: Option<string>)

  /** The first render: the initial language, not yet initialized; storage untouched. */
  function Mount(tables: Tables, w: Option<Window>): (p: Provider)
    ensures p.language == InitialLanguage(tables, w) && !p.initialized
    ensures w.Some? ==> p.stored == w.value.stored
  {
    Provider(InitialLanguage(tables, w), false, if w.Some? then w.value.stored else None)
  }

  /** The mount effect: the provider is initialized. */
  function Initialize(p: Provider): (r: Provider)
    ensures r.initialized && r.language == p.language && r.stored == p.stored
  {
    p.(initialized := true)
  }

  /** `setLanguage`: the language changes and the same code is persisted. */
  function SetLanguage(p: Provider, code: string): (r: Provider)
    ensures r.language == code && r.stored == Some(code) && r.initialized == p.initialized
  {
    Provider(code, p.initialized, Some(code))
  }

  /** The context value the provider renders its children with; nothing until initialized. */
  function ProvidedLanguage(p: Provider): (r: Option<string>)
    ensures r.Some? <==> p.initialized
    ensures r.Some? ==> r.value == p.language
  {
    if p.initialized then Some(p.language) else None
  }

  /** `useLanguage`: the provided context, or the error thrown outside a provider. */
  function UseLanguage(context: Option<string>): (r: Result<string>)
    ensures context.None? <==> r.Failure?
    ensures r.Failure? ==> r.error == OutsideProvider
    ensures context.Some? ==> r == Success(context.value)
  {
    match context
    case None => Failure(OutsideProvider)
    case Some(c) => Success(c)
  }

  /** The first render shows nothing; after the mount effect the initial language is provided. */
  lemma FirstRenderIsEmpty(tables: Tables, w: Option<Window>)
    ensures ProvidedLanguage(Mount(tables, w)).None?
    ensures ProvidedLanguage(Initialize(Mount(tables, w))) == Some(InitialLanguage(tables, w))
  {
  }

  /** A language chosen with `setLanguage` is the one the next start-up begins with. */
  lemma ChoiceSurvivesReload(tables: Tables, p: Provider, code: string, tag: string)
    requires code != "" && code in tables
    ensures var q := SetLanguage(p, code);
      InitialLanguage(tables, Some(Window(q.stored, tag))) == code
  {
  }

  /** A few entries of the real tables; every code has a table, only three are filled in. */
  const Sample: Tables := map[
    "en" := map["pages" := "Pages", "generating" := "Generating...", "extractText" := "Extract Text"],
    "es" := map["pages" := "P\U{00E1}ginas", "generating" := "Generando...", "extractText" := "Extraer Texto"],
    "de" := map["pages" := "Seiten", "generating" := "Generiere..."],
    "fr" := map[], "it" := map[], "pt" := map[], "ru" := map[], "ja" := map[],
    "ko" := map[], "zh" := map[], "ar" := map[], "hi" := map[], "vi" := map[]
  ]

  /** Every interface code names a table. */
  lemma CodesHaveTables()
    ensures forall i :: 0 <= i < |Codes| ==> Codes[i] in Sample
  {
  }

  /** German has no "Extract Text" entry, so the English text is shown. */
  lemma GermanFallsBackToEnglish()
    ensures Translate(Sample, "de", "extractText") == "Extract Text"
    ensures Translate(Sample, "de", "pages") == "Seiten"
  {
  }

  /** No table has "imageTooLarge": the key itself is shown. */
  lemma ImageTooLargeShowsKey()
    ensures Translate(Sample, "es", "imageTooLarge") == "imageTooLarge"
  {
  }

  /** A German browser without a stored choice starts in German; an unknown one in English. */
  lemma BrowserExamples()
    ensures InitialLanguage(Sample, Some(Window(None, "de-AT"))) == "de"
    ensures InitialLanguage(Sample, Some(Window(Some("xx"), "nl-NL"))) == "en"
  {
    assert "de" + "-" + "AT" == "de-AT";
    BrowserTagSelectsPrefix(Sample, None, "de", "AT");
    assert "nl" + "-" + "NL" == "nl-NL";
    assert BrowserPrefix("nl-NL") == "nl" by { PrefixOfTag("nl", "NL"); }
  }
}
