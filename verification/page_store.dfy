/**
 * The server's in-memory page store and its routes under `/api/pages`:
 * upload, image serving, extraction, translation, rendering, lookup,
 * deletion and listing. Each route is one atomic step that answers a
 * status code after a fixed order of checks. The Gemini client, the file
 * system and uuid generation are parameters.
 */
module PageStore {
  import opened Wrappers
  import opened Strings
  import opened Types
  import Seqs
  import PathExt

  /** A stored page with the file paths the routes keep beside it. */
  datatype Entry = Entry(page: Page, filePath: Option<string>, renderedFilePath: Option<string>)

  /** A JavaScript `Map`: the entries and their insertion order. */
  datatype Store = Store(order: seq<string>, entries: map<string, Entry>)

  /** The reply of a route: a value, or an HTTP error status with its message. */
  datatype Reply<+T> = Ok(value: T) | Err(status: nat, error: string)

  /** The store after a route, with the route's reply. */
  datatype Outcome<+T> = Outcome(store: Store, reply: Reply<T>)

  const PageNotFound: string := "Page not found"
  const FileNotFound: string := "Image file not found"
  const NotConfigured: string := "Gemini API not configured"
  const ExtractNotConfigured: string := "Gemini API not configured. Please set GEMINI_API_KEY in .env file"
  const NoFiles: string := "No files uploaded"
  const OnlyImages: string := "Only image files are allowed (jpeg, jpg, png, gif, webp)"
  const InvalidTexts: string := "Invalid texts array"
  const LanguageRequired: string := "Target language is required"
  const InvalidRegions: string := "Invalid regions array"
  const ExtractFailed: string := "Failed to extract text from image"
  const TranslateFailed: string := "Failed to translate texts"
  const RenderFailed: string := "Failed to render image with translations"
  /** The messages of the upload library's own limit errors. */
  const TooManyFiles: string := "Unexpected field"
  const FileTooLarge: string := "File too large"

  /** The upload limits: at most 10 files of at most 10 MB each. */
  const MaxFiles: nat := 10
  const MaxFileSize: nat := 10 * 1024 * 1024

  /** The order lists exactly the stored ids, once each, and each page sits under its own id. */
  predicate Valid(s: Store) {
    && (forall i :: 0 <= i < |s.order| ==> s.order[i] in s.entries)
    && (forall id :: id in s.entries ==> id in s.order)
    && (forall i, j :: 0 <= i < j < |s.order| ==> s.order[i] != s.order[j])
    && (forall id :: id in s.entries ==> s.entries[id].page.id == id)
  }

  const Empty: Store := Store([], map[])

  /** A path string JavaScript treats as present: defined and non-empty. */
  predicate Present(p: Option<string>) {
    p.Some? && p.value != ""
  }

  /** `pages.set(id, e)`: a new key goes last, an existing key keeps its place. */
  function Put(s: Store, id: string, e: Entry): (t: Store)
    ensures t.entries == s.entries[id := e]
    ensures id in s.entries ==> t.order == s.order
    ensures id !in s.entries ==> t.order == s.order + [id]
  {
    if id in s.entries then Store(s.order, s.entries[id := e])
    else Store(s.order + [id], s.entries[id := e])
  }

  /** `pages.delete(id)`. */
  function Remove(s: Store, id: string): (t: Store)
    ensures t.entries == s.entries - {id}
  {
    Store(Seqs.Filter(s.order, k => k != id), s.entries - {id})
  }

  /** Setting a page under its own id keeps the store valid. */
  lemma PutValid(s: Store, e: Entry)
    requires Valid(s)
    ensures Valid(Put(s, e.page.id, e))
  {
  }

  /** Deleting keeps the store valid and keeps the other ids in their order. */
  lemma RemoveValid(s: Store, id: string)
    requires Valid(s)
    ensures Valid(Remove(s, id))
    ensures Seqs.SubSeq(Remove(s, id).order, s.order)
  {
    var t := Remove(s, id);
    Seqs.FilterIsSubSeq(s.order, k => k != id);
    forall i, j | 0 <= i < j < |t.order|
      ensures t.order[i] != t.order[j]
    {
      SubSeqDistinct(t.order, s.order, i, j);
    }
  }

  /** Distinct elements stay distinct in a subsequence. */
  lemma {:induction false} SubSeqDistinct(ys: seq<string>, xs: seq<string>, i: nat, j: nat)
    requires Seqs.SubSeq(ys, xs)
    requires forall a, b :: 0 <= a < b < |xs| ==> xs[a] != xs[b]
    requires i < j < |ys|
    ensures ys[i] != ys[j]
    decreases |xs|
  {
    if ys[0] == xs[0] {
      if i == 0 {
        SubSeqMember(ys[1..], xs[1..], j - 1);
        var k :| 0 <= k < |xs[1..]| && xs[1..][k] == ys[j];
        assert xs[k + 1] == ys[j];
      } else {
        SubSeqDistinct(ys[1..], xs[1..], i - 1, j - 1);
      }
    } else {
      SubSeqDistinct(ys, xs[1..], i, j);
    }
  }

  /** Every element of a subsequence occurs in the whole. */
  lemma {:induction false} SubSeqMember(ys: seq<string>, xs: seq<string>, j: nat)
    requires Seqs.SubSeq(ys, xs) && j < |ys|
    ensures exists k :: 0 <= k < |xs| && xs[k] == ys[j]
    decreases |xs|
  {
    if ys[0] == xs[0] {
      if j == 0 {
        assert xs[0] == ys[0];
      } else {
        SubSeqMember(ys[1..], xs[1..], j - 1);
        var k :| 0 <= k < |xs[1..]| && xs[1..][k] == ys[j];
        assert xs[k + 1] == ys[j];
      }
    } else {
      SubSeqMember(ys, xs[1..], j);
      var k :| 0 <= k < |xs[1..]| && xs[1..][k] == ys[j];
      assert xs[k + 1] == ys[j];
    }
  }

  /** `GET /`: every stored page in insertion order. */
  function List(s: Store): (ps: seq<Page>)
    requires Valid(s)
    ensures |ps| == |s.order|
    ensures forall i :: 0 <= i < |s.order| ==> ps[i] == s.entries[s.order[i]].page
  {
    seq(|s.order|, i requires 0 <= i < |s.order| => s.entries[s.order[i]].page)
  }

  // ----- upload -----

  /** A file as the upload library presents it. */
  datatype UploadFile = UploadFile(originalname: string, mimetype: string, size: nat, path: string)

  /** `/jpeg|jpg|png|gif|webp/.test(s)`: one of the five names occurs anywhere in `s`. */
  predicate AllowedType(s: string) {
    Contains(s, "jpeg") || Contains(s, "jpg") || Contains(s, "png") || Contains(s, "gif") || Contains(s, "webp")
  }

  /** `fileFilter`: both the lower-cased extension of the original name and the MIME type pass the test. */
  predicate FileFilter(f: UploadFile) {
    AllowedType(ToLower(PathExt.ExtName(f.originalname))) && AllowedType(f.mimetype)
  }

  /**
   * The upload library's verdict on the files, in arrival order: the
   * eleventh file is refused, then a file the filter rejects, then a file
   * over the size limit. `None` when every file is accepted. `filter` is
   * the file filter the route installs (`FileFilter`).
   */
  function UploadRejection(files: seq<UploadFile>, index: nat, filter: UploadFile -> bool): (e: Option<string>)
    ensures e.Some? ==> e.value in {TooManyFiles, OnlyImages, FileTooLarge}
    decreases |files|
  {
    if |files| == 0 then None
    else if index >= MaxFiles then Some(TooManyFiles)
    else if !filter(files[0]) then Some(OnlyImages)
    else if files[0].size > MaxFileSize then Some(FileTooLarge)
    else UploadRejection(files[1..], index + 1, filter)
  }

  /** Files the upload library lets through when the first of them arrives as number `index`. */
  predicate Acceptable(files: seq<UploadFile>, index: nat, filter: UploadFile -> bool) {
    && index + |files| <= MaxFiles
    && forall k :: 0 <= k < |files| ==> filter(files[k]) && files[k].size <= MaxFileSize
  }

  /** Acceptable files are let through. */
  lemma {:induction false} AcceptableNotRejected(files: seq<UploadFile>, index: nat, filter: UploadFile -> bool)
    requires Acceptable(files, index, filter)
    ensures UploadRejection(files, index, filter).None?
    decreases |files|
  {
    if |files| > 0 {
      var rest := files[1..];
      assert forall k :: 0 <= k < |rest| ==> rest[k] == files[k + 1];
      AcceptableNotRejected(rest, index + 1, filter);
    }
  }

  /** Files let through are acceptable: at most ten, each passing the filter and the size limit. */
  lemma {:induction false} NotRejectedAcceptable(files: seq<UploadFile>, index: nat, filter: UploadFile -> bool)
    requires UploadRejection(files, index, filter).None?
    ensures |files| == 0 || Acceptable(files, index, filter)
    decreases |files|
  {
    if |files| > 0 {
      var rest := files[1..];
      NotRejectedAcceptable(rest, index + 1, filter);
      assert forall k :: 1 <= k < |files| ==> files[k] == rest[k - 1];
    }
  }

  /** The page stored for an uploaded file under the id `id`. */
  function NewPage(id: string, f: UploadFile, now: int): (p: Page)
    ensures p.id == id && p.imageOriginalUrl == ImageUrl(id) && p.regions == []
    ensures p.renderedImageUrl.None? && p.filename == f.originalname
  {
    Page(id, ImageUrl(id), None, [], None, f.originalname, now)
  }

  /** The loop of the upload route: one page per file, set in the store in file order. */
  function StoreFiles(s: Store, files: seq<UploadFile>, ids: seq<string>, now: int): (t: Store)
    requires |ids| == |files|
    decreases |files|
  {
    if |files| == 0 then s
    else StoreFiles(Put(s, ids[0], Entry(NewPage(ids[0], files[0], now), Some(files[0].path), None)),
                    files[1..], ids[1..], now)
  }

  /** The pages the upload route answers with. */
  function UploadedPages(files: seq<UploadFile>, ids: seq<string>, now: int): (ps: seq<Page>)
    requires |ids| == |files|
    ensures |ps| == |files|
    ensures forall k :: 0 <= k < |files| ==> ps[k] == NewPage(ids[k], files[k], now)
  {
    seq(|files|, k requires 0 <= k < |files| => NewPage(ids[k], files[k], now))
  }

  /**
   * `POST /` with the files of the request and the ids uuid hands out.
   * A refusal of the upload library answers 500 through the error
   * handler; no files answers 400; in both cases nothing is stored.
   */
  function Upload(s: Store, files: seq<UploadFile>, ids: seq<string>, now: int): (o: Outcome<seq<Page>>)
    requires |ids| == |files|
    ensures o.reply.Err? ==> o.store == s
    ensures |files| == 0 ==> o.reply == Err(400, NoFiles)
    ensures UploadRejection(files, 0, FileFilter).Some? ==> o.reply == Err(500, UploadRejection(files, 0, FileFilter).value)
    ensures o.reply.Ok? <==> |files| > 0 && UploadRejection(files, 0, FileFilter).None?
    ensures o.reply.Ok? ==> o.reply.value == UploadedPages(files, ids, now)
  {
    match UploadRejection(files, 0, FileFilter)
    case Some(e) => Outcome(s, Err(500, e))
    case None =>
      if |files| == 0 then Outcome(s, Err(400, NoFiles))
      else Outcome(StoreFiles(s, files, ids, now), Ok(UploadedPages(files, ids, now)))
  }

  /** The entry the upload stores for the k-th file. */
  function UploadEntry(files: seq<UploadFile>, ids: seq<string>, now: int, k: nat): Entry
    requires |ids| == |files| && k < |files|
  {
    Entry(NewPage(ids[k], files[k], now), Some(files[k].path), None)
  }

  /** With fresh, distinct ids the new ids go last, in file order. */
  lemma {:induction false} StoreFilesOrder(s: Store, files: seq<UploadFile>, ids: seq<string>, now: int)
    requires |ids| == |files|
    requires forall k :: 0 <= k < |ids| ==> ids[k] !in s.entries
    requires forall a, b :: 0 <= a < b < |ids| ==> ids[a] != ids[b]
    ensures StoreFiles(s, files, ids, now).order == s.order + ids
    decreases |files|
  {
    if |files| > 0 {
      var s1 := Put(s, ids[0], UploadEntry(files, ids, now, 0));
      assert forall k :: 0 <= k < |ids[1..]| ==> ids[1..][k] == ids[k + 1];
      StoreFilesOrder(s1, files[1..], ids[1..], now);
      assert s1.order + ids[1..] == s.order + ids;
    }
  }

  /** An id the upload does not hand out keeps its entry. */
  lemma {:induction false} StoreFilesKeeps(s: Store, files: seq<UploadFile>, ids: seq<string>, now: int, id: string)
    requires |ids| == |files|
    requires id in s.entries && id !in ids
    ensures id in StoreFiles(s, files, ids, now).entries
    ensures StoreFiles(s, files, ids, now).entries[id] == s.entries[id]
    decreases |files|
  {
    if |files| > 0 {
      var s1 := Put(s, ids[0], UploadEntry(files, ids, now, 0));
      assert id !in ids[1..];
      StoreFilesKeeps(s1, files[1..], ids[1..], now, id);
    }
  }

  /** With distinct ids the k-th id holds the k-th file's page. */
  lemma {:induction false} StoreFilesNew(s: Store, files: seq<UploadFile>, ids: seq<string>, now: int, k: nat)
    requires |ids| == |files| && k < |files|
    requires forall a, b :: 0 <= a < b < |ids| ==> ids[a] != ids[b]
    ensures ids[k] in StoreFiles(s, files, ids, now).entries
    ensures StoreFiles(s, files, ids, now).entries[ids[k]] == UploadEntry(files, ids, now, k)
    decreases |files|
  {
    var s1 := Put(s, ids[0], UploadEntry(files, ids, now, 0));
    if k == 0 {
      assert ids[0] !in ids[1..];
      StoreFilesKeeps(s1, files[1..], ids[1..], now, ids[0]);
    } else {
      StoreFilesNew(s1, files[1..], ids[1..], now, k - 1);
      assert UploadEntry(files[1..], ids[1..], now, k - 1) == UploadEntry(files, ids, now, k);
    }
  }

  /** With fresh, distinct ids the store stays valid. */
  lemma {:induction false} StoreFilesValid(s: Store, files: seq<UploadFile>, ids: seq<string>, now: int)
    requires Valid(s)
    requires |ids| == |files|
    requires forall k :: 0 <= k < |ids| ==> ids[k] !in s.entries
    requires forall a, b :: 0 <= a < b < |ids| ==> ids[a] != ids[b]
    ensures Valid(StoreFiles(s, files, ids, now))
    decreases |files|
  {
    if |files| > 0 {
      var e := UploadEntry(files, ids, now, 0);
      var s1 := Put(s, ids[0], e);
      PutValid(s, e);
      assert forall k :: 0 <= k < |ids[1..]| ==> ids[1..][k] == ids[k + 1];
      StoreFilesValid(s1, files[1..], ids[1..], now);
    }
  }

  /** A successful upload lists the new pages after the old ones, in file order. */
  lemma UploadAppends(s: Store, files: seq<UploadFile>, ids: seq<string>, now: int)
    requires Valid(s)
    requires |ids| == |files|
    requires forall k :: 0 <= k < |ids| ==> ids[k] !in s.entries
    requires forall a, b :: 0 <= a < b < |ids| ==> ids[a] != ids[b]
    requires |files| > 0 && Acceptable(files, 0, FileFilter)
    ensures var o := Upload(s, files, ids, now);
      o.reply.Ok? && Valid(o.store) && List(o.store) == List(s) + o.reply.value
  {
    var t := StoreFiles(s, files, ids, now);
    var ps := UploadedPages(files, ids, now);
    assert Upload(s, files, ids, now) == Outcome(t, Ok(ps)) by {
      AcceptableNotRejected(files, 0, FileFilter);
    }
    StoreFilesValid(s, files, ids, now);
    StoreFilesOrder(s, files, ids, now);
    forall i | 0 <= i < |t.order|
      ensures List(t)[i] == (List(s) + ps)[i]
    {
      if i >= |s.order| {
        var k := i - |s.order|;
        assert t.order[i] == ids[k];
        StoreFilesNew(s, files, ids, now, k);
      } else {
        var id := s.order[i];
        assert t.order[i] == id;
        assert id !in ids;
        StoreFilesKeeps(s, files, ids, now, id);
      }
    }
  }

  /** A string holding one of the five names at position `i` passes the test. */
  lemma AllowedAt(s: string, name: string, i: nat)
    requires name in ["jpeg", "jpg", "png", "gif", "webp"]
    requires i + |name| <= |s| && s[i..i + |name|] == name
    ensures AllowedType(s)
  {
    assert s[i..][..|name|] == s[i..i + |name|];
    ContainsAt(s, name, i);
  }

  /** The extension test matches substrings: a name ending in `.pngs` passes as an image. */
  lemma FilterMatchesSubstrings()
    ensures FileFilter(UploadFile("x.pngs", "image/png", 1, "/up/x"))
  {
    var f := UploadFile("x.pngs", "image/png", 1, "/up/x");
    assert AllowedType(ToLower(PathExt.ExtName(f.originalname))) by {
      ExampleExtension();
      ToLowerOfLower(".pngs");
      AllowedAt(".pngs", "png", 1);
    }
    assert AllowedType(f.mimetype) by {
      PngMimeAllowed();
    }
  }

  /** The PNG MIME type passes the test. */
  lemma PngMimeAllowed()
    ensures AllowedType("image/png")
  {
    AllowedAt("image/png", "png", 6);
  }

  /** The extension of `x.pngs`. */
  lemma ExampleExtension()
    ensures PathExt.ExtName("x.pngs") == ".pngs"
  {
    PathExt.ExtNameOfName("", "x", "pngs");
    assert "" + "x" + "." + "pngs" == "x.pngs";
    assert "." + "pngs" == ".pngs";
  }

  /** A text file is refused. */
  lemma FilterRejectsText()
    ensures !FileFilter(UploadFile("notes.txt", "text/plain", 1, "/up/x"))
  {
    PathExt.ExtNameOfName("", "notes", "txt");
    assert "" + "notes" + "." + "txt" == "notes.txt";
    assert "." + "txt" == ".txt";
    assert ToLower(".txt") == ".txt" by { ToLowerOfLower(".txt"); }
    assert !Contains(".txt", "jpeg") by { NotContains4(".txt", "jpeg"); }
    assert !Contains(".txt", "webp") by { NotContains4(".txt", "webp"); }
    assert !Contains(".txt", "jpg") by { NotContains3(".txt", "jpg"); }
    assert !Contains(".txt", "png") by { NotContains3(".txt", "png"); }
    assert !Contains(".txt", "gif") by { NotContains3(".txt", "gif"); }
  }

  /** A four-letter word other than a four-letter string does not occur in it. */
  lemma NotContains4(s: string, w: string)
    requires |s| == 4 && |w| == 4 && s != w
    ensures !Contains(s, w)
  {
    forall i | 0 <= i <= |s| - |w|
      ensures !StartsWith(s[i..], w)
    {
      assert s[i..] == s;
    }
  }

  /** A three-letter word absent from each window of a four-letter string. */
  lemma NotContains3(s: string, w: string)
    requires |s| == 4 && |w| == 3
    requires s[..3] != w && s[1..] != w
    ensures !Contains(s, w)
  {
    forall i | 0 <= i <= |s| - |w|
      ensures !StartsWith(s[i..], w)
    {
      assert s[i..][..3] == s[i..i + 3];
    }
  }

  // ----- image -----

  /**
   * `GET /:id/image`: the path of the file sent. A recorded rendered file
   * is sent when `accessible` reports it can be read, else the original.
   */
  function GetImage(s: Store, id: string, accessible: string -> bool): (r: Reply<string>)
    ensures id !in s.entries ==> r == Err(404, PageNotFound)
    ensures id in s.entries && !Present(s.entries[id].filePath) ==> r == Err(404, FileNotFound)
    ensures r.Ok? <==> id in s.entries && Present(s.entries[id].filePath)
    ensures r.Ok? ==> var e := s.entries[id];
      if Present(e.renderedFilePath) && accessible(e.renderedFilePath.value)
      then r.value == e.renderedFilePath.value
      else r.value == e.filePath.value
  {
    if id !in s.entries then Err(404, PageNotFound)
    else
      var e := s.entries[id];
      if !Present(e.filePath) then Err(404, FileNotFound)
      else if Present(e.renderedFilePath) && accessible(e.renderedFilePath.value) then Ok(e.renderedFilePath.value)
      else Ok(e.filePath.value)
  }

  // ----- extract -----

  /** The page under `id` with its region list replaced. */
  function WithRegions(s: Store, id: string, regions: seq<TextRegion>): (t: Store)
    requires id in s.entries
  {
    var e := s.entries[id];
    Put(s, id, e.(page := e.page.(regions := regions)))
  }

  /** Replacing one page's regions changes nothing else. */
  lemma WithRegionsFrame(s: Store, id: string, regions: seq<TextRegion>)
    requires Valid(s) && id in s.entries
    ensures var t := WithRegions(s, id, regions);
      && Valid(t) && t.order == s.order && t.entries.Keys == s.entries.Keys
      && t.entries[id].page == s.entries[id].page.(regions := regions)
      && t.entries[id].filePath == s.entries[id].filePath
      && t.entries[id].renderedFilePath == s.entries[id].renderedFilePath
      && (forall k :: k in s.entries && k != id ==> t.entries[k] == s.entries[k])
  {
  }

  /**
   * `POST /:id/extract`, with `client` telling whether the Gemini client
   * was set up and `extract` its extraction of a file. Checks the client
   * (503), the page (404) and its file (404), in that order; success
   * stores exactly the extracted regions, failure stores nothing.
   */
  function Extract(s: Store, id: string, client: bool, extract: string -> Result<seq<TextRegion>>)
    : (o: Outcome<seq<TextRegion>>)
    ensures !client ==> o == Outcome(s, Err(503, ExtractNotConfigured))
    ensures client && id !in s.entries ==> o == Outcome(s, Err(404, PageNotFound))
    ensures client && id in s.entries && !Present(s.entries[id].filePath) ==> o == Outcome(s, Err(404, FileNotFound))
    ensures o.reply.Err? ==> o.store == s
    ensures o.reply.Ok? <==>
      client && id in s.entries && Present(s.entries[id].filePath) && extract(s.entries[id].filePath.value).Success?
    ensures o.reply.Ok? ==>
      && client && id in s.entries && Present(s.entries[id].filePath)
      && extract(s.entries[id].filePath.value) == Success(o.reply.value)
      && o.store == WithRegions(s, id, o.reply.value)
    ensures (client && id in s.entries && Present(s.entries[id].filePath)
             && extract(s.entries[id].filePath.value).Failure?) ==> o == Outcome(s, Err(500, ExtractFailed))
  {
    if !client then Outcome(s, Err(503, ExtractNotConfigured))
    else if id !in s.entries then Outcome(s, Err(404, PageNotFound))
    else if !Present(s.entries[id].filePath) then Outcome(s, Err(404, FileNotFound))
    else
      match extract(s.entries[id].filePath.value)
      case Failure(_) => Outcome(s, Err(500, ExtractFailed))
      case Success(regions) => Outcome(WithRegions(s, id, regions), Ok(regions))
  }

  // ----- translate -----

  /**
   * The request checks both translate routes share: `texts` must be a
   * non-empty array (None stands for missing or not an array) and
   * `targetLanguage` must be present and non-empty.
   */
  function TranslateRequestError(texts: Option<seq<string>>, targetLanguage: Option<string>): (e: Option<Reply<seq<string>>>)
    ensures e.Some? <==> texts.None? || |texts.value| == 0 || !Present(targetLanguage)
    ensures texts.None? || |texts.value| == 0 ==> e == Some(Err(400, InvalidTexts))
    ensures texts.Some? && |texts.value| > 0 && !Present(targetLanguage) ==> e == Some(Err(400, LanguageRequired))
  {
    if texts.None? || |texts.value| == 0 then Some(Err(400, InvalidTexts))
    else if !Present(targetLanguage) then Some(Err(400, LanguageRequired))
    else None
  }

  /**
   * `POST /translate`: the client check (503) comes first, then the request
   * checks (400); the translations come back as the client returns them.
   * The store is not an argument: this route never reads or writes it.
   */
  function Translate(client: bool, texts: Option<seq<string>>, targetLanguage: Option<string>,
                     translate: (seq<string>, string) -> Result<seq<string>>): (r: Reply<seq<string>>)
    ensures !client ==> r == Err(503, NotConfigured)
    ensures client && TranslateRequestError(texts, targetLanguage).Some? ==> r == TranslateRequestError(texts, targetLanguage).value
    ensures r.Ok? <==>
      && client && TranslateRequestError(texts, targetLanguage).None?
      && translate(texts.value, targetLanguage.value).Success?
    ensures r.Ok? ==> r.value == translate(texts.value, targetLanguage.value).value
    ensures r.Err? && r.status == 500 ==> r.error == TranslateFailed
  {
    if !client then Err(503, NotConfigured)
    else match TranslateRequestError(texts, targetLanguage)
      case Some(e) => e
      case None =>
        match translate(texts.value, targetLanguage.value)
        case Failure(_) => Err(500, TranslateFailed)
        case Success(ts) => Ok(ts)
  }

  // ----- render -----

  /** `rendered-<uuid><ext>`: the rendered file's name, with the original's extension. */
  function RenderedFileName(uuid: string, filePath: string): string {
    "rendered-" + uuid + PathExt.ExtName(filePath)
  }

  /** The rendered file has the same extension as the original, so it is served with the same type. */
  lemma RenderedNameKeepsExt(uuid: string, filePath: string)
    requires forall k :: 0 <= k < |uuid| ==> uuid[k] != '/' && uuid[k] != '.'
    ensures PathExt.ExtName(RenderedFileName(uuid, filePath)) == PathExt.ExtName(filePath)
  {
    var ext := PathExt.ExtName(filePath);
    var stem := "rendered-" + uuid;
    PathExt.ExtNameShape(filePath);
    if ext == "" {
      assert RenderedFileName(uuid, filePath) == stem;
      PathExt.NoDotNoExt(stem);
    } else {
      var e := ext[1..];
      assert ext == "." + e;
      assert RenderedFileName(uuid, filePath) == "" + stem + "." + e;
      PathExt.ExtNameOfName("", stem, e);
    }
  }

  /**
   * `POST /:id/render`. Checks the page (404), its file (404) and the
   * regions array (400); then stores the submitted regions, and only then
   * checks the client (503), renders and writes the result. `render` is
   * the client's rendering of a file, `write` the file write, `place` the
   * path of a file name in the original's directory.
   */
  function Render(s: Store, id: string, regions: Option<seq<TextRegion>>, client: bool,
                  render: (string, seq<TextRegion>) -> Result<Bytes>, write: (string, Bytes) -> bool,
                  uuid: string, place: string -> string): (o: Outcome<string>)
    ensures id !in s.entries ==> o == Outcome(s, Err(404, PageNotFound))
    ensures id in s.entries && !Present(s.entries[id].filePath) ==> o == Outcome(s, Err(404, FileNotFound))
    ensures id in s.entries && Present(s.entries[id].filePath) && regions.None? ==> o == Outcome(s, Err(400, InvalidRegions))
    ensures id in s.entries && Present(s.entries[id].filePath) && regions.Some? ==>
      && id in o.store.entries && o.store.entries[id].page.regions == regions.value
      && (!client ==> o == Outcome(WithRegions(s, id, regions.value), Err(503, NotConfigured)))
    ensures o.reply.Err? && o.reply.status == 500 ==>
      o.reply.error == RenderFailed && o.store == WithRegions(s, id, regions.value)
    ensures id in s.entries && Present(s.entries[id].filePath) && regions.Some? && client ==>
      var fp := s.entries[id].filePath.value;
      && (o.reply.Ok? <==> render(fp, regions.value).Success?
                           && write(place(RenderedFileName(uuid, fp)), render(fp, regions.value).value))
      && (o.reply.Err? ==> o == Outcome(WithRegions(s, id, regions.value), Err(500, RenderFailed)))
    ensures o.reply.Ok? ==>
      && id in s.entries && Present(s.entries[id].filePath) && regions.Some? && client
      && o.reply.value == ImageUrl(id)
      && var fp := s.entries[id].filePath.value;
         var e := s.entries[id];
         && render(fp, regions.value).Success?
         && write(place(RenderedFileName(uuid, fp)), render(fp, regions.value).value)
         && o.store == Put(s, id, Entry(e.page.(regions := regions.value, renderedImageUrl := Some(ImageUrl(id))),
                                        e.filePath, Some(place(RenderedFileName(uuid, fp)))))
  {
    if id !in s.entries then Outcome(s, Err(404, PageNotFound))
    else if !Present(s.entries[id].filePath) then Outcome(s, Err(404, FileNotFound))
    else if regions.None? then Outcome(s, Err(400, InvalidRegions))
    else
      var s1 := WithRegions(s, id, regions.value);
      if !client then Outcome(s1, Err(503, NotConfigured))
      else
        var fp := s.entries[id].filePath.value;
        match render(fp, regions.value)
        case Failure(_) => Outcome(s1, Err(500, RenderFailed))
        case Success(bytes) =>
          var path := place(RenderedFileName(uuid, fp));
          if !write(path, bytes) then Outcome(s1, Err(500, RenderFailed))
          else
            var e := s1.entries[id];
            Outcome(Put(s1, id, Entry(e.page.(renderedImageUrl := Some(ImageUrl(id))), e.filePath, Some(path))),
                    Ok(ImageUrl(id)))
  }

  /** A render, successful or not, leaves every other page as it was. */
  lemma RenderFrame(s: Store, id: string, regions: Option<seq<TextRegion>>, client: bool,
                    render: (string, seq<TextRegion>) -> Result<Bytes>, write: (string, Bytes) -> bool,
                    uuid: string, place: string -> string)
    requires Valid(s)
    ensures var t := Render(s, id, regions, client, render, write, uuid, place).store;
      && Valid(t) && t.order == s.order && t.entries.Keys == s.entries.Keys
      && (forall k :: k in s.entries && k != id ==> t.entries[k] == s.entries[k])
  {
  }

  /** After a successful render the image route serves the new file whenever it can be read. */
  lemma RenderThenGetImage(s: Store, id: string, regions: Option<seq<TextRegion>>,
                           render: (string, seq<TextRegion>) -> Result<Bytes>, write: (string, Bytes) -> bool,
                           uuid: string, place: string -> string, accessible: string -> bool)
    requires Valid(s)
    requires Render(s, id, regions, true, render, write, uuid, place).reply.Ok?
    requires place(RenderedFileName(uuid, s.entries[id].filePath.value)) != ""
    requires accessible(place(RenderedFileName(uuid, s.entries[id].filePath.value)))
    ensures var t := Render(s, id, regions, true, render, write, uuid, place).store;
      GetImage(t, id, accessible) == Ok(place(RenderedFileName(uuid, s.entries[id].filePath.value)))
  {
  }

  // ----- page, delete -----

  /** `GET /:id`. */
  function GetPage(s: Store, id: string): (r: Reply<Page>)
    ensures id in s.entries <==> r.Ok?
    ensures r.Ok? ==> r.value == s.entries[id].page
    ensures r.Err? ==> r == Err(404, PageNotFound)
  {
    if id in s.entries then Ok(s.entries[id].page) else Err(404, PageNotFound)
  }

  /**
   * `DELETE /:id`: unknown ids answer 404; otherwise the page is removed
   * whatever happens to its files, which the model leaves out.
   */
  function Delete(s: Store, id: string): (o: Outcome<bool>)
    ensures id !in s.entries ==> o == Outcome(s, Err(404, PageNotFound))
    ensures id in s.entries ==> o.reply == Ok(true) && o.store.entries == s.entries - {id}
  {
    if id !in s.entries then Outcome(s, Err(404, PageNotFound)) else Outcome(Remove(s, id), Ok(true))
  }

  /** After a delete the page is gone from every route and the rest of the list keeps its order. */
  lemma DeleteFrame(s: Store, id: string)
    requires Valid(s) && id in s.entries
    ensures var t := Delete(s, id).store;
      && Valid(t)
      && GetPage(t, id) == Err(404, PageNotFound)
      && (forall k :: k in s.entries && k != id ==> k in t.entries && t.entries[k] == s.entries[k])
      && Seqs.SubSeq(t.order, s.order) && |t.order| == |s.order| - 1
  {
    RemoveValid(s, id);
    var t := Delete(s, id).store;
    assert t.entries.Keys == s.entries.Keys - {id};
    OrderSize(t);
    OrderSize(s);
  }

  /** The order of a valid store has one entry per key. */
  lemma OrderSize(s: Store)
    requires Valid(s)
    ensures |s.order| == |s.entries.Keys|
  {
    DistinctCard(s.order);
    assert (set i | 0 <= i < |s.order| :: s.order[i]) == s.entries.Keys;
  }

  /** A sequence without repetitions has as many elements as its set of elements. */
  lemma {:induction false} DistinctCard(xs: seq<string>)
    requires forall a, b :: 0 <= a < b < |xs| ==> xs[a] != xs[b]
    ensures |set i | 0 <= i < |xs| :: xs[i]| == |xs|
  {
    if |xs| > 0 {
      var init := xs[..|xs| - 1];
      DistinctCard(init);
      var si := set i | 0 <= i < |init| :: init[i];
      var sx := set i | 0 <= i < |xs| :: xs[i];
      assert sx == si + {xs[|xs| - 1]};
      assert xs[|xs| - 1] !in si;
    }
  }
}
