/**
 * The open-source Gemini client of the server: clean-up of the model's
 * replies, mapping of extracted records to regions, and the overlay the
 * basic renderer composites onto the original image. The Gemini call,
 * file reads, JSON.parse and sharp are parameters.
 */
module GeminiClient {
  import opened Wrappers
  import opened Strings
  import opened Types
  import opened Geometry
  import XmlEscape
  import PathExt
  import Seqs

  const Fence: string := "```"
  const JsonFence: string := "```json"

  /** JavaScript `s.replace(/<tag>\n?/g, '')`: every occurrence of `tag`, with one newline after it if present, removed left to right. */
  function RemoveFences(s: string, tag: string): (r: string)
    requires |tag| > 0
    ensures |r| <= |s|
    decreases |s|
  {
    if |s| == 0 then ""
    else if StartsWith(s, tag) then
      var rest := s[|tag|..];
      if |rest| > 0 && rest[0] == '\n' then RemoveFences(rest[1..], tag) else RemoveFences(rest, tag)
    else [s[0]] + RemoveFences(s[1..], tag)
  }

  /** No three consecutive backticks. */
  predicate NoFence(s: string) {
    forall i :: 0 <= i <= |s| - 3 ==> !StartsWith(s[i..], Fence)
  }

  /** Text that contains no occurrence of the tag is left as it is. */
  lemma {:induction false} RemoveFencesAbsent(s: string, tag: string)
    requires |tag| > 0 && !Contains(s, tag)
    ensures RemoveFences(s, tag) == s
  {
    if |s| > 0 {
      assert s[0..] == s;
      assert !StartsWith(s, tag);
      RemoveFencesAbsent(s[1..], tag);
    }
  }

  /** If the text does not start with a fence, its first character survives. */
  lemma FirstCharKept(s: string)
    requires |s| > 0 && !StartsWith(s, Fence)
    ensures |RemoveFences(s, Fence)| > 0 && RemoveFences(s, Fence)[0] == s[0]
  {
  }

  lemma NotFenceAt(r: string)
    requires |r| >= 3 && (r[0] != '`' || r[1] != '`' || r[2] != '`')
    ensures !StartsWith(r, Fence)
  {
  }

  /** Removing every fence leaves no three consecutive backticks, even where removals join backticks. */
  lemma {:induction false} RemoveFencesLeavesNoFence(s: string)
    ensures NoFence(RemoveFences(s, Fence))
    decreases |s|
  {
    var r := RemoveFences(s, Fence);
    if |s| == 0 {
    } else if StartsWith(s, Fence) {
      var rest := s[3..];
      if |rest| > 0 && rest[0] == '\n' {
        RemoveFencesLeavesNoFence(rest[1..]);
      } else {
        RemoveFencesLeavesNoFence(rest);
      }
    } else {
      var t := RemoveFences(s[1..], Fence);
      RemoveFencesLeavesNoFence(s[1..]);
      assert r == [s[0]] + t;
      forall i | 0 <= i <= |r| - 3
        ensures !StartsWith(r[i..], Fence)
      {
        if i > 0 {
          assert r[i..] == t[i - 1..];
        } else {
          assert r[0] == s[0];
          if s[0] == '`' {
            // s[1..] cannot start with a fence, or s[0..3] would be one.
            assert !StartsWith(s[1..], Fence);
            FirstCharKept(s[1..]);
            assert r[1] == s[1];
            if s[1] == '`' {
              assert s[2] != '`';
              FirstCharKept(s[2..]);
              assert t == [s[1]] + RemoveFences(s[2..], Fence);
              assert r[2] == s[2];
            }
          }
          NotFenceAt(r);
          assert r[i..] == r;
        }
      }
    }
  }

  /**
   * The clean-up applied to a trimmed reply: a reply opening with ```json
   * loses every ```json and then every ``` (each with an optional newline);
   * one opening with ``` loses every ```; any other reply is kept.
   */
  function StripFences(text: string): (r: string)
    ensures var t := Trim(text);
      && (StartsWith(t, Fence) ==> NoFence(r))
      && (!StartsWith(t, Fence) ==> r == t)
      && (StartsWith(t, JsonFence) ==> r == RemoveFences(RemoveFences(t, JsonFence), Fence))
      && (StartsWith(t, Fence) && !StartsWith(t, JsonFence) ==> r == RemoveFences(t, Fence))
  {
    var t := Trim(text);
    if StartsWith(t, JsonFence) then
      RemoveFencesLeavesNoFence(RemoveFences(t, JsonFence));
      assert t[..3] == t[..7][..3];
      RemoveFences(RemoveFences(t, JsonFence), Fence)
    else if StartsWith(t, Fence) then
      RemoveFencesLeavesNoFence(t);
      RemoveFences(t, Fence)
    else t
  }

  /** The message every extraction failure surfaces as. */
  const ExtractError: string := "Failed to extract text from image"
  /** The message every translation failure surfaces as. */
  const TranslateError: string := "Failed to translate texts"
  /** The prefix of every failure of the basic renderer. */
  const RenderErrorPrefix: string := "Failed to render translated image: "

  /** One element of the parsed extraction reply. */
  datatype RawRegion = RawRegion(id: Option<string>, text: string, bbox: BBox)

  /** The id given to the record at `index` when it carries none. */
  function DefaultRegionId(index: nat): string {
    "region-" + NatToString(index + 1)
  }

  /** `region.id || 'region-<index+1>'`: a non-empty given id wins, otherwise the positional default. */
  function RegionId(raw: RawRegion, index: nat): (id: string)
    ensures raw.id.Some? && raw.id.value != "" ==> id == raw.id.value
    ensures raw.id.None? || raw.id.value == "" ==> id == DefaultRegionId(index)
  {
    if raw.id.Some? && raw.id.value != "" then raw.id.value else DefaultRegionId(index)
  }

  /**
   * The element-wise mapping of parsed records to regions: same length and
   * order, each region's original and translated text equal to the record's text.
   */
  function ToRegions(raws: seq<RawRegion>): (rs: seq<TextRegion>)
    ensures |rs| == |raws|
    ensures forall i :: 0 <= i < |raws| ==>
      && rs[i].id == RegionId(raws[i], i)
      && rs[i].bbox == raws[i].bbox
      && rs[i].original == raws[i].text
      && rs[i].translated == raws[i].text
      && rs[i].status.None?
  {
    seq(|raws|, i requires 0 <= i < |raws| =>
      TextRegion(RegionId(raws[i], i), raws[i].bbox, raws[i].text, raws[i].text, None))
  }

  /** Freshly extracted regions carry no modification, so nothing of them would be rendered. */
  lemma ToRegionsUnmodified(raws: seq<RawRegion>)
    ensures forall i :: 0 <= i < |raws| ==> !IsModified(ToRegions(raws)[i])
    ensures RenderedRegions(ToRegions(raws)) == []
  {
    var rs := ToRegions(raws);
    assert forall i :: 0 <= i < |rs| ==> !ShouldRender(rs[i]);
    Seqs.FilterNone(rs, ShouldRender);
  }

  /** When the model supplies no ids, the positional ids are pairwise distinct. */
  lemma DefaultIdsDistinct(raws: seq<RawRegion>)
    requires forall i :: 0 <= i < |raws| ==> raws[i].id.None?
    ensures forall i, j :: 0 <= i < j < |raws| ==> ToRegions(raws)[i].id != ToRegions(raws)[j].id
  {
    forall i, j | 0 <= i < j < |raws|
      ensures ToRegions(raws)[i].id != ToRegions(raws)[j].id
    {
      var a, b := NatToString(i + 1), NatToString(j + 1);
      if "region-" + a == "region-" + b {
        assert a == ("region-" + a)[7..] == ("region-" + b)[7..] == b;
        NatToStringInjective(i + 1, j + 1);
      }
    }
  }

  /** A supplied id can coincide with a positional one: ids are not guaranteed unique. */
  lemma SuppliedIdCanCollide()
    ensures var rs := ToRegions([RawRegion(Some("region-2"), "a", BBox(0.0, 0.0, 1.0, 1.0)),
                                 RawRegion(None, "b", BBox(0.0, 0.0, 1.0, 1.0))]);
      rs[0].id == rs[1].id
  {
    assert NatToString(2) == "2";
  }

  /**
   * extractTextFromImage: the reply (or the thrown error of reading the file
   * or calling the model) is stripped of fences, parsed and mapped. Any
   * failure surfaces as the single extraction error.
   */
  function ExtractTextFromImage(reply: Result<string>, parse: string -> Option<seq<RawRegion>>)
    : (r: Result<seq<TextRegion>>)
    ensures r.Failure? ==> r.error == ExtractError
    ensures r.Success? <==> reply.Success? && parse(StripFences(reply.value)).Some?
    ensures r.Success? ==> |r.value| == |parse(StripFences(reply.value)).value|
    ensures r.Success? ==> r.value == ToRegions(parse(StripFences(reply.value)).value)
  {
    if reply.Failure? then Failure(ExtractError)
    else
      match parse(StripFences(reply.value))
      case None => Failure(ExtractError)
      case Some(raws) => Success(ToRegions(raws))
  }

  /** The numbered lines `1. text` of the translation prompt, joined by newlines. */
  function NumberedLines(texts: seq<string>, first: nat): string
    decreases |texts|
  {
    if |texts| == 0 then ""
    else
      var line := NatToString(first) + ". " + texts[0];
      if |texts| == 1 then line else line + "\n" + NumberedLines(texts[1..], first + 1)
  }

  function TranslationPrompt(texts: seq<string>, targetLanguage: string): string {
    "Translate to " + targetLanguage + ":\n" + NumberedLines(texts, 1) + "\n\nReturn JSON array of translations."
  }

  /**
   * translateTexts: the model's reply to the prompt, stripped of fences and
   * parsed, is returned as it is; any failure surfaces as the single
   * translation error. The length of the result is not compared with the input.
   */
  function TranslateTexts(texts: seq<string>, targetLanguage: string,
                          model: string -> Result<string>, parse: string -> Option<seq<string>>)
    : (r: Result<seq<string>>)
    ensures r.Failure? ==> r.error == TranslateError
    ensures var reply := model(TranslationPrompt(texts, targetLanguage));
      r.Success? <==> reply.Success? && parse(StripFences(reply.value)).Some?
    ensures var reply := model(TranslationPrompt(texts, targetLanguage));
      r.Success? ==> r.value == parse(StripFences(reply.value)).value
  {
    var reply := model(TranslationPrompt(texts, targetLanguage));
    if reply.Failure? then Failure(TranslateError)
    else
      match parse(StripFences(reply.value))
      case None => Failure(TranslateError)
      case Some(ts) => Success(ts)
  }

  /** A reply with fewer translations than texts is accepted as a success. */
  lemma TranslationLengthUnchecked(texts: seq<string>, targetLanguage: string)
    requires |texts| > 0
    ensures var r := TranslateTexts(texts, targetLanguage, _ => Success("[]"), _ => Some([]));
      r.Success? && |r.value| != |texts|
  {
  }

  /** Math.max(12, Math.floor(boxHeight * 0.7)): 12 for boxes under 18 px, otherwise 0.7 of the height rounded down. */
  function FontSize(boxHeight: int): (size: int)
    ensures size >= 12
    ensures boxHeight < 18 ==> size == 12
    ensures boxHeight >= 18 ==> size as real <= 0.7 * boxHeight as real < size as real + 1.0
  {
    var f := (0.7 * boxHeight as real).Floor;
    if f > 12 then f else 12
  }

  /** One `<rect>` plus `<text>` pair of the SVG overlay. */
  datatype TextOverlay = TextOverlay(rect: PixelRect, textX: int, textY: int, fontSize: int, text: string)

  /** The SVG composited over the image: its size and its overlays in order. */
  datatype SvgPlan = SvgPlan(width: nat, height: nat, overlays: seq<TextOverlay>)

  /** The overlay for one region: white box over the bbox, text anchored 5 px inside its lower-left corner. */
  function Overlay(region: TextRegion, width: nat, height: nat): (o: TextOverlay)
    ensures o.rect == ToPixels(region.bbox, width, height)
    ensures o.textX == o.rect.x + 5 && o.textY == o.rect.y + o.rect.h - 5
    ensures o.fontSize >= 12
    ensures XmlEscape.Unescape(o.text) == region.translated
  {
    var p := ToPixels(region.bbox, width, height);
    TextOverlay(p, p.x + 5, p.y + p.h - 5, FontSize(p.h), XmlEscape.EscapeXml(region.translated))
  }

  /** The overlays of the regions to draw, one per region, in list order. */
  function Overlays(kept: seq<TextRegion>, width: nat, height: nat): (os: seq<TextOverlay>)
    ensures |os| == |kept|
    ensures forall i :: 0 <= i < |kept| ==> os[i] == Overlay(kept[i], width, height)
  {
    seq(|kept|, i requires 0 <= i < |kept| => Overlay(kept[i], width, height))
  }

  /**
   * renderTranslatedImage of the basic client. `image` is the file read,
   * `metadata` the library's report, `composite` the library's overlay
   * step. With nothing to draw the original bytes come back unchanged.
   */
  function RenderTranslatedImage(image: Result<Bytes>, regions: seq<TextRegion>, metadata: Result<Metadata>,
                                 composite: (Bytes, SvgPlan) -> Result<Bytes>): (r: Result<Bytes>)
    ensures image.Failure? ==> r == Failure(RenderErrorPrefix + image.error)
    ensures image.Success? && RenderedRegions(regions) == [] ==> r == Success(image.value)
    ensures r.Failure? ==> StartsWith(r.error, RenderErrorPrefix)
    ensures image.Success? && RenderedRegions(regions) != [] && metadata.Failure? ==>
      r == Failure(RenderErrorPrefix + metadata.error)
    ensures image.Success? && RenderedRegions(regions) != [] && metadata.Success? ==>
      var w := DimensionOrDefault(metadata.value.width);
      var h := DimensionOrDefault(metadata.value.height);
      var plan := SvgPlan(w, h, Overlays(RenderedRegions(regions), w, h));
      (r.Success? <==> composite(image.value, plan).Success?)
      && (r.Success? ==> r.value == composite(image.value, plan).value)
  {
    if image.Failure? then Failure(RenderErrorPrefix + image.error)
    else
      var kept := RenderedRegions(regions);
      if kept == [] then Success(image.value)
      else if metadata.Failure? then Failure(RenderErrorPrefix + metadata.error)
      else
        var w := DimensionOrDefault(metadata.value.width);
        var h := DimensionOrDefault(metadata.value.height);
        match composite(image.value, SvgPlan(w, h, Overlays(kept, w, h)))
        case Success(out) => Success(out)
        case Failure(e) => Failure(RenderErrorPrefix + e)
  }

  /** `getMimeType`: the MIME type for a path, by its lower-cased extension, JPEG when unknown. */
  function MimeType(path: string): (m: string)
    ensures var ext := ToLower(PathExt.ExtName(path));
      && (ext == ".jpg" || ext == ".jpeg" ==> m == "image/jpeg")
      && (ext == ".png" ==> m == "image/png")
      && (ext == ".gif" ==> m == "image/gif")
      && (ext == ".webp" ==> m == "image/webp")
      && (ext !in {".jpg", ".jpeg", ".png", ".gif", ".webp"} ==> m == "image/jpeg")
  {
    var table := map[".jpg" := "image/jpeg", ".jpeg" := "image/jpeg", ".png" := "image/png",
                     ".gif" := "image/gif", ".webp" := "image/webp"];
    var ext := ToLower(PathExt.ExtName(path));
    if ext in table then table[ext] else "image/jpeg"
  }

  /** The type does not depend on the case of the extension: `scan.PNG` is sent as `scan.png` would be. */
  lemma MimeTypeIgnoresCase(stem: string, e: string)
    requires |stem| > 0 && stem[0] != '.'
    requires forall k :: 0 <= k < |stem| ==> stem[k] != '/'
    requires forall k :: 0 <= k < |e| ==> e[k] != '/' && e[k] != '.'
    ensures MimeType(stem + "." + e) == MimeType(stem + "." + ToLower(e))
  {
    var le := ToLower(e);
    PathExt.ExtNameOfName("", stem, e);
    PathExt.ExtNameOfName("", stem, le);
    assert "" + stem + "." + e == stem + "." + e;
    assert "" + stem + "." + le == stem + "." + le;
    assert ToLower("." + e) == "." + le;
    assert ToLower("." + le) == "." + le;
  }

  /** An upper-case PNG extension is still sent as PNG. */
  lemma MimeTypeUpperCasePng()
    ensures MimeType("scan.PNG") == "image/png"
  {
    MimeTypeIgnoresCase("scan", "PNG");
    assert "scan" + "." + "PNG" == "scan.PNG";
    assert ToLower("PNG") == "png";
    assert "scan" + "." + "png" == "scan.png";
    MimeTypeOfPng();
  }

  /** A lower-case PNG extension is sent as PNG. */
  lemma MimeTypeOfPng()
    ensures MimeType("scan.png") == "image/png"
  {
    PathExt.ExtNameOfName("", "scan", "png");
    assert "" + "scan" + "." + "png" == "scan.png";
    ToLowerOfLower(".png");
  }
}
