/**
 * The data model shared by client and server: a Page and its ordered
 * list of TextRegions.
 */
module Types {
  import opened Wrappers
  import Seqs

  /** A normalized bounding box (x1, y1, x2, y2): fractions of the image width and height. */
  datatype BBox = BBox(x1: real, y1: real, x2: real, y2: real)

  /** A box whose corners lie in the unit square with x1 <= x2 and y1 <= y2. */
  predicate WellFormed(b: BBox) {
    0.0 <= b.x1 <= b.x2 <= 1.0 && 0.0 <= b.y1 <= b.y2 <= 1.0
  }

  /** The declared region states. No operation of the program ever assigns one. */
  datatype RegionStatus = Active | Removed | Deleted

  /** A detected block of text with its source text and replacement text. */
  datatype TextRegion = TextRegion(
    id: string,
    bbox: BBox,
    original: string,
    translated: string,
    status: Option<RegionStatus>)

  /** One uploaded image with its regions; `renderedImageUrl` is set by a successful render. */
  datatype Page = Page(
    id: string,
    imageOriginalUrl: string,
    imagePreviewUrl: Option<string>,
    regions: seq<TextRegion>,
    renderedImageUrl: Option<string>,
    filename: string,
    uploadedAt: int)

  /** The region's replacement text differs from the extracted text. */
  predicate IsModified(r: TextRegion) {
    r.original != r.translated
  }

  /** The URL under which the server serves a page's image. */
  function ImageUrl(id: string): string {
    "/api/pages/" + id + "/image"
  }

  /** The ids of a region list, in list order. */
  function Ids(rs: seq<TextRegion>): (ids: seq<string>)
    ensures |ids| == |rs|
    ensures forall i :: 0 <= i < |rs| ==> ids[i] == rs[i].id
  {
    seq(|rs|, i requires 0 <= i < |rs| => rs[i].id)
  }

  /** Raw image bytes, as read from disk or returned by the image library. */
  newtype Byte = b: int | 0 <= b < 256
  type Bytes = seq<Byte>

  /** A region the renderers draw: its replacement text is non-empty and differs from the original. */
  predicate ShouldRender(r: TextRegion) {
    r.translated != "" && r.translated != r.original
  }

  /**
   * `regions.filter(r => r.translated && r.translated !== r.original)`: the
   * regions both renderers draw, in list order.
   */
  function RenderedRegions(regions: seq<TextRegion>): (kept: seq<TextRegion>)
    ensures |kept| <= |regions|
    ensures forall i :: 0 <= i < |kept| ==> kept[i] in regions && ShouldRender(kept[i])
    ensures forall i :: 0 <= i < |regions| && ShouldRender(regions[i]) ==> regions[i] in kept
    ensures forall r :: multiset(kept)[r] == if ShouldRender(r) then multiset(regions)[r] else 0
    ensures Seqs.SubSeq(kept, regions)
  {
    Seqs.FilterCount(regions, ShouldRender);
    Seqs.FilterIsSubSeq(regions, ShouldRender);
    Seqs.Filter(regions, ShouldRender)
  }
}
