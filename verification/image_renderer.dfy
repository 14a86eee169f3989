/**
 * The stand-alone renderer of the server: every region to draw becomes a
 * white cover layer and a text layer, both placed at the region's pixel
 * corner, composited over the image in region order.
 */
module ImageRenderer {
  import opened Wrappers
  import opened Types
  import opened Geometry
  import XmlEscape
  import GeminiClient

  /** The single message every failure of this renderer is rethrown as. */
  const RenderError: string := "Failed to render image with translations"

  /** Math.max(12, Math.round(boxHeight * 0.6)): 12 up to 20 px, otherwise 0.6 of the height to the nearest pixel. */
  function FontSize(boxHeight: int): (size: int)
    ensures size >= 12
    ensures boxHeight <= 20 ==> size == 12
    ensures boxHeight > 20 ==> 0.6 * boxHeight as real - 0.5 < size as real <= 0.6 * boxHeight as real + 0.5
  {
    var f := JsRound(boxHeight as real * 0.6);
    if f > 12 then f else 12
  }

  /** One SVG input of the composite: a box-sized white cover, or the escaped text centred in the box. */
  datatype Layer =
    | Cover(width: int, height: int)
    | Label(width: int, height: int, fontSize: int, text: string)

  /** A layer with the pixel position the composite places it at. */
  datatype Placed = Placed(layer: Layer, left: int, top: int)

  /** The two layers of one region: the cover first, then the text, both at the region's corner. */
  function RegionLayers(region: TextRegion, width: nat, height: nat): (ls: seq<Placed>)
    ensures |ls| == 2
    ensures var p := ToPixels(region.bbox, width, height);
      && ls[0] == Placed(Cover(p.w, p.h), p.x, p.y)
      && ls[1].left == p.x && ls[1].top == p.y
      && ls[1].layer.Label? && ls[1].layer.width == p.w && ls[1].layer.height == p.h
      && ls[1].layer.fontSize >= 12
      && XmlEscape.Unescape(ls[1].layer.text) == region.translated
  {
    var p := ToPixels(region.bbox, width, height);
    [Placed(Cover(p.w, p.h), p.x, p.y),
     Placed(Label(p.w, p.h, FontSize(p.h), XmlEscape.EscapeXml(region.translated)), p.x, p.y)]
  }

  /** `.map(...).flat()`: the layers of every region, two per region. */
  function Layers(kept: seq<TextRegion>, width: nat, height: nat): (ls: seq<Placed>)
    ensures |ls| == 2 * |kept|
  {
    if |kept| == 0 then [] else RegionLayers(kept[0], width, height) + Layers(kept[1..], width, height)
  }

  /** The layers at positions 2i and 2i+1 are the cover and the text of the i-th region: region order is kept. */
  lemma {:induction false} LayersAt(kept: seq<TextRegion>, width: nat, height: nat, i: nat)
    requires i < |kept|
    ensures Layers(kept, width, height)[2 * i] == RegionLayers(kept[i], width, height)[0]
    ensures Layers(kept, width, height)[2 * i + 1] == RegionLayers(kept[i], width, height)[1]
  {
    if i > 0 {
      LayersAt(kept[1..], width, height, i - 1);
      assert kept[1..][i - 1] == kept[i];
    }
  }

  /** Flattening distributes over concatenation of region lists. */
  lemma {:induction false} LayersAppend(a: seq<TextRegion>, b: seq<TextRegion>, width: nat, height: nat)
    ensures Layers(a + b, width, height) == Layers(a, width, height) + Layers(b, width, height)
  {
    if |a| == 0 {
      assert a + b == b;
    } else {
      assert (a + b)[1..] == a[1..] + b;
      LayersAppend(a[1..], b, width, height);
    }
  }

  /**
   * renderWithTranslations. `image` is the file read, `metadata` the
   * library's report and `composite` the library's overlay step. Missing
   * or zero dimensions fail; every failure becomes the single render
   * error. There is no early return: with nothing to draw the image is
   * still passed through the composite with no layers.
   */
  function RenderWithTranslations(image: Result<Bytes>, regions: seq<TextRegion>, metadata: Result<Metadata>,
                                  composite: (Bytes, seq<Placed>) -> Result<Bytes>): (r: Result<Bytes>)
    ensures r.Failure? ==> r.error == RenderError
    ensures image.Failure? || metadata.Failure? ==> r.Failure?
    ensures metadata.Success? && (metadata.value.width.GetOr(0) == 0 || metadata.value.height.GetOr(0) == 0)
      ==> r.Failure?
    ensures image.Success? && metadata.Success?
      && metadata.value.width.GetOr(0) > 0 && metadata.value.height.GetOr(0) > 0
      ==> var ls := Layers(RenderedRegions(regions), metadata.value.width.value, metadata.value.height.value);
      (r.Success? <==> composite(image.value, ls).Success?)
      && (r.Success? ==> r.value == composite(image.value, ls).value)
  {
    if image.Failure? || metadata.Failure? then Failure(RenderError)
    else
      var md := metadata.value;
      if md.width.GetOr(0) == 0 || md.height.GetOr(0) == 0 then Failure(RenderError)
      else
        var ls := Layers(RenderedRegions(regions), md.width.value, md.height.value);
        match composite(image.value, ls)
        case Success(out) => Success(out)
        case Failure(_) => Failure(RenderError)
  }

  /** With no region to draw the composite still runs, with an empty layer list. */
  lemma NothingToDrawStillComposites(image: Bytes, regions: seq<TextRegion>, width: nat, height: nat,
                                     composite: (Bytes, seq<Placed>) -> Result<Bytes>)
    requires RenderedRegions(regions) == []
    requires width > 0 && height > 0
    ensures var r := RenderWithTranslations(Success(image), regions,
                                            Success(Metadata(Some(width), Some(height))), composite);
      r.Success? <==> composite(image, []).Success?
  {
    assert Layers([], width, height) == [];
  }

  /**
   * Both renderers draw the same pixel boxes: the cover layer of the i-th
   * kept region sits where the basic client's i-th overlay rectangle does.
   */
  lemma SamePixelBoxes(kept: seq<TextRegion>, width: nat, height: nat, i: nat)
    requires i < |kept|
    ensures var c := Layers(kept, width, height)[2 * i];
      var o := GeminiClient.Overlays(kept, width, height)[i];
      c.left == o.rect.x && c.top == o.rect.y && c.layer.width == o.rect.w && c.layer.height == o.rect.h
  {
    LayersAt(kept, width, height, i);
  }
}
