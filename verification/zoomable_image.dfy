/**
 * The zoomable image viewer: a scale in [1, 5] changed by the buttons, the
 * wheel and a double click, and an offset that dragging moves and that is
 * clamped so the scaled image stays over the container. The browser's
 * measurements (the container's box, the image's natural size) are
 * parameters; either may be missing before layout.
 */
module ZoomableImage {
  import opened Wrappers
  import Geometry

  const MaxZoom: real := 5.0
  const ZoomStep: real := 0.2
  /** Scale change per wheel unit: `-deltaY * 0.01`. */
  const WheelFactor: real := 0.01

  datatype Point = Point(x: real, y: real)
  datatype Size = Size(width: real, height: real)

  const Origin: Point := Point(0.0, 0.0)

  /** The measurements `constrainPosition` reads: the container's box and the image's natural size. */
  datatype Layout = Layout(container: Option<Size>, image: Option<Size>)

  function Min(a: real, b: real): real { if a <= b then a else b }
  function Max(a: real, b: real): real { if a >= b then a else b }

  /** `Math.min(Math.max(v, lo), hi)`. */
  function ClampTo(v: real, lo: real, hi: real): (r: real)
    ensures lo <= hi ==> lo <= r <= hi
    ensures lo <= v <= hi ==> r == v
    ensures r <= hi
  {
    Min(Max(v, lo), hi)
  }

  /**
   * Which lower bound the clamp uses on an overflowing axis: as written the
   * gap (container − scaled) is multiplied by the scale once more; as
   * intended (the right or bottom edge at the container's edge) it is not.
   */
  datatype Bounds = AsWritten | Intended

  function LowerBound(b: Bounds, containerLength: real, scaledLength: real, scale: real): real {
    match b
    case AsWritten => (containerLength - scaledLength) * scale
    case Intended => containerLength - scaledLength
  }

  /**
   * `constrainPosition`: the offset unchanged without measurements; the
   * origin when the scaled image fits on both axes; otherwise each axis on
   * which the scaled image overflows is clamped into [lower bound, 0] and
   * an axis that fits keeps its value.
   */
  function ConstrainPosition(b: Bounds, p: Point, scale: real, l: Layout): (r: Point)
    ensures l.container.None? || l.image.None? ==> r == p
    ensures l.container.Some? && l.image.Some? ==>
      var c := l.container.value;
      var sw := l.image.value.width * scale;
      var sh := l.image.value.height * scale;
      (sw <= c.width && sh <= c.height ==> r == Origin)
      && (sw > c.width ==> r.x == ClampTo(p.x, LowerBound(b, c.width, sw, scale), 0.0))
      && (sw <= c.width && sh > c.height ==> r.x == p.x)
      && (sh > c.height ==> r.y == ClampTo(p.y, LowerBound(b, c.height, sh, scale), 0.0))
      && (sh <= c.height && sw > c.width ==> r.y == p.y)
  {
    if l.container.None? || l.image.None? then p
    else
      var c := l.container.value;
      var sw := l.image.value.width * scale;
      var sh := l.image.value.height * scale;
      if sw <= c.width && sh <= c.height then Origin
      else
        Point(if sw > c.width then ClampTo(p.x, LowerBound(b, c.width, sw, scale), 0.0) else p.x,
              if sh > c.height then ClampTo(p.y, LowerBound(b, c.height, sh, scale), 0.0) else p.y)
  }

  /**
   * Corrected: on an overflowing axis the image's near edge stays at or
   * before the container's and its far edge at or after the container's,
   * so the container is always covered.
   */
  lemma IntendedKeepsContainerCovered(p: Point, scale: real, c: Size, image: Size)
    requires image.width * scale > c.width && image.height * scale > c.height
    ensures var r := ConstrainPosition(Intended, p, scale, Layout(Some(c), Some(image)));
      r.x <= 0.0 && r.x + image.width * scale >= c.width
      && r.y <= 0.0 && r.y + image.height * scale >= c.height
  {
  }

  /**
   * As written: a 100-pixel image in a 100-pixel container at scale 2 may
   * be dragged to x = −200, where its right edge sits at the container's
   * left edge and the container shows none of it.
   */
  lemma AsWrittenPushesImageOut()
    ensures var r := ConstrainPosition(AsWritten, Point(-200.0, 0.0), 2.0, Layout(Some(Size(100.0, 100.0)), Some(Size(100.0, 100.0))));
      r.x == -200.0 && r.x + 100.0 * 2.0 <= 0.0
  {
  }

  /** The two bounds agree only at scale 1; above it the written bound lets the image leave the container. */
  lemma AsWrittenBoundIsLower(containerLength: real, scaledLength: real, scale: real)
    requires scaledLength > containerLength && scale > 1.0
    ensures LowerBound(AsWritten, containerLength, scaledLength, scale) < LowerBound(Intended, containerLength, scaledLength, scale)
  {
    var g := containerLength - scaledLength;
    var e := scale - 1.0;
    assert g * scale == g + g * e;
    assert -g > 0.0 && e > 0.0;
    assert (-g) * e > 0.0;
    assert g * e == -((-g) * e);
    assert LowerBound(AsWritten, containerLength, scaledLength, scale) == g * scale;
  }

  /** The viewer's state. */
  datatype Viewer = Viewer(scale: real, position: Point, isDragging: bool, dragStart: Point)

  const Initial: Viewer := Viewer(1.0, Origin, false, Origin)

  /** What every reachable state satisfies: the scale within [1, 5], and at scale 1 the image at the origin. */
  predicate Invariant(v: Viewer) {
    1.0 <= v.scale <= MaxZoom && (v.scale == 1.0 ==> v.position == Origin)
  }

  /** The effect on `scale`: whenever the scale has become 1 the offset goes back to the origin. */
  function Settle(v: Viewer): (r: Viewer)
    ensures r.scale == v.scale && r.isDragging == v.isDragging && r.dragStart == v.dragStart
    ensures r.scale == 1.0 ==> r.position == Origin
    ensures r.scale != 1.0 ==> r.position == v.position
  {
    if v.scale == 1.0 then v.(position := Origin) else v
  }

  /** A scale change: when the scale differs, the new scale with the clamped offset, then the effect. */
  function Rescale(v: Viewer, newScale: real, target: Point, b: Bounds, l: Layout): (r: Viewer)
    ensures newScale == v.scale ==> r == v
    ensures newScale != v.scale ==> r.scale == newScale && r.isDragging == v.isDragging
  {
    if newScale == v.scale then v
    else Settle(v.(scale := newScale, position := ConstrainPosition(b, target, newScale, l)))
  }

  /** The plus button. */
  function ZoomIn(v: Viewer, b: Bounds, l: Layout): (r: Viewer)
    requires Invariant(v)
    ensures Invariant(r)
    ensures v.scale == MaxZoom ==> r == v
    ensures v.scale < MaxZoom ==> r.scale == Min(v.scale + ZoomStep, MaxZoom) && r.scale > v.scale
  {
    Rescale(v, Min(v.scale + ZoomStep, MaxZoom), v.position, b, l)
  }

  /** The minus button. */
  function ZoomOut(v: Viewer, b: Bounds, l: Layout): (r: Viewer)
    requires Invariant(v)
    ensures Invariant(r)
    ensures v.scale == 1.0 ==> r == v
    ensures v.scale > 1.0 ==> r.scale == Max(v.scale - ZoomStep, 1.0) && r.scale < v.scale
  {
    Rescale(v, Max(v.scale - ZoomStep, 1.0), v.position, b, l)
  }

  /** Double click: back to scale 1 at the origin. */
  function ResetZoom(v: Viewer): (r: Viewer)
    ensures r.scale == 1.0 && r.position == Origin
    ensures r.isDragging == v.isDragging && r.dragStart == v.dragStart
  {
    v.(scale := 1.0, position := Origin)
  }

  /**
   * A wheel event with vertical delta `deltaY`: the scale moves by
   * `-deltaY * 0.01` within [1, 5], and the offset is rescaled about the
   * container's centre before it is clamped. Without a container no
   * listener is attached.
   */
  function Wheel(v: Viewer, deltaY: real, b: Bounds, l: Layout): (r: Viewer)
    requires Invariant(v)
    ensures Invariant(r)
    ensures l.container.None? ==> r == v
    ensures l.container.Some? ==> r.scale == ClampTo(v.scale - deltaY * WheelFactor, 1.0, MaxZoom)
  {
    if l.container.None? then v
    else
      var newScale := ClampTo(v.scale - deltaY * WheelFactor, 1.0, MaxZoom);
      var c := l.container.value;
      var ratio := newScale / v.scale;
      var cx := c.width / 2.0;
      var cy := c.height / 2.0;
      Rescale(v, newScale, Point(cx - (cx - v.position.x) * ratio, cy - (cy - v.position.y) * ratio), b, l)
  }

  /** Mouse down: a drag starts only with the left button (0) while zoomed in. */
  function MouseDown(v: Viewer, button: int, at: Point): (r: Viewer)
    ensures button == 0 && v.scale > 1.0 ==>
      r == v.(isDragging := true, dragStart := Point(at.x - v.position.x, at.y - v.position.y))
    ensures !(button == 0 && v.scale > 1.0) ==> r == v
  {
    if button == 0 && v.scale > 1.0 then
      v.(isDragging := true, dragStart := Point(at.x - v.position.x, at.y - v.position.y))
    else v
  }

  /** Mouse move: while dragging and zoomed in, the offset follows the pointer, clamped. */
  function MouseMove(v: Viewer, at: Point, b: Bounds, l: Layout): (r: Viewer)
    ensures v.isDragging && v.scale > 1.0 ==>
      r == v.(position := ConstrainPosition(b, Point(at.x - v.dragStart.x, at.y - v.dragStart.y), v.scale, l))
    ensures !(v.isDragging && v.scale > 1.0) ==> r == v
  {
    if v.isDragging && v.scale > 1.0 then
      v.(position := ConstrainPosition(b, Point(at.x - v.dragStart.x, at.y - v.dragStart.y), v.scale, l))
    else v
  }

  /** Mouse up or leaving the container ends a drag. */
  function MouseUp(v: Viewer): (r: Viewer)
    ensures !r.isDragging && r.scale == v.scale && r.position == v.position
  {
    v.(isDragging := false)
  }

  /** The percentage shown between the buttons. */
  function ZoomLabel(v: Viewer): (percent: int)
    requires Invariant(v)
    ensures 100 <= percent <= 500
  {
    Geometry.JsRound(v.scale * 100.0)
  }

  /** A drag never starts unzoomed or with another button. */
  lemma DragNeedsLeftButtonAndZoom(v: Viewer, button: int, at: Point)
    requires !v.isDragging
    ensures MouseDown(v, button, at).isDragging ==> button == 0 && v.scale > 1.0
  {
  }

  /** Without measurements the image follows the pointer exactly: a move by (dx, dy) moves the image by (dx, dy). */
  lemma DragFollowsPointer(v: Viewer, from: Point, to: Point, b: Bounds)
    requires v.scale > 1.0
    ensures var w := MouseMove(MouseDown(v, 0, from), to, b, Layout(None, None));
      w.position == Point(v.position.x + (to.x - from.x), v.position.y + (to.y - from.y))
  {
  }

  /** The user's actions on the viewer. */
  datatype Action = In | Out | Reset | Scroll(deltaY: real) | Down(button: int, at: Point) | Move(at: Point) | Up

  function Step(v: Viewer, a: Action, b: Bounds, l: Layout): (r: Viewer)
    requires Invariant(v)
    ensures Invariant(r)
  {
    match a
    case In => ZoomIn(v, b, l)
    case Out => ZoomOut(v, b, l)
    case Reset => ResetZoom(v)
    case Scroll(d) => Wheel(v, d, b, l)
    case Down(button, at) => MouseDown(v, button, at)
    case Move(at) => MouseMove(v, at, b, l)
    case Up => MouseUp(v)
  }

  /** The viewer after a sequence of actions, each measured against its own layout. */
  function Run(v: Viewer, actions: seq<(Action, Layout)>, b: Bounds): (r: Viewer)
    requires Invariant(v)
    decreases |actions|
  {
    if |actions| == 0 then v
    else Run(Step(v, actions[0].0, b, actions[0].1), actions[1..], b)
  }

  /** From the initial state, any sequence of actions keeps the scale in [1, 5] and the image at the origin at scale 1. */
  lemma {:induction false} RunKeepsInvariant(v: Viewer, actions: seq<(Action, Layout)>, b: Bounds)
    requires Invariant(v)
    ensures Invariant(Run(v, actions, b))
    decreases |actions|
  {
    if |actions| > 0 {
      RunKeepsInvariant(Step(v, actions[0].0, b, actions[0].1), actions[1..], b);
    }
  }

  /** The initial state satisfies the invariant, so every reachable state does. */
  lemma InitialValid()
    ensures Invariant(Initial)
  {
  }

  /** Zooming out from 1.2 reaches scale 1 and brings a moved image back to the origin. */
  lemma ZoomOutToOneRecentres(position: Point, l: Layout)
    requires position != Origin
    ensures var v := Viewer(1.2, position, false, Origin);
      var w := ZoomOut(v, Intended, l);
      w.scale == 1.0 && w.position == Origin
  {
  }
}
