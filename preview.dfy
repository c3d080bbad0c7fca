/** The canvas preview: mapping the pointer into image coordinates, picking
    a crop handle, dragging and resizing the crop rectangle, and the zoom
    controls. */
module Preview {
  import opened Options
  import opened Bytes
  import opened Geometry

  datatype Point = Point(x: real, y: real)

  function Abs(v: real): real { if v < 0.0 then -v else v }

  /** `Math.max(0, Math.min(hi, v))`. */
  function ClampTo(v: real, hi: real): (r: real)
    requires hi >= 0.0
    ensures 0.0 <= r <= hi
    ensures 0.0 <= v <= hi ==> r == v
  {
    Max(0.0, Min(hi, v))
  }

  /** `screenToImageCoords`: pointer position relative to the canvas, in
      image pixels, clamped into the canvas; before the canvas and its
      container are mounted the answer is the origin. */
  function ScreenToImage(mounted: bool, screen: Point, canvasLeft: real, canvasTop: real,
                         scale: real, canvasWidth: nat, canvasHeight: nat): (p: Point)
    requires scale != 0.0
    ensures 0.0 <= p.x <= canvasWidth as real && 0.0 <= p.y <= canvasHeight as real
    ensures mounted && 0.0 <= (screen.x - canvasLeft) / scale <= canvasWidth as real ==>
      p.x == (screen.x - canvasLeft) / scale
    ensures mounted && 0.0 <= (screen.y - canvasTop) / scale <= canvasHeight as real ==>
      p.y == (screen.y - canvasTop) / scale
  {
    if !mounted then Point(0.0, 0.0)
    else Point(ClampTo((screen.x - canvasLeft) / scale, canvasWidth as real),
               ClampTo((screen.y - canvasTop) / scale, canvasHeight as real))
  }

  // ---------------------------------------------------------------------
  // Pressing the mouse in crop mode
  // ---------------------------------------------------------------------

  datatype Corner = SE | NE | SW | NW

  /** What a press starts: resizing from a corner handle, dragging the
      rectangle with the pointer's offset inside it, or a new rectangle at
      the pointer that then grows from its south-east corner. */
  datatype Press = Resize(corner: Corner) | Drag(offset: Point) | Fresh(area: CropArea)

  predicate Near(a: real, b: real, handle: real) { Abs(a - b) < handle }

  /** Whether the pointer is on the handle at `corner`. */
  predicate OnHandle(c: Point, a: CropArea, corner: Corner, handle: real)
  {
    match corner
    case SE => Near(c.x, a.x + a.width, handle) && Near(c.y, a.y + a.height, handle)
    case NE => Near(c.x, a.x + a.width, handle) && Near(c.y, a.y, handle)
    case SW => Near(c.x, a.x, handle) && Near(c.y, a.y + a.height, handle)
    case NW => Near(c.x, a.x, handle) && Near(c.y, a.y, handle)
  }

  predicate Inside(c: Point, a: CropArea)
  {
    a.x <= c.x <= a.x + a.width && a.y <= c.y <= a.y + a.height
  }

  predicate OnAnyHandle(c: Point, a: CropArea, handle: real)
  {
    OnHandle(c, a, SE, handle) || OnHandle(c, a, NE, handle) || OnHandle(c, a, SW, handle) || OnHandle(c, a, NW, handle)
  }

  /** Handles are `10 / scale` image pixels wide, that is ten screen pixels. */
  function HandleSize(scale: real): real
    requires scale != 0.0
  {
    10.0 / scale
  }

  /** `handleMouseDown`. */
  function HitTest(c: Point, a: CropArea, scale: real): (p: Press)
    requires scale != 0.0
  {
    var handle := HandleSize(scale);
    if OnHandle(c, a, SE, handle) then Resize(SE)
    else if OnHandle(c, a, NE, handle) then Resize(NE)
    else if OnHandle(c, a, SW, handle) then Resize(SW)
    else if OnHandle(c, a, NW, handle) then Resize(NW)
    else if Inside(c, a) then Drag(Point(c.x - a.x, c.y - a.y))
    else Fresh(CropArea(c.x, c.y, 0.0, 0.0))
  }

  /** The handles are tried in the order se, ne, sw, nw: a press picks a
      handle exactly when the pointer is on it and on none tried before it.
      It drags exactly when it is on no handle but inside, remembering the
      pointer's offset from the corner; otherwise it starts an empty
      rectangle at the pointer. */
  lemma HitTestSpec(c: Point, a: CropArea, scale: real)
    requires scale != 0.0
    ensures var p, h := HitTest(c, a, scale), HandleSize(scale);
      (p == Resize(SE) <==> OnHandle(c, a, SE, h))
      && (p == Resize(NE) <==> !OnHandle(c, a, SE, h) && OnHandle(c, a, NE, h))
      && (p == Resize(SW) <==> !OnHandle(c, a, SE, h) && !OnHandle(c, a, NE, h) && OnHandle(c, a, SW, h))
      && (p == Resize(NW) <==> !OnHandle(c, a, SE, h) && !OnHandle(c, a, NE, h) && !OnHandle(c, a, SW, h)
                               && OnHandle(c, a, NW, h))
      && (p.Drag? <==> !OnAnyHandle(c, a, h) && Inside(c, a))
      && (p.Drag? ==> p.offset.x + a.x == c.x && p.offset.y + a.y == c.y)
      && (p.Fresh? <==> !OnAnyHandle(c, a, h) && !Inside(c, a))
      && (p.Fresh? ==> p.area == CropArea(c.x, c.y, 0.0, 0.0))
  {
  }

  /** The pointer state the preview keeps between events: the corner being
      resized (`resizing`), whether the rectangle is being dragged
      (`isDragging`) and the grab offset (`dragStart`). */
  datatype Gesture = Gesture(resizing: Option<Corner>, dragging: bool, grab: Point)

  /** `handleMouseDown`: nothing happens outside crop mode or without a
      picture (`None`); otherwise the press as `HitTest` classifies it
      gives the next gesture and crop rectangle. A handle starts resizing
      from it, a press inside starts a drag, and any other press puts an
      empty rectangle at the pointer and resizes it from its south-east
      corner. */
  function MouseDown(cropMode: bool, hasImage: bool, g: Gesture, c: Point, a: CropArea, scale: real)
    : (r: Option<(Gesture, CropArea)>)
    requires scale != 0.0
    ensures r.Some? <==> cropMode && hasImage
    ensures r.Some? ==> r.value.1 == a || r.value.1 == CropArea(c.x, c.y, 0.0, 0.0)
  {
    if !cropMode || !hasImage then None
    else match HitTest(c, a, scale)
      case Resize(corner) => Some((g.(resizing := Some(corner)), a))
      case Drag(offset) => Some((g.(dragging := true, grab := offset), a))
      case Fresh(area) => Some((g.(resizing := Some(SE)), area))
  }

  /** `handleMouseUp`: the gesture ends; the crop rectangle stays. */
  function MouseUp(g: Gesture): (r: Gesture)
    ensures r.resizing.None? && !r.dragging && r.grab == g.grab
  {
    g.(dragging := false, resizing := None)
  }

  /** A press keeps the rectangle unless it starts a new one, and only a
      press inside it, off the handles, starts a drag. */
  lemma MouseDownSpec(g: Gesture, c: Point, a: CropArea, scale: real)
    requires scale != 0.0
    ensures var (g1, a1) := MouseDown(true, true, g, c, a, scale).value;
      var p := HitTest(c, a, scale);
      (p.Resize? ==> g1 == g.(resizing := Some(p.corner)) && a1 == a)
      && (p.Drag? ==>
            g1.dragging && g1.resizing == g.resizing && a1 == a
            && g1.grab.x + a.x == c.x && g1.grab.y + a.y == c.y)
      && (p.Fresh? ==> g1.resizing == Some(SE) && a1 == CropArea(c.x, c.y, 0.0, 0.0))
  {
    HitTestSpec(c, a, scale);
  }

  /** A press off the rectangle followed by a move: the move resizes the
      new empty rectangle from its south-east corner, so both its sides
      become at least 10 pixels long, measured from the press point. */
  lemma FreshPressThenMove(g: Gesture, c: Point, a: CropArea, scale: real, c2: Point,
                           imageWidth: nat, imageHeight: nat)
    requires scale != 0.0 && HitTest(c, a, scale).Fresh?
    ensures var (g1, a1) := MouseDown(true, true, g, c, a, scale).value;
      g1.resizing == Some(SE) &&
      var r := PushInside(CornerResize(g1.resizing.value, a1, c2), imageWidth, imageHeight);
      r.width >= MinSide && r.height >= MinSide
      && r.width == Max(MinSide, c2.x - c.x) && r.height == Max(MinSide, c2.y - c.y)
      && (0.0 <= c.x && c.x + r.width <= imageWidth as real ==> r.x == c.x)
      && (0.0 <= c.y && c.y + r.height <= imageHeight as real ==> r.y == c.y)
  {
    HitTestSpec(c, a, scale);
    var a1 := CropArea(c.x, c.y, 0.0, 0.0);
    CornerResizeSpec(SE, a1, c2);
    PushInsideSpec(CornerResize(SE, a1, c2), imageWidth, imageHeight);
  }

  /** A press off the rectangle released without a move: the gesture ends
      before anything resized the new rectangle, which keeps no area. */
  lemma ClickWithoutMove(g: Gesture, c: Point, a: CropArea, scale: real)
    requires scale != 0.0 && HitTest(c, a, scale).Fresh?
    ensures var (g1, a1) := MouseDown(true, true, g, c, a, scale).value;
      a1 == CropArea(c.x, c.y, 0.0, 0.0) && MouseUp(g1).resizing.None? && !MouseUp(g1).dragging
  {
    HitTestSpec(c, a, scale);
  }

  // ---------------------------------------------------------------------
  // Moving the mouse in crop mode
  // ---------------------------------------------------------------------

  const MinSide: real := 10.0

  /** The rectangle after dragging `corner` to `c`, before it is pushed back
      into the image. */
  function CornerResize(corner: Corner, a: CropArea, c: Point): CropArea
  {
    match corner
    case SE => a.(width := Max(MinSide, c.x - a.x), height := Max(MinSide, c.y - a.y))
    case NE =>
      var y := Min(c.y, a.y + a.height - MinSide);
      a.(y := y, height := (a.y + a.height) - y, width := Max(MinSide, c.x - a.x))
    case SW =>
      var x := Min(c.x, a.x + a.width - MinSide);
      a.(x := x, width := (a.x + a.width) - x, height := Max(MinSide, c.y - a.y))
    case NW =>
      var x := Min(c.x, a.x + a.width - MinSide);
      var y := Min(c.y, a.y + a.height - MinSide);
      a.(x := x, y := y, width := (a.x + a.width) - x, height := (a.y + a.height) - y)
  }

  /** Pushing the rectangle's corner back so that it starts inside the image
      and, when it fits, ends inside it too; the size is kept. */
  function PushInside(a: CropArea, imageWidth: nat, imageHeight: nat): CropArea
  {
    a.(x := Max(0.0, Min(imageWidth as real - a.width, a.x)),
       y := Max(0.0, Min(imageHeight as real - a.height, a.y)))
  }

  /** Dragging any corner leaves both sides at least 10 pixels long; the
      north and west handles move only their own edges, keeping the
      opposite ones where they were. */
  lemma CornerResizeSpec(corner: Corner, a: CropArea, c: Point)
    ensures var r := CornerResize(corner, a, c); r.width >= MinSide && r.height >= MinSide
    ensures var r := CornerResize(corner, a, c);
      (corner == NE || corner == NW ==> r.y + r.height == a.y + a.height)
      && (corner == SW || corner == NW ==> r.x + r.width == a.x + a.width)
      && (corner == SE || corner == NE ==> r.x == a.x && r.width == Max(MinSide, c.x - a.x))
      && (corner == SE || corner == SW ==> r.y == a.y && r.height == Max(MinSide, c.y - a.y))
  {
  }

  /** After pushing inside, the corner is in the image, the size is kept,
      and a rectangle no wider (taller) than the image ends inside it. */
  lemma PushInsideSpec(a: CropArea, imageWidth: nat, imageHeight: nat)
    ensures var r := PushInside(a, imageWidth, imageHeight);
      r.x >= 0.0 && r.y >= 0.0 && r.width == a.width && r.height == a.height
      && (a.width <= imageWidth as real ==> r.x + r.width <= imageWidth as real)
      && (a.height <= imageHeight as real ==> r.y + r.height <= imageHeight as real)
      && (0.0 <= a.x && a.x + a.width <= imageWidth as real ==> r.x == a.x)
      && (0.0 <= a.y && a.y + a.height <= imageHeight as real ==> r.y == a.y)
  {
  }

  /** The resize branch of `handleMouseMove`: the copied rectangle's fields
      are reassigned one by one as the handle dictates, then the corner is
      clamped into the image. */
  method ResizeStep(corner: Corner, a: CropArea, c: Point, imageWidth: nat, imageHeight: nat)
    returns (r: CropArea)
    ensures r == PushInside(CornerResize(corner, a, c), imageWidth, imageHeight)
    ensures r.width >= MinSide && r.height >= MinSide && r.x >= 0.0 && r.y >= 0.0
    ensures r.width <= imageWidth as real ==> r.x + r.width <= imageWidth as real
    ensures r.height <= imageHeight as real ==> r.y + r.height <= imageHeight as real
  {
    r := a;
    match corner {
      case SE =>
        r := r.(width := Max(MinSide, c.x - a.x));
        r := r.(height := Max(MinSide, c.y - a.y));
      case NE =>
        r := r.(y := Min(c.y, a.y + a.height - MinSide));
        r := r.(height := (a.y + a.height) - r.y);
        r := r.(width := Max(MinSide, c.x - a.x));
      case SW =>
        r := r.(x := Min(c.x, a.x + a.width - MinSide));
        r := r.(width := (a.x + a.width) - r.x);
        r := r.(height := Max(MinSide, c.y - a.y));
      case NW =>
        r := r.(x := Min(c.x, a.x + a.width - MinSide));
        r := r.(y := Min(c.y, a.y + a.height - MinSide));
        r := r.(width := (a.x + a.width) - r.x);
        r := r.(height := (a.y + a.height) - r.y);
    }
    CornerResizeSpec(corner, a, c);
    ghost var resized := r;
    r := r.(x := Max(0.0, Min(imageWidth as real - r.width, r.x)));
    r := r.(y := Max(0.0, Min(imageHeight as real - r.height, r.y)));
    PushInsideSpec(resized, imageWidth, imageHeight);
  }

  /** The drag branch: the rectangle follows the pointer, keeping the
      grab offset, with its corner clamped into the image. */
  function DragTo(a: CropArea, c: Point, grab: Point, imageWidth: nat, imageHeight: nat): (r: CropArea)
  {
    a.(x := Max(0.0, Min(imageWidth as real - a.width, c.x - grab.x)),
       y := Max(0.0, Min(imageHeight as real - a.height, c.y - grab.y)))
  }

  /** Dragging keeps the size; the rectangle starts inside the image, ends
      inside it when it fits, and sits exactly under the pointer whenever
      that position fits. */
  lemma DragToSpec(a: CropArea, c: Point, grab: Point, imageWidth: nat, imageHeight: nat)
    ensures var r := DragTo(a, c, grab, imageWidth, imageHeight);
      r.width == a.width && r.height == a.height && r.x >= 0.0 && r.y >= 0.0
      && (a.width <= imageWidth as real ==> r.x + r.width <= imageWidth as real)
      && (a.height <= imageHeight as real ==> r.y + r.height <= imageHeight as real)
      && (0.0 <= c.x - grab.x <= imageWidth as real - a.width ==> r.x == c.x - grab.x)
      && (0.0 <= c.y - grab.y <= imageHeight as real - a.height ==> r.y == c.y - grab.y)
  {
  }

  /** Grabbing the rectangle and releasing it where it was grabbed leaves
      it where it is, if it lay inside the image. */
  lemma PressThenDragInPlace(c: Point, a: CropArea, scale: real, imageWidth: nat, imageHeight: nat)
    requires scale != 0.0 && HitTest(c, a, scale).Drag?
    requires 0.0 <= a.x && a.x + a.width <= imageWidth as real
    requires 0.0 <= a.y && a.y + a.height <= imageHeight as real
    ensures DragTo(a, c, HitTest(c, a, scale).offset, imageWidth, imageHeight) == a
  {
    HitTestSpec(c, a, scale);
    DragToSpec(a, c, HitTest(c, a, scale).offset, imageWidth, imageHeight);
  }

  /** `handleMouseMove`: the new rectangle to dispatch, if any. */
  method MouseMove(cropMode: bool, imageWidth: nat, imageHeight: nat, hasImage: bool,
                   resizing: Option<Corner>, dragging: bool, grab: Point, a: CropArea, c: Point)
    returns (r: Option<CropArea>)
    ensures !cropMode || !hasImage ==> r == None
    ensures cropMode && hasImage && resizing.Some? ==>
      r == Some(PushInside(CornerResize(resizing.value, a, c), imageWidth, imageHeight))
    ensures cropMode && hasImage && resizing.None? && dragging ==>
      r == Some(DragTo(a, c, grab, imageWidth, imageHeight))
    ensures cropMode && hasImage && resizing.None? && !dragging ==> r == None
    ensures r.Some? ==> r.value.x >= 0.0 && r.value.y >= 0.0
  {
    if !cropMode || !hasImage {
      return None;
    }
    if resizing.Some? {
      var next := ResizeStep(resizing.value, a, c, imageWidth, imageHeight);
      r := Some(next);
    } else if dragging {
      DragToSpec(a, c, grab, imageWidth, imageHeight);
      r := Some(DragTo(a, c, grab, imageWidth, imageHeight));
    } else {
      r := None;
    }
  }

  // ---------------------------------------------------------------------
  // Zoom
  // ---------------------------------------------------------------------

  const ZoomStep: real := 1.2
  const MaxZoom: real := 5.0
  const MinZoom: real := 0.1

  datatype View = View(scale: real, fitToScreen: bool)

  function ZoomIn(v: View): (r: View)
    ensures r.scale <= MaxZoom && !r.fitToScreen
    ensures v.scale * ZoomStep <= MaxZoom ==> r.scale == v.scale * ZoomStep
  {
    View(Min(v.scale * ZoomStep, MaxZoom), false)
  }

  function ZoomOut(v: View): (r: View)
    ensures r.scale >= MinZoom && !r.fitToScreen
    ensures v.scale / ZoomStep >= MinZoom ==> r.scale == v.scale / ZoomStep
  {
    View(Max(v.scale / ZoomStep, MinZoom), false)
  }

  /** Zooming in then out, or out then in, comes back to the same scale
      while the limits are not reached. */
  lemma ZoomRoundTrip(v: View)
    ensures MinZoom <= v.scale && v.scale * ZoomStep <= MaxZoom ==> ZoomOut(ZoomIn(v)).scale == v.scale
    ensures v.scale <= MaxZoom && v.scale / ZoomStep >= MinZoom ==> ZoomIn(ZoomOut(v)).scale == v.scale
  {
  }

  /** The zoom buttons keep any scale already within the limits within
      them. */
  lemma ZoomStaysInRange(v: View)
    requires MinZoom <= v.scale <= MaxZoom
    ensures MinZoom <= ZoomIn(v).scale <= MaxZoom && MinZoom <= ZoomOut(v).scale <= MaxZoom
  {
  }

  function Actual(v: View): (r: View)
    ensures r.scale == 1.0 && !r.fitToScreen
  {
    View(1.0, false)
  }

  function FitToScreen(v: View): (r: View)
    ensures r.fitToScreen && r.scale == v.scale
  {
    v.(fitToScreen := true)
  }

  /** `handleKeyDown`: the zoom key map, inert without an image. */
  function KeyDown(key: string, hasImage: bool, v: View): (r: View)
    ensures !hasImage ==> r == v
    ensures hasImage && (key == "+" || key == "=") ==> r == ZoomIn(v)
    ensures hasImage && key == "-" ==> r == ZoomOut(v)
    ensures hasImage && key == "0" ==> r == FitToScreen(v)
    ensures hasImage && key == "1" ==> r == Actual(v)
    ensures key !in {"+", "=", "-", "0", "1"} ==> r == v
  {
    if !hasImage then v
    else if key == "+" || key == "=" then ZoomIn(v)
    else if key == "-" then ZoomOut(v)
    else if key == "0" then FitToScreen(v)
    else if key == "1" then Actual(v)
    else v
  }

  /** `handleWheel`: with Ctrl held, scrolling up zooms in and anything
      else zooms out. */
  function Wheel(ctrlKey: bool, deltaY: real, hasImage: bool, v: View): (r: View)
    ensures !hasImage || !ctrlKey ==> r == v
    ensures hasImage && ctrlKey ==> r == if deltaY < 0.0 then ZoomIn(v) else ZoomOut(v)
  {
    if !hasImage || !ctrlKey then v else if deltaY < 0.0 then ZoomIn(v) else ZoomOut(v)
  }

  const Padding: real := 32.0

  /** The fit-to-screen scale: the largest that fits the container less its
      padding, but never above 100%. */
  function FitScale(containerWidth: real, containerHeight: real, canvasWidth: nat, canvasHeight: nat): (s: real)
    requires canvasWidth > 0 && canvasHeight > 0
    ensures s <= 1.0
    ensures s * canvasWidth as real <= containerWidth - Padding
    ensures s * canvasHeight as real <= containerHeight - Padding
    ensures s == 1.0 || s == (containerWidth - Padding) / canvasWidth as real
         || s == (containerHeight - Padding) / canvasHeight as real
  {
    var sx := (containerWidth - Padding) / canvasWidth as real;
    var sy := (containerHeight - Padding) / canvasHeight as real;
    Min(Min(sx, sy), 1.0)
  }
}
