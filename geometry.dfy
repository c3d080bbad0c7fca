/** The geometric operations of the editing session. Each one draws the
    current canvas into a fresh canvas through a transform, so each is a
    function from a buffer to a new buffer. */
module Geometry {
  import opened Bitmaps

  /** A rectangle in image coordinates; the editor keeps fractional values. */
  datatype CropArea = CropArea(x: real, y: real, width: real, height: real)

  const NoArea := CropArea(0.0, 0.0, 0.0, 0.0)

  /** The sides a fresh canvas has, and falls back to. */
  const DefaultWidth: Side := 300
  const DefaultHeight: Side := 150

  /** Assigning `v` to `canvas.width` or `canvas.height`: the unsigned long
      conversion truncates towards zero and wraps modulo 2^32 (section
      3.2.4.8 of the Web IDL standard), and a result above 2^31 - 1 stores
      the attribute's default, `fallback`, instead (section 2.6.1 of the
      HTML standard). */
  function CanvasDim(v: real, fallback: Side): (n: Side)
    ensures 0.0 <= v < (MaxSide + 1) as real ==> n as real <= v < n as real + 1.0
    ensures -1.0 < v < 1.0 ==> n == 0
    ensures -(MaxSide as real) <= v <= -1.0 ==> n == fallback
  {
    var t := if v >= 0.0 then v.Floor else -((-v).Floor);
    var u := t % 0x1_0000_0000;
    if u <= MaxSide then u else fallback
  }

  // ---------------------------------------------------------------------
  // Flip: `scale(-1, 1)` or `scale(1, -1)` and a draw at the mirrored origin.
  // ---------------------------------------------------------------------

  function FlipH(img: Bitmap): (r: Bitmap)
    ensures r.width == img.width && r.height == img.height
  {
    Build(img.width, img.height,
      (x: nat, y: nat) => if x < img.width && y < img.height then At(img, img.width - 1 - x, y) else Transparent)
  }

  function FlipV(img: Bitmap): (r: Bitmap)
    ensures r.width == img.width && r.height == img.height
  {
    Build(img.width, img.height,
      (x: nat, y: nat) => if x < img.width && y < img.height then At(img, x, img.height - 1 - y) else Transparent)
  }

  /** `flipImage(horizontal)`. */
  function Flip(img: Bitmap, horizontal: bool): (r: Bitmap)
  {
    if horizontal then FlipH(img) else FlipV(img)
  }

  lemma FlipHAt(img: Bitmap, x: nat, y: nat)
    requires x < img.width && y < img.height
    ensures At(FlipH(img), x, y) == At(img, img.width - 1 - x, y)
  {
    BuildAt(img.width, img.height,
      (x: nat, y: nat) => if x < img.width && y < img.height then At(img, img.width - 1 - x, y) else Transparent, x, y);
  }

  lemma FlipVAt(img: Bitmap, x: nat, y: nat)
    requires x < img.width && y < img.height
    ensures At(FlipV(img), x, y) == At(img, x, img.height - 1 - y)
  {
    BuildAt(img.width, img.height,
      (x: nat, y: nat) => if x < img.width && y < img.height then At(img, x, img.height - 1 - y) else Transparent, x, y);
  }

  /** Flipping twice the same way gives the buffer back. */
  lemma FlipInvolution(img: Bitmap, horizontal: bool)
    ensures Flip(Flip(img, horizontal), horizontal) == img
  {
    var once := Flip(img, horizontal);
    var twice := Flip(once, horizontal);
    forall x: nat, y: nat | x < img.width && y < img.height
      ensures At(twice, x, y) == At(img, x, y)
    {
      if horizontal {
        FlipHAt(once, x, y);
        FlipHAt(img, img.width - 1 - x, y);
      } else {
        FlipVAt(once, x, y);
        FlipVAt(img, x, img.height - 1 - y);
      }
    }
    Extensionality(twice, img);
  }

  // ---------------------------------------------------------------------
  // Rotation by a quarter turn: the new canvas is `h*|sin| + w*|cos|` by
  // `h*|cos| + w*|sin|`, which for 90 degrees is `h` by `w`; the image is
  // drawn centred after `translate` to the new centre and `rotate`.
  // ---------------------------------------------------------------------

  /** `rotateImage(90)` (clockwise on screen) and `rotateImage(-90)`. */
  function RotateQuarter(img: Bitmap, clockwise: bool): (r: Bitmap)
    ensures r.width == img.height && r.height == img.width
  {
    var w, h := img.width, img.height;
    Build(h, w, (x: nat, y: nat) =>
      if clockwise then (if y < w && x < h then At(img, y, h - 1 - x) else Transparent)
      else (if x < h && y < w then At(img, w - 1 - y, x) else Transparent))
  }

  lemma RotateAt(img: Bitmap, clockwise: bool, x: nat, y: nat)
    requires x < img.height && y < img.width
    ensures clockwise ==> At(RotateQuarter(img, clockwise), x, y) == At(img, y, img.height - 1 - x)
    ensures !clockwise ==> At(RotateQuarter(img, clockwise), x, y) == At(img, img.width - 1 - y, x)
  {
    var w, h := img.width, img.height;
    BuildAt(h, w, (x: nat, y: nat) =>
      if clockwise then (if y < w && x < h then At(img, y, h - 1 - x) else Transparent)
      else (if x < h && y < w then At(img, w - 1 - y, x) else Transparent), x, y);
  }

  /** A quarter turn one way followed by a quarter turn the other way gives
      the buffer back. */
  lemma RotateRoundTrip(img: Bitmap, clockwise: bool)
    ensures RotateQuarter(RotateQuarter(img, clockwise), !clockwise) == img
  {
    var once := RotateQuarter(img, clockwise);
    var back := RotateQuarter(once, !clockwise);
    forall x: nat, y: nat | x < img.width && y < img.height
      ensures At(back, x, y) == At(img, x, y)
    {
      RotateAt(once, !clockwise, x, y);
      if clockwise {
        RotateAt(img, true, img.height - 1 - y, x);
      } else {
        RotateAt(img, false, y, img.width - 1 - x);
      }
    }
    Extensionality(back, img);
  }

  lemma RotateHalfTurnAt(img: Bitmap, x: nat, y: nat)
    requires x < img.width && y < img.height
    ensures At(RotateQuarter(RotateQuarter(img, true), true), x, y) == At(img, img.width - 1 - x, img.height - 1 - y)
    ensures At(FlipH(FlipV(img)), x, y) == At(img, img.width - 1 - x, img.height - 1 - y)
  {
    var once := RotateQuarter(img, true);
    RotateAt(once, true, x, y);
    RotateAt(img, true, y, img.width - 1 - x);
    FlipHAt(FlipV(img), x, y);
    FlipVAt(img, img.width - 1 - x, y);
  }

  /** Two clockwise quarter turns are the same as flipping both ways. */
  lemma RotateHalfTurn(img: Bitmap)
    ensures RotateQuarter(RotateQuarter(img, true), true) == FlipH(FlipV(img))
  {
    var half := RotateQuarter(RotateQuarter(img, true), true);
    var flipped := FlipH(FlipV(img));
    forall x: nat, y: nat | x < img.width && y < img.height
      ensures At(half, x, y) == At(flipped, x, y)
    {
      RotateHalfTurnAt(img, x, y);
    }
    Extensionality(half, flipped);
  }

  // ---------------------------------------------------------------------
  // Crop: a canvas of the area's size and a `drawImage` of the source
  // rectangle at the origin, one source pixel per canvas pixel.
  // ---------------------------------------------------------------------

  /** The source pixel shown at (i, j) of a copy whose origin is the source
      pixel (ox, oy); outside the source the canvas stays transparent. */
  function Shifted(img: Bitmap, ox: int, oy: int, i: nat, j: nat): Pixel
  {
    var sx, sy := ox + i, oy + j;
    if 0 <= sx < img.width && 0 <= sy < img.height then At(img, sx, sy) else Transparent
  }

  /** `cropImage(area)`. */
  function Crop(img: Bitmap, area: CropArea): (r: Bitmap)
    ensures r.width == CanvasDim(area.width, DefaultWidth) && r.height == CanvasDim(area.height, DefaultHeight)
  {
    Build(CanvasDim(area.width, DefaultWidth), CanvasDim(area.height, DefaultHeight),
      (i: nat, j: nat) => Shifted(img, area.x.Floor, area.y.Floor, i, j))
  }

  /** Pixel (i, j) of the crop is source pixel (x + i, y + j) when the area
      starts on a whole pixel and that source pixel exists, and transparent
      when it does not exist. */
  lemma CropAt(img: Bitmap, area: CropArea, i: nat, j: nat)
    requires area.x == area.x.Floor as real && area.y == area.y.Floor as real
    requires i < CanvasDim(area.width, DefaultWidth) && j < CanvasDim(area.height, DefaultHeight)
    ensures var sx, sy := area.x.Floor + i, area.y.Floor + j;
      At(Crop(img, area), i, j) ==
        if 0 <= sx < img.width && 0 <= sy < img.height then At(img, sx, sy) else Transparent
  {
    BuildAt(CanvasDim(area.width, DefaultWidth), CanvasDim(area.height, DefaultHeight),
      (i: nat, j: nat) => Shifted(img, area.x.Floor, area.y.Floor, i, j), i, j);
  }

  /** In particular the crop's first pixel is the area's corner pixel,
      whenever the crop canvas is not empty. */
  lemma CropOrigin(img: Bitmap, x: nat, y: nat, width: real, height: real)
    requires x < img.width && y < img.height
    requires CanvasDim(width, DefaultWidth) >= 1 && CanvasDim(height, DefaultHeight) >= 1
    ensures At(Crop(img, CropArea(x as real, y as real, width, height)), 0, 0) == At(img, x, y)
  {
    CropAt(img, CropArea(x as real, y as real, width, height), 0, 0);
  }

  /** Cropping to the whole image gives the image back. */
  lemma CropWhole(img: Bitmap)
    ensures Crop(img, CropArea(0.0, 0.0, img.width as real, img.height as real)) == img
  {
    var area := CropArea(0.0, 0.0, img.width as real, img.height as real);
    var r := Crop(img, area);
    forall i: nat, j: nat | i < img.width && j < img.height
      ensures At(r, i, j) == At(img, i, j)
    {
      CropAt(img, area, i, j);
    }
    Extensionality(r, img);
  }

  // ---------------------------------------------------------------------
  // The rectangle crop mode starts with.
  // ---------------------------------------------------------------------

  const Margin: real := 0.1

  /** `startCrop`: the centred rectangle covering 80% of each dimension. */
  function StartArea(width: nat, height: nat): (a: CropArea)
    ensures a.x + a.width + a.x == width as real && a.y + a.height + a.y == height as real
    ensures 0.0 <= a.x && a.x + a.width <= width as real
    ensures 0.0 <= a.y && a.y + a.height <= height as real
    ensures a.width == 0.8 * width as real && a.height == 0.8 * height as real
  {
    CropArea(width as real * Margin, height as real * Margin,
             width as real * (1.0 - 2.0 * Margin), height as real * (1.0 - 2.0 * Margin))
  }

  lemma StartAreaExample()
    ensures StartArea(200, 200) == CropArea(20.0, 20.0, 160.0, 160.0)
  {
  }
}
