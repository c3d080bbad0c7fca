/** The pixel buffer of a canvas: `width * height` RGBA pixels, row-major,
    four bytes each, as `getImageData` exposes them. Every operation of the
    editor draws into a fresh canvas, so a buffer is modelled as a value. */
module Bitmaps {
  import opened Bytes
  import Arith

  datatype Pixel = Pixel(r: Byte, g: Byte, b: Byte, a: Byte)

  /** What a freshly created canvas holds where nothing was drawn. */
  const Transparent := Pixel(0, 0, 0, 0)

  /** The largest canvas side: the `width` and `height` attributes reflect
      an unsigned long limited to non-negative numbers, so a value above
      2^31 - 1 is never stored (section 2.6.1 of the HTML standard). */
  const MaxSide := 0x7FFF_FFFF

  type Side = n: nat | n <= MaxSide

  datatype RawBitmap = RawBitmap(width: Side, height: Side, data: seq<Byte>)

  type Bitmap = b: RawBitmap | |b.data| == b.width * b.height * 4
    witness RawBitmap(0, 0, [])

  /** Whether the buffer can be the source of `drawImage`: a canvas with a
      zero side makes it throw an InvalidStateError (section 4.12.5.1.14
      of the HTML standard). */
  predicate Drawable(img: Bitmap) { img.width > 0 && img.height > 0 }

  /** Channel `c` (0 = red, 1 = green, 2 = blue, 3 = alpha) of a pixel. */
  function Channel(p: Pixel, c: nat): Byte
  {
    if c == 0 then p.r else if c == 1 then p.g else if c == 2 then p.b else p.a
  }

  lemma DataLengthMultipleOf4(img: Bitmap)
    ensures |img.data| % 4 == 0
  {
    var m := img.width * img.height;
    assert |img.data| == m * 4;
  }

  /** Offset in `data` of the first byte of pixel (x, y). */
  function Offset(w: nat, x: nat, y: nat): nat { (y * w + x) * 4 }

  lemma OffsetInRange(img: Bitmap, x: nat, y: nat)
    requires x < img.width && y < img.height
    ensures Offset(img.width, x, y) + 3 < |img.data|
  {
    Arith.CellInGrid(img.width, img.height, x, y);
  }

  /** Pixel (x, y) of a buffer. */
  function At(img: Bitmap, x: nat, y: nat): Pixel
    requires x < img.width && y < img.height
  {
    OffsetInRange(img, x, y);
    var i := Offset(img.width, x, y);
    Pixel(img.data[i], img.data[i + 1], img.data[i + 2], img.data[i + 3])
  }

  /** The four bytes of pixel (x, y), in channel order. */
  lemma AtBytes(img: Bitmap, x: nat, y: nat)
    requires x < img.width && y < img.height
    ensures Offset(img.width, x, y) + 3 < |img.data|
    ensures At(img, x, y) == Pixel(img.data[Offset(img.width, x, y)], img.data[Offset(img.width, x, y) + 1],
                                   img.data[Offset(img.width, x, y) + 2], img.data[Offset(img.width, x, y) + 3])
  {
    OffsetInRange(img, x, y);
  }

  /** The pixel that byte `k` of a `w`-wide buffer built from `f` belongs to. */
  function PixelOfByte(w: nat, f: (nat, nat) -> Pixel, k: nat): Pixel
  {
    if w == 0 then Transparent else f((k / 4) % w, (k / 4) / w)
  }

  /** The `w` by `h` buffer whose pixel (x, y) is `f(x, y)`. */
  function Build(w: Side, h: Side, f: (nat, nat) -> Pixel): (r: Bitmap)
    ensures r.width == w && r.height == h
  {
    RawBitmap(w, h, seq(w * h * 4, k requires 0 <= k < w * h * 4 => Channel(PixelOfByte(w, f, k), k % 4)))
  }

  /** Reading back a built buffer gives the function it was built from. */
  lemma BuildAt(w: Side, h: Side, f: (nat, nat) -> Pixel, x: nat, y: nat)
    requires x < w && y < h
    ensures At(Build(w, h, f), x, y) == f(x, y)
  {
    var img := Build(w, h, f);
    var p := y * w + x;
    Arith.CellDecompose(w, x, y);
    Arith.CellInGrid(w, h, x, y);
    forall c | 0 <= c < 4
      ensures img.data[p * 4 + c] == Channel(f(x, y), c)
    {
      assert (p * 4 + c) / 4 == p && (p * 4 + c) % 4 == c;
    }
  }

  /** Byte `k` of a buffer is channel `k % 4` of the pixel it belongs to. */
  lemma ByteChannel(img: Bitmap, k: nat)
    requires k < |img.data|
    ensures img.width > 0 && 0 <= (k / 4) % img.width < img.width && 0 <= (k / 4) / img.width < img.height
    ensures img.data[k] == Channel(At(img, (k / 4) % img.width, (k / 4) / img.width), k % 4)
  {
    Arith.ByteOfCell(img.width, img.height, k);
    var x, y, c := (k / 4) % img.width, (k / 4) / img.width, k % 4;
    var o := Offset(img.width, x, y);
    assert o + c == k;
    AtBytes(img, x, y);
    assert img.data[o + c] == Channel(At(img, x, y), c) by {
      assert c == 0 || c == 1 || c == 2 || c == 3;
    }
  }

  /** Two buffers with the same dimensions and the same pixels are equal. */
  lemma Extensionality(a: Bitmap, b: Bitmap)
    requires a.width == b.width && a.height == b.height
    requires forall x: nat, y: nat :: x < a.width && y < a.height ==> At(a, x, y) == At(b, x, y)
    ensures a == b
  {
    forall k | 0 <= k < |a.data|
      ensures a.data[k] == b.data[k]
    {
      ByteChannel(a, k);
      ByteChannel(b, k);
      var x, y := (k / 4) % a.width, (k / 4) / a.width;
      assert At(a, x, y) == At(b, x, y);
    }
    assert a.data == b.data;
  }

  /** Rebuilding a buffer from its own pixels gives it back. */
  lemma BuildOfAt(img: Bitmap, f: (nat, nat) -> Pixel)
    requires forall x: nat, y: nat :: x < img.width && y < img.height ==> f(x, y) == At(img, x, y)
    ensures Build(img.width, img.height, f) == img
  {
    var r := Build(img.width, img.height, f);
    forall x: nat, y: nat | x < img.width && y < img.height
      ensures At(r, x, y) == At(img, x, y)
    {
      BuildAt(img.width, img.height, f, x, y);
    }
    Extensionality(r, img);
  }
}
