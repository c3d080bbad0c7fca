/** The three per-pixel filters of the editing session: brightness,
    contrast and saturation adjustment, grayscale and sepia. Each runs a loop
    over the RGBA bytes of a fresh `ImageData`, four bytes at a time, writing
    red, green and blue in place and leaving alpha alone. */
module Filters {
  import opened Bytes

  datatype Rgb = Rgb(r: Byte, g: Byte, b: Byte)

  /** Which loop body runs. The adjustment carries the three slider values;
      50 is neutral for each of them. */
  datatype Filter =
    | Adjust(brightness: int, contrast: int, saturation: int)
    | Grayscale
    | Sepia

  /** Explicit `Math.max(0, Math.min(255, v))` of the adjustment loop. */
  function Clamp255(v: int): int { if v < 0 then 0 else if v > 255 then 255 else v }

  /** "Apply brightness": add `(brightness - 50) * 2` to each colour. */
  function Brighten(p: Rgb, delta: real): Rgb
  {
    Rgb(ToByte(p.r as real + delta), ToByte(p.g as real + delta), ToByte(p.b as real + delta))
  }

  /** `(v - 128) * cf + 128`: a colour stretched around 128. */
  function Stretch(v: real, cf: real): real { (v - 128.0) * cf + 128.0 }

  /** "Apply contrast": stretch each colour around 128 by `contrast / 50`. */
  function Contrast(p: Rgb, cf: real): Rgb
  {
    Rgb(ToByte(Stretch(p.r as real, cf)), ToByte(Stretch(p.g as real, cf)), ToByte(Stretch(p.b as real, cf)))
  }

  /** Luminance used by the saturation step. */
  function SatGray(p: Rgb): real { 0.3 * p.r as real + 0.59 * p.g as real + 0.11 * p.b as real }

  /** `gray + sf * (v - gray)`: a colour moved away from gray by `sf`. */
  function Blend(gray: real, sf: real, v: real): real { gray + sf * (v - gray) }

  /** "Apply saturation": move each colour away from (or towards) one
      luminance value computed before any of the three writes. */
  function Saturate(p: Rgb, sf: real): Rgb
  {
    var gray := SatGray(p);
    Rgb(ToByte(Blend(gray, sf, p.r as real)), ToByte(Blend(gray, sf, p.g as real)), ToByte(Blend(gray, sf, p.b as real)))
  }

  /** "Clamp values": the explicit `Math.max(0, Math.min(255, v))`. */
  function ClampRgb(p: Rgb): Rgb
  {
    Rgb(ToByte(Clamp255(p.r) as real), ToByte(Clamp255(p.g) as real), ToByte(Clamp255(p.b) as real))
  }

  /** The adjustment of one pixel. Every intermediate value is written back
      into the clamped array before the next step reads it, so each stage
      ends in `ToByte`. */
  function AdjustRgb(p: Rgb, brightness: int, contrast: int, saturation: int): Rgb
  {
    var delta := ((brightness - 50) * 2) as real;
    var cf := contrast as real / 50.0;
    var sf := saturation as real / 50.0;
    ClampRgb(Saturate(Contrast(Brighten(p, delta), cf), sf))
  }

  /** Luminance used by the grayscale filter. */
  function Luma(p: Rgb): real { 0.299 * p.r as real + 0.587 * p.g as real + 0.114 * p.b as real }

  function GrayRgb(p: Rgb): Rgb
  {
    var v := ToByte(Luma(p));
    Rgb(v, v, v)
  }

  /** The sepia matrix, each row capped by an explicit `Math.min(255, ...)`
      before the clamped write; all three rows read the original channels. */
  function SepiaRgb(p: Rgb): Rgb
  {
    var r, g, b := p.r as real, p.g as real, p.b as real;
    Rgb(ToByte(Min(255.0, r * 0.393 + g * 0.769 + b * 0.189)),
        ToByte(Min(255.0, r * 0.349 + g * 0.686 + b * 0.168)),
        ToByte(Min(255.0, r * 0.272 + g * 0.534 + b * 0.131)))
  }

  function ApplyPixel(f: Filter, p: Rgb): Rgb
  {
    match f
    case Adjust(br, co, sa) => AdjustRgb(p, br, co, sa)
    case Grayscale => GrayRgb(p)
    case Sepia => SepiaRgb(p)
  }

  function Pick(p: Rgb, c: nat): Byte
  {
    if c == 0 then p.r else if c == 1 then p.g else p.b
  }

  /** `s` with the colour bytes of pixel `j` replaced by `px[j]` and every
      alpha byte kept. */
  function Overlay(s: seq<Byte>, px: seq<Rgb>): (r: seq<Byte>)
    requires |s| % 4 == 0 && |px| == |s| / 4
  {
    seq(|s|, k requires 0 <= k < |s| => if k % 4 == 3 then s[k] else Pick(px[k / 4], k % 4))
  }

  /** The filtered colour of every pixel of `s`. */
  function FilteredPixels(s: seq<Byte>, f: Filter): (px: seq<Rgb>)
    requires |s| % 4 == 0
  {
    seq(|s| / 4, j requires 0 <= j < |s| / 4 => ApplyPixel(f, PixelAt(s, 4 * j)))
  }

  /** The bytes a filter loop leaves behind. */
  function MapRgb(s: seq<Byte>, f: Filter): (r: seq<Byte>)
    requires |s| % 4 == 0
  {
    Overlay(s, FilteredPixels(s, f))
  }

  /** The pixel starting at byte `i`. */
  function PixelAt(s: seq<Byte>, i: nat): Rgb
    requires i + 2 < |s|
  {
    Rgb(s[i], s[i + 1], s[i + 2])
  }

  // ---------------------------------------------------------------------
  // The loops, in place on the clamped byte array. Each loop body is a
  // method of its own that rewrites the pixel starting at byte `i`.
  // ---------------------------------------------------------------------

  /** `s` with the colour bytes of the pixel at `i` replaced by `q`. */
  function WritePixel(s: seq<Byte>, i: nat, q: Rgb): (r: seq<Byte>)
    requires i + 2 < |s|
  {
    s[i := q.r][i + 1 := q.g][i + 2 := q.b]
  }

  method BrightenInPlace(data: array<Byte>, i: nat, delta: real)
    requires i + 2 < data.Length
    modifies data
    ensures data[..] == WritePixel(old(data[..]), i, Brighten(PixelAt(old(data[..]), i), delta))
  {
    data[i] := ToByte(data[i] as real + delta);
    data[i + 1] := ToByte(data[i + 1] as real + delta);
    data[i + 2] := ToByte(data[i + 2] as real + delta);
  }

  method ContrastInPlace(data: array<Byte>, i: nat, cf: real)
    requires i + 2 < data.Length
    modifies data
    ensures data[..] == WritePixel(old(data[..]), i, Contrast(PixelAt(old(data[..]), i), cf))
  {
    data[i] := ToByte(Stretch(data[i] as real, cf));
    data[i + 1] := ToByte(Stretch(data[i + 1] as real, cf));
    data[i + 2] := ToByte(Stretch(data[i + 2] as real, cf));
  }

  method SaturateInPlace(data: array<Byte>, i: nat, sf: real)
    requires i + 2 < data.Length
    modifies data
    ensures data[..] == WritePixel(old(data[..]), i, Saturate(PixelAt(old(data[..]), i), sf))
  {
    var gray := 0.3 * data[i] as real + 0.59 * data[i + 1] as real + 0.11 * data[i + 2] as real;
    data[i] := ToByte(Blend(gray, sf, data[i] as real));
    data[i + 1] := ToByte(Blend(gray, sf, data[i + 1] as real));
    data[i + 2] := ToByte(Blend(gray, sf, data[i + 2] as real));
  }

  method ClampInPlace(data: array<Byte>, i: nat)
    requires i + 2 < data.Length
    modifies data
    ensures data[..] == WritePixel(old(data[..]), i, ClampRgb(PixelAt(old(data[..]), i)))
  {
    data[i] := ToByte(Clamp255(data[i]) as real);
    data[i + 1] := ToByte(Clamp255(data[i + 1]) as real);
    data[i + 2] := ToByte(Clamp255(data[i + 2]) as real);
  }

  /** Writing the stages of a pixel one after another. */
  lemma WritePixelTwice(s: seq<Byte>, i: nat, p: Rgb, q: Rgb)
    requires i + 2 < |s|
    ensures PixelAt(WritePixel(s, i, p), i) == p
    ensures WritePixel(WritePixel(s, i, p), i, q) == WritePixel(s, i, q)
  {
  }

  /** One pass of the adjustment loop's body: brightness, contrast,
      saturation and the final clamp, each written into the array. */
  method AdjustPixelInPlace(data: array<Byte>, i: nat, delta: real, cf: real, sf: real,
                            ghost brightness: int, ghost contrast: int, ghost saturation: int)
    requires i + 2 < data.Length
    requires delta == ((brightness - 50) * 2) as real
    requires cf == contrast as real / 50.0 && sf == saturation as real / 50.0
    modifies data
    ensures data[..] == WritePixel(old(data[..]), i, AdjustRgb(PixelAt(old(data[..]), i), brightness, contrast, saturation))
  {
    ghost var s := data[..];
    ghost var p0 := PixelAt(s, i);
    ghost var p1 := Brighten(p0, delta);
    ghost var p2 := Contrast(p1, cf);
    ghost var p3 := Saturate(p2, sf);
    BrightenInPlace(data, i, delta);
    WritePixelTwice(s, i, p1, p2);
    ContrastInPlace(data, i, cf);
    WritePixelTwice(s, i, p2, p3);
    SaturateInPlace(data, i, sf);
    WritePixelTwice(s, i, p3, ClampRgb(p3));
    ClampInPlace(data, i);
  }

  method GrayPixelInPlace(data: array<Byte>, i: nat)
    requires i + 2 < data.Length
    modifies data
    ensures data[..] == WritePixel(old(data[..]), i, GrayRgb(PixelAt(old(data[..]), i)))
  {
    var gray := 0.299 * data[i] as real + 0.587 * data[i + 1] as real + 0.114 * data[i + 2] as real;
    data[i] := ToByte(gray);
    data[i + 1] := ToByte(gray);
    data[i + 2] := ToByte(gray);
  }

  method SepiaPixelInPlace(data: array<Byte>, i: nat)
    requires i + 2 < data.Length
    modifies data
    ensures data[..] == WritePixel(old(data[..]), i, SepiaRgb(PixelAt(old(data[..]), i)))
  {
    var r, g, b := data[i] as real, data[i + 1] as real, data[i + 2] as real;
    data[i] := ToByte(Min(255.0, r * 0.393 + g * 0.769 + b * 0.189));
    data[i + 1] := ToByte(Min(255.0, r * 0.349 + g * 0.686 + b * 0.168));
    data[i + 2] := ToByte(Min(255.0, r * 0.272 + g * 0.534 + b * 0.131));
  }

  /** The loops' common invariant: the first `n` pixels are filtered, the
      rest and every alpha byte are as they were. */
  ghost predicate FilteredUpTo(cur: seq<Byte>, before: seq<Byte>, f: Filter, n: nat)
    requires |cur| == |before| && |before| % 4 == 0 && 4 * n <= |before|
  {
    && (forall j :: 0 <= j < n ==> PixelAt(cur, 4 * j) == ApplyPixel(f, PixelAt(before, 4 * j)))
    && (forall j :: 0 <= j < |before| / 4 ==> cur[4 * j + 3] == before[4 * j + 3])
    && (forall k :: 4 * n <= k < |before| ==> cur[k] == before[k])
  }

  /** Filtering one more pixel extends the invariant. */
  lemma FilteredStep(cur: seq<Byte>, before: seq<Byte>, f: Filter, n: nat)
    requires |cur| == |before| && |before| % 4 == 0 && 4 * n + 4 <= |before|
    requires FilteredUpTo(cur, before, f, n)
    ensures FilteredUpTo(WritePixel(cur, 4 * n, ApplyPixel(f, PixelAt(cur, 4 * n))), before, f, n + 1)
  {
    var next := WritePixel(cur, 4 * n, ApplyPixel(f, PixelAt(cur, 4 * n)));
    assert PixelAt(cur, 4 * n) == PixelAt(before, 4 * n);
    forall j | 0 <= j < |before| / 4
      ensures next[4 * j + 3] == before[4 * j + 3]
    {
      assert 4 * j + 3 != 4 * n && 4 * j + 3 != 4 * n + 1 && 4 * j + 3 != 4 * n + 2;
    }
    forall j | 0 <= j < n
      ensures PixelAt(next, 4 * j) == PixelAt(cur, 4 * j)
    {
    }
  }

  /** Reading a pixel back out of an overlay. */
  lemma OverlayAt(s: seq<Byte>, px: seq<Rgb>, j: nat)
    requires |s| % 4 == 0 && |px| == |s| / 4 && j < |px|
    ensures PixelAt(Overlay(s, px), 4 * j) == px[j]
    ensures Overlay(s, px)[4 * j + 3] == s[4 * j + 3]
  {
    var r := Overlay(s, px);
    assert (4 * j) / 4 == j && (4 * j + 1) / 4 == j && (4 * j + 2) / 4 == j;
    assert (4 * j) % 4 == 0 && (4 * j + 1) % 4 == 1 && (4 * j + 2) % 4 == 2 && (4 * j + 3) % 4 == 3;
  }

  /** A byte sequence agreeing with an overlay on every pixel is that overlay. */
  lemma OverlayExt(cur: seq<Byte>, s: seq<Byte>, px: seq<Rgb>)
    requires |cur| == |s| && |s| % 4 == 0 && |px| == |s| / 4
    requires forall j :: 0 <= j < |px| ==> PixelAt(cur, 4 * j) == px[j]
    requires forall j :: 0 <= j < |px| ==> cur[4 * j + 3] == s[4 * j + 3]
    ensures cur == Overlay(s, px)
  {
    var want := Overlay(s, px);
    forall k | 0 <= k < |cur|
      ensures cur[k] == want[k]
    {
      var j := k / 4;
      assert k == 4 * j + k % 4 && j < |px|;
      assert PixelAt(cur, 4 * j) == px[j];
      OverlayAt(s, px, j);
    }
  }

  /** Once every pixel is filtered the bytes are those `MapRgb` describes. */
  lemma FilteredAll(cur: seq<Byte>, before: seq<Byte>, f: Filter)
    requires |cur| == |before| && |before| % 4 == 0
    requires FilteredUpTo(cur, before, f, |before| / 4)
    ensures cur == MapRgb(before, f)
  {
    var px := FilteredPixels(before, f);
    forall j | 0 <= j < |px|
      ensures PixelAt(cur, 4 * j) == px[j]
    {
    }
    OverlayExt(cur, before, px);
  }

  method RunFilter(data: array<Byte>, f: Filter)
    requires data.Length % 4 == 0
    modifies data
    ensures data[..] == MapRgb(old(data[..]), f)
  {
    ghost var before := data[..];
    var delta, cf, sf := 0.0, 0.0, 0.0;
    if f.Adjust? {
      delta := ((f.brightness - 50) * 2) as real;
      cf := f.contrast as real / 50.0;
      sf := f.saturation as real / 50.0;
    }
    var i, n := 0, 0;
    while i < data.Length
      invariant 0 <= i <= data.Length && i == 4 * n
      invariant FilteredUpTo(data[..], before, f, n)
    {
      FilteredStep(data[..], before, f, n);
      match f {
        case Adjust(br, co, sa) => AdjustPixelInPlace(data, i, delta, cf, sf, br, co, sa);
        case Grayscale => GrayPixelInPlace(data, i);
        case Sepia => SepiaPixelInPlace(data, i);
      }
      i, n := i + 4, n + 1;
    }
    FilteredAll(data[..], before, f);
  }

  // ---------------------------------------------------------------------
  // What the loops guarantee.
  // ---------------------------------------------------------------------

  /** Every filter keeps the length and every alpha byte, and writes the
      filtered pixel into the colour bytes. */
  lemma MapRgbShape(s: seq<Byte>, f: Filter, j: nat)
    requires |s| % 4 == 0 && 4 * j < |s|
    ensures |MapRgb(s, f)| == |s|
    ensures MapRgb(s, f)[4 * j + 3] == s[4 * j + 3]
    ensures PixelAt(MapRgb(s, f), 4 * j) == ApplyPixel(f, PixelAt(s, 4 * j))
  {
    OverlayAt(s, FilteredPixels(s, f), j);
  }

  /** At brightness = contrast = saturation = 50 the adjustment is the
      identity on a pixel. */
  lemma AdjustNeutralPixel(p: Rgb)
    ensures AdjustRgb(p, 50, 50, 50) == p
  {
    ToByteOfByte(p.r); ToByteOfByte(p.g); ToByteOfByte(p.b);
    assert Brighten(p, 0.0) == p;
    assert Contrast(p, 1.0) == p;
    assert Saturate(p, 1.0) == p;
    assert ClampRgb(p) == p;
  }

  /** ... and so on the whole buffer. */
  lemma AdjustNeutral(s: seq<Byte>)
    requires |s| % 4 == 0
    ensures MapRgb(s, Adjust(50, 50, 50)) == s
  {
    var px := FilteredPixels(s, Adjust(50, 50, 50));
    forall j | 0 <= j < |px|
      ensures PixelAt(s, 4 * j) == px[j]
    {
      AdjustNeutralPixel(PixelAt(s, 4 * j));
    }
    OverlayExt(s, s, px);
  }

  /** Saturation 0 turns every pixel into its (clamped) luminance. */
  lemma AdjustDesaturatedIsGray(p: Rgb, brightness: int, contrast: int)
    ensures var q := AdjustRgb(p, brightness, contrast, 0); q.r == q.g == q.b
  {
  }

  /** Grayscale makes red, green and blue equal, and the gray value stays
      within half a unit of the luminance (no clamping can occur). */
  lemma GrayscalePixel(p: Rgb)
    ensures var q := GrayRgb(p); q.r == q.g == q.b
    ensures 0.0 <= Luma(p) <= 255.0
    ensures -0.5 <= GrayRgb(p).r as real - Luma(p) <= 0.5
  {
    ToByteNearest(Luma(p));
  }

  /** A gray pixel is left as it is by grayscale. */
  lemma GrayscaleFixesGray(v: Byte)
    ensures GrayRgb(Rgb(v, v, v)) == Rgb(v, v, v)
  {
    assert Luma(Rgb(v, v, v)) == v as real;
    ToByteOfByte(v);
  }

  /** Grayscale is idempotent on a whole buffer. */
  lemma GrayscaleIdempotent(s: seq<Byte>)
    requires |s| % 4 == 0
    ensures MapRgb(MapRgb(s, Grayscale), Grayscale) == MapRgb(s, Grayscale)
  {
    var once := MapRgb(s, Grayscale);
    var px := FilteredPixels(once, Grayscale);
    forall j | 0 <= j < |px|
      ensures PixelAt(once, 4 * j) == px[j] && once[4 * j + 3] == once[4 * j + 3]
    {
      MapRgbShape(s, Grayscale, j);
      GrayscaleFixesGray(PixelAt(once, 4 * j).r);
    }
    OverlayExt(once, once, px);
  }

  /** Sepia output is warm: red is at least green and green at least blue. */
  lemma SepiaOrdered(p: Rgb)
    ensures var q := SepiaRgb(p); q.r >= q.g >= q.b
  {
    var r, g, b := p.r as real, p.g as real, p.b as real;
    ToByteMonotone(Min(255.0, r * 0.349 + g * 0.686 + b * 0.168), Min(255.0, r * 0.393 + g * 0.769 + b * 0.189));
    ToByteMonotone(Min(255.0, r * 0.272 + g * 0.534 + b * 0.131), Min(255.0, r * 0.349 + g * 0.686 + b * 0.168));
  }

  /** The explicit `Math.min(255, ...)` of the sepia loop is redundant with the
      clamped write: the loop would store the same bytes without it. */
  lemma SepiaCapRedundant(p: Rgb)
    ensures var r, g, b := p.r as real, p.g as real, p.b as real;
      SepiaRgb(p) == Rgb(ToByte(r * 0.393 + g * 0.769 + b * 0.189),
                         ToByte(r * 0.349 + g * 0.686 + b * 0.168),
                         ToByte(r * 0.272 + g * 0.534 + b * 0.131))
  {
  }

  /** The explicit clamp at the end of the adjustment is redundant as well. */
  lemma AdjustClampRedundant(p: Rgb)
    ensures ClampRgb(p) == p
  {
    ToByteOfByte(p.r); ToByteOfByte(p.g); ToByteOfByte(p.b);
  }
}
