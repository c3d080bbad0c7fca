/** Channel values of a canvas `ImageData`, which is a `Uint8ClampedArray`:
    every assignment of a number into it is clamped and rounded. */
module Bytes {

  type Byte = x: int | 0 <= x < 256

  function Min(a: real, b: real): real { if a <= b then a else b }
  function Max(a: real, b: real): real { if a >= b then a else b }

  /** The conversion applied by every write into a `Uint8ClampedArray`
      (ToUint8Clamp, section 7.1.12 of ECMA-262, 2022 edition): values at or
      below 0 become 0, values at or above 255 become 255, everything else is
      rounded to the nearest integer with ties going to the even one. */
  function ToByte(v: real): (b: Byte)
  {
    if v <= 0.0 then 0
    else if v >= 255.0 then 255
    else
      var f := v.Floor;
      if f as real + 0.5 < v then f + 1
      else if v < f as real + 0.5 then f
      else if f % 2 == 1 then f + 1
      else f
  }

  /** Writing a value that is already a byte stores it unchanged. */
  lemma ToByteOfByte(n: Byte)
    ensures ToByte(n as real) == n
  {
  }

  /** Inside the byte range the stored value is the input rounded: it is
      never more than half a unit away. */
  lemma ToByteNearest(v: real)
    requires 0.0 <= v <= 255.0
    ensures -0.5 <= ToByte(v) as real - v <= 0.5
  {
  }

  /** The clamped conversion is monotone. */
  lemma ToByteMonotone(u: real, v: real)
    requires u <= v
    ensures ToByte(u) <= ToByte(v)
  {
  }

  /** An explicit `Math.min(255, v)` before the clamped write changes nothing. */
  lemma ToByteMinRedundant(v: real)
    ensures ToByte(Min(255.0, v)) == ToByte(v)
  {
  }
}
