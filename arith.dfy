/** Small facts about Euclidean division and multiplication that the pixel
    indexing and the 32-bit hash arithmetic rely on. */
module Arith {

  /** Euclidean division is unique: a quotient/remainder pair that rebuilds
      `n` is the one `/` and `%` compute. */
  lemma DivModUnique(n: int, d: int, q: int, r: int)
    requires d > 0 && 0 <= r < d && n == q * d + r
    ensures n / d == q && n % d == r
  {
    var q', r' := n / d, n % d;
    assert n == q' * d + r' && 0 <= r' < d;
    assert (q' - q) * d == r - r';
    if q' > q {
      MulAtLeast(q' - q, d);
    } else if q' < q {
      MulAtLeast(q - q', d);
    }
  }

  lemma MulAtLeast(a: int, d: int)
    requires a >= 1 && d > 0
    ensures a * d >= d
  {
    assert a * d == (a - 1) * d + d;
    assert (a - 1) * d >= 0;
  }

  /** Multiplication by a natural number is monotone. */
  lemma MulMonotone(a: int, b: int, c: nat)
    requires a <= b
    ensures a * c <= b * c
  {
    assert b * c - a * c == (b - a) * c;
  }

  /** Adding a multiple of `d` leaves the remainder alone. */
  lemma ModAddMultiple(n: int, k: int, d: int)
    requires d > 0
    ensures (n + k * d) % d == n % d
  {
    DivModUnique(n + k * d, d, n / d + k, n % d);
  }

  /** A row-major cell index lies inside the grid. */
  lemma CellInGrid(w: nat, h: nat, x: nat, y: nat)
    requires x < w && y < h
    ensures y * w + x < w * h
  {
    MulMonotone(y + 1, h, w);
    assert (y + 1) * w == y * w + w;
  }

  /** A row-major cell index decomposes back into its column and row. */
  lemma CellDecompose(w: nat, x: nat, y: nat)
    requires x < w
    ensures (y * w + x) / w == y && (y * w + x) % w == x
  {
    DivModUnique(y * w + x, w, y, x);
  }

  /** Every index below `w * h` is the row-major index of a cell. */
  lemma CellOfIndex(w: nat, h: nat, p: nat)
    requires p < w * h
    ensures w > 0 && p % w < w && p / w < h && p == (p / w) * w + p % w
  {
    if p / w >= h {
      MulMonotone(h, p / w, w);
      assert false;
    }
  }

  /** Byte `k` of a `w` by `h` grid of four-byte cells is byte `k % 4` of
      cell (column, row) = ((k / 4) % w, (k / 4) / w). */
  lemma ByteOfCell(w: nat, h: nat, k: nat)
    requires k < w * h * 4
    ensures w > 0 && 0 <= (k / 4) % w < w && 0 <= (k / 4) / w < h
    ensures (((k / 4) / w) * w + (k / 4) % w) * 4 + k % 4 == k
  {
    var m := w * h;
    var p := k / 4;
    assert p < m;
    CellOfIndex(w, h, p);
  }

  /** One step of writing `n` in radix `d`: the quotient is a smaller
      positive number and the remainder a digit. */
  lemma DivStep(n: nat, d: nat)
    requires d >= 2 && n >= d
    ensures 1 <= n / d < n && 0 <= n % d < d && n == (n / d) * d + n % d
  {
    var q := n / d;
    assert n == q * d + n % d;
    if q <= 0 {
      assert false;
    }
    MulMonotone(2, d, q);
  }
}
