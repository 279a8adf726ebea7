/**
 * 32-bit integer conventions of the C# source and the row-major offset
 * arithmetic that the pixel-buffer proofs rest on.
 */
module Arith {

  const MinInt32: int := -0x8000_0000
  const MaxInt32: int := 0x7FFF_FFFF
  const TwoTo32: int := 0x1_0000_0000

  /** Values of C#'s `int`. */
  predicate IsInt32(n: int) {
    MinInt32 <= n <= MaxInt32
  }

  /** Unchecked C# `int` arithmetic: the mathematical result reduced modulo 2^32 into the `int` range. */
  function Wrap32(n: int): (r: int)
    ensures IsInt32(r)
    ensures (n - r) % TwoTo32 == 0
    ensures IsInt32(n) ==> r == n
  {
    (n - MinInt32) % TwoTo32 + MinInt32
  }

  function Min(a: int, b: int): int {
    if a <= b then a else b
  }

  function Max(a: int, b: int): int {
    if a >= b then a else b
  }

  /** Index of pixel (x, y) in a row-major buffer whose rows are `w` wide. */
  function Offset(w: int, x: int, y: int): int {
    y * w + x
  }

  lemma MulSucc(a: int, b: int)
    ensures (a + 1) * b == a * b + b
  {
  }

  lemma MulLe(a: int, b: int, w: int)
    requires a <= b && 0 <= w
    ensures a * w <= b * w
  {
  }

  /** A run of n pixels of row y starting at column x0 lies inside a w-by-h buffer when it stays in the row. */
  lemma RowInside(w: int, h: int, x0: int, y: int, n: int)
    requires 0 <= x0 && 0 <= n && x0 + n <= w && 0 <= y < h
    ensures 0 <= Offset(w, x0, y) && Offset(w, x0, y) + n <= w * h
  {
    MulSucc(y, w);
    MulLe(y + 1, h, w);
    MulLe(0, y, w);
  }

  /** While rows remain, the offset of the next row lies before the end of a w-by-h buffer, and only then. */
  lemma RowsLeft(w: int, h: int, y: int)
    requires 0 < w && 0 <= y <= h
    ensures Offset(w, 0, y) < w * h <==> y < h
  {
    if y < h {
      MulSucc(y, w);
      MulLe(y + 1, h, w);
    }
  }

  /** Rows top .. top+n-1 of a w-by-h buffer occupy the flat run [top*w, top*w + w*n) inside it. */
  lemma BlockInside(w: int, h: int, top: int, n: int)
    requires 0 <= w && 0 <= top && 0 <= n && top + n <= h
    ensures 0 <= top * w && top * w + w * n <= w * h
  {
    MulLe(0, top, w);
    MulLe(top + n, h, w);
    assert (top + n) * w == top * w + w * n;
  }

  /** Whole rows before row `r` end before every pixel of row `y >= r`, and only those. */
  lemma RowOrder(w: int, x: int, y: int, r: int)
    requires 0 <= x < w
    ensures r * w <= Offset(w, x, y) <==> r <= y
  {
    if r <= y { MulLe(r, y, w); } else { MulLe(y + 1, r, w); }
  }

  /** The flat range [r*w+lo, r*w+hi) of a row-major buffer is exactly the pixels of row r with lo <= x < hi. */
  lemma RowSpan(w: int, x: int, y: int, r: int, lo: int, hi: int)
    requires 0 <= x < w && 0 <= lo <= hi <= w
    ensures r * w + lo <= Offset(w, x, y) < r * w + hi <==> y == r && lo <= x < hi
  {
    RowOrder(w, x, y, r);
    RowOrder(w, x, y, r + 1);
  }

  /** The flat range [r*w, r*w + w*n) is exactly the pixels of rows r .. r+n-1. */
  lemma BlockSpan(w: int, x: int, y: int, r: int, n: int)
    requires 0 <= x < w
    ensures r * w <= Offset(w, x, y) < r * w + w * n <==> r <= y < r + n
  {
    RowOrder(w, x, y, r);
    RowOrder(w, x, y, r + n);
  }

  /** p lies in the cell [c*s, c*s+s) exactly when p / s == c (Euclidean division). */
  lemma DivCell(p: int, c: int, s: int)
    requires 0 < s
    ensures c * s <= p < c * s + s <==> p / s == c
  {
    var q, r := p / s, p % s;
    assert p == q * s + r;
    RowOrder(s, r, q, c);
    RowOrder(s, r, q, c + 1);
  }

  /** Every pixel of a w-by-h buffer has an offset inside the buffer. */
  lemma OffsetInside(w: int, h: int, x: int, y: int)
    requires 0 <= x < w && 0 <= y < h
    ensures 0 <= Offset(w, x, y) < w * h
  {
    RowOrder(w, x, y, 0);
    RowOrder(w, x, y, h);
  }

  /** Every index of a w-by-h buffer is the offset of exactly one pixel: (i % w, i / w). */
  lemma OffsetOfIndex(w: int, h: int, i: int)
    requires 0 < w && 0 <= i < w * h
    ensures 0 <= i / w < h && i == Offset(w, i % w, i / w)
  {
    var q, r := i / w, i % w;
    assert i == q * w + r;
    RowOrder(w, r, q, 0);
    RowOrder(w, r, q, h);
  }

  /** The pixel of a row-major buffer at offset Offset(w, x, y) is (x, y) again. */
  lemma IndexOfOffset(w: int, x: int, y: int)
    requires 0 <= x < w
    ensures Offset(w, x, y) / w == y && Offset(w, x, y) % w == x
  {
    DivCell(Offset(w, x, y), y, w);
  }

  lemma MulMonotone(a: int, b: int, c: int, d: int)
    requires 0 <= a <= b && 0 <= c <= d
    ensures a * c <= b * d
  {
    MulLe(a, b, c);
    MulLe(c, d, b);
  }
}
