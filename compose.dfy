/**
 * The cell loop of Program.Process: a map's grid is laid out as columns by rows of size-by-size
 * cells, cell (cx, cy) showing grid point lt + (cx, cy). Each cell is either drawn from its tile
 * (the stored tile, or the fallback where none is stored), scaled to size-by-size, or filled
 * with transparent black when the grid shows nothing there.
 */
module Compositing {
  import opened Arith
  import opened Drawing
  import opened RefCount
  import opened MapInfos
  import opened DirectBitmaps

  /** The rectangle of cell (cx, cy). */
  function CellRect(cx: int, cy: int, size: int): Rect {
    Rect(cx * size, cy * size, size, size)
  }

  /** A pixel lies in the rectangle of exactly one cell: the one its coordinates divide into. */
  lemma InCell(cx: int, cy: int, size: int, px: int, py: int)
    requires 0 < size
    ensures InRect(CellRect(cx, cy, size), px, py) <==> px / size == cx && py / size == cy
  {
    DivCell(px, cx, size);
    DivCell(py, cy, size);
  }

  /** Every cell of a columns-by-rows layout lies inside the canvas. */
  lemma CellInside(cx: int, cy: int, columns: int, rows: int, size: int)
    requires 0 <= cx < columns && 0 <= cy < rows && 0 < size
    ensures RectInside(CellRect(cx, cy, size), columns * size, rows * size)
  {
    MulLe(0, cx, size);
    MulLe(0, cy, size);
    MulLe(cx + 1, columns, size);
    MulLe(cy + 1, rows, size);
    MulSucc(cx, size);
    MulSucc(cy, size);
  }

  /** A coordinate inside n cells belongs to one of them. */
  lemma CellBelow(p: int, n: int, size: int)
    requires 0 <= p < n * size && 0 < size
    ensures 0 <= p / size < n
  {
    DivCell(p, p / size, size);
    if p / size >= n {
      MulLe(n, p / size, size);
    }
  }

  /**
   * Pixel (px, py) of the merged image: pixel (px, py) of its cell's tile drawn at size-by-size,
   * or transparent black where the grid shows nothing.
   */
  function CellPixel(g: Grid, images: seq<Image>, resample: Resampler, lt: Point, size: int, px: int, py: int): bv32
    requires RefsWithin(g, |images|) && 0 < size
  {
    var cx, cy := px / size, py / size;
    var tile := Lookup(g, Point(lt.x + cx, lt.y + cy));
    if tile.None? then 0 else resample(images[tile.value], size, size, px - cx * size, py - cy * size)
  }

  /** The merged image: a cw-by-ch buffer, row-major, every pixel as CellPixel says. */
  function Composite(g: Grid, images: seq<Image>, resample: Resampler, lt: Point, size: int, cw: int, ch: int): (s: seq<bv32>)
    requires RefsWithin(g, |images|) && 0 < size && 0 < cw && 0 < ch
    ensures |s| == cw * ch
    ensures forall px, py :: 0 <= px < cw && 0 <= py < ch ==>
      Px(s, cw, ch, px, py) == CellPixel(g, images, resample, lt, size, px, py)
  {
    MulMonotone(0, cw, 0, ch);
    var s := seq(cw * ch, i requires 0 <= i < cw * ch => CellPixel(g, images, resample, lt, size, i % cw, i / cw));
    CompositePixels(s, g, images, resample, lt, size, cw, ch);
    s
  }

  lemma CompositePixels(s: seq<bv32>, g: Grid, images: seq<Image>, resample: Resampler, lt: Point, size: int, cw: int, ch: int)
    requires RefsWithin(g, |images|) && 0 < size && 0 < cw && 0 < ch && |s| == cw * ch
    requires forall i :: 0 <= i < |s| ==> s[i] == CellPixel(g, images, resample, lt, size, i % cw, i / cw)
    ensures forall px, py :: 0 <= px < cw && 0 <= py < ch ==>
      Px(s, cw, ch, px, py) == CellPixel(g, images, resample, lt, size, px, py)
  {
    forall px, py | 0 <= px < cw && 0 <= py < ch
      ensures Px(s, cw, ch, px, py) == CellPixel(g, images, resample, lt, size, px, py)
    {
      OffsetInside(cw, ch, px, py);
      IndexOfOffset(cw, px, py);
    }
  }

  /** Two buffers of the same size with the same pixels are equal. */
  lemma SamePixels(d: seq<bv32>, s: seq<bv32>, w: int, h: int)
    requires 0 < w && |d| == w * h && |s| == w * h
    requires forall x, y :: 0 <= x < w && 0 <= y < h ==> Px(d, w, h, x, y) == Px(s, w, h, x, y)
    ensures d == s
  {
    forall i | 0 <= i < |d|
      ensures d[i] == s[i]
    {
      OffsetOfIndex(w, h, i);
      assert Px(d, w, h, i % w, i / w) == Px(s, w, h, i % w, i / w);
    }
  }

  /** A cell precedes cell (cx, cy) in the order the loop visits them: row by row, left to right. */
  predicate Before(a: int, b: int, cx: int, cy: int) {
    b < cy || (b == cy && a < cx)
  }

  /** The pixels of every cell visited before cell (cx, cy) are those of the merged image. */
  ghost predicate DrawnUpTo(d: seq<bv32>, g: Grid, images: seq<Image>, resample: Resampler, lt: Point, size: int,
                            cw: int, ch: int, cx: int, cy: int)
    requires RefsWithin(g, |images|) && 0 < size && |d| == cw * ch
  {
    forall px, py :: 0 <= px < cw && 0 <= py < ch && Before(px / size, py / size, cx, cy) ==>
      Px(d, cw, ch, px, py) == CellPixel(g, images, resample, lt, size, px, py)
  }

  /** Filling cell (cx, cy), which shows nothing, with transparent black draws it. */
  lemma FillCell(d: seq<bv32>, d1: seq<bv32>, g: Grid, images: seq<Image>, resample: Resampler, lt: Point, size: int,
                 cw: int, ch: int, cx: int, cy: int)
    requires RefsWithin(g, |images|) && 0 < size && |d| == cw * ch && |d1| == cw * ch
    requires DrawnUpTo(d, g, images, resample, lt, size, cw, ch, cx, cy)
    requires Lookup(g, Point(lt.x + cx, lt.y + cy)).None?
    requires Filled(d1, d, cw, ch, CellRect(cx, cy, size), 0)
    ensures DrawnUpTo(d1, g, images, resample, lt, size, cw, ch, cx + 1, cy)
  {
    forall px, py | 0 <= px < cw && 0 <= py < ch && Before(px / size, py / size, cx + 1, cy)
      ensures Px(d1, cw, ch, px, py) == CellPixel(g, images, resample, lt, size, px, py)
    {
      InCell(cx, cy, size, px, py);
    }
  }

  /** Drawing the tile of cell (cx, cy) scaled into its rectangle draws the cell. */
  lemma CopyCell(d: seq<bv32>, d1: seq<bv32>, g: Grid, images: seq<Image>, resample: Resampler, lt: Point, size: int,
                 cw: int, ch: int, cx: int, cy: int, id: nat)
    requires RefsWithin(g, |images|) && 0 < size && |d| == cw * ch && |d1| == cw * ch
    requires DrawnUpTo(d, g, images, resample, lt, size, cw, ch, cx, cy)
    requires Lookup(g, Point(lt.x + cx, lt.y + cy)) == Some(id) && id < |images|
    requires Drawn(d1, d, cw, ch, CellRect(cx, cy, size), images[id], resample)
    ensures DrawnUpTo(d1, g, images, resample, lt, size, cw, ch, cx + 1, cy)
  {
    forall px, py | 0 <= px < cw && 0 <= py < ch && Before(px / size, py / size, cx + 1, cy)
      ensures Px(d1, cw, ch, px, py) == CellPixel(g, images, resample, lt, size, px, py)
    {
      InCell(cx, cy, size, px, py);
    }
  }

  /** Past the last column, the whole row is drawn. */
  lemma NextRow(d: seq<bv32>, g: Grid, images: seq<Image>, resample: Resampler, lt: Point, size: int,
                columns: int, ch: int, cy: int)
    requires RefsWithin(g, |images|) && 0 < size && 0 < columns && |d| == (columns * size) * ch
    requires DrawnUpTo(d, g, images, resample, lt, size, columns * size, ch, columns, cy)
    ensures DrawnUpTo(d, g, images, resample, lt, size, columns * size, ch, 0, cy + 1)
  {
    forall px, py | 0 <= px < columns * size && 0 <= py < ch && Before(px / size, py / size, 0, cy + 1)
      ensures Px(d, columns * size, ch, px, py) == CellPixel(g, images, resample, lt, size, px, py)
    {
      CellBelow(px, columns, size);
    }
  }

  /** Past the last row, the buffer is the merged image. */
  lemma AllDrawn(d: seq<bv32>, g: Grid, images: seq<Image>, resample: Resampler, lt: Point, size: int,
                 cw: int, rows: int)
    requires RefsWithin(g, |images|) && 0 < size && 0 < cw && 0 < rows && |d| == cw * (rows * size)
    requires DrawnUpTo(d, g, images, resample, lt, size, cw, rows * size, 0, rows)
    ensures d == Composite(g, images, resample, lt, size, cw, rows * size)
  {
    var ch := rows * size;
    MulMonotone(1, rows, 1, size);
    var s := Composite(g, images, resample, lt, size, cw, ch);
    forall px, py | 0 <= px < cw && 0 <= py < ch
      ensures Px(d, cw, ch, px, py) == Px(s, cw, ch, px, py)
    {
      CellBelow(py, rows, size);
    }
    SamePixels(d, s, cw, ch);
  }

  /**
   * Every tile the grid shows is still undisposed: drawing a disposed GDI+ bitmap (or reading
   * its size) throws.
   */
  ghost predicate Alive(g: Grid, hs: seq<Holder>)
    requires RefsWithin(g, |hs|)
  {
    (forall p :: p in g.cells ==> hs[g.cells[p]].disposals == 0) &&
    (g.fallback.Some? ==> hs[g.fallback.value].disposals == 0)
  }

  /** C#'s unchecked `x++` on an `int`: int.MaxValue steps to int.MinValue. */
  function Increment32(x: int): (r: int)
    requires IsInt32(x)
    ensures IsInt32(r)
    ensures x < MaxInt32 ==> r == x + 1
    ensures x == MaxInt32 ==> r == MinInt32
  {
    Wrap32(x + 1)
  }

  /**
   * The column loop of Process as written, `for (int x = lt.X; x <= rb.X; x++)` with int
   * arithmetic, for a map whose only column is int.MaxValue (lt.X == rb.X == int.MaxValue, one
   * column, a bitmap `size` pixels wide): after that column `x++` wraps to int.MinValue, which
   * still passes `x <= rb.X`, and the next cell's offset `(x - lt.X) * size` is `size`, so the
   * next Fill or CopyFrom targets a rectangle outside the bitmap. The row loop behaves the same
   * way for rb.Y == int.MaxValue.
   */
  lemma ColumnLoopAtMaxValue(size: int)
    requires 0 < size <= MaxInt32
    ensures Increment32(MaxInt32) <= MaxInt32
    ensures Wrap32(Wrap32(Increment32(MaxInt32) - MaxInt32) * size) == size
    ensures !RectInside(Rect(Wrap32(Wrap32(Increment32(MaxInt32) - MaxInt32) * size), 0, size, size), size, size)
  {
    assert Wrap32(MinInt32 - MaxInt32) == 1;
  }

  /** Whatever the column, the guard `x <= rb.X` with rb.X == int.MaxValue holds after `x++`: the loop never ends by its guard. */
  lemma GuardAtMaxValue(x: int)
    requires IsInt32(x)
    ensures Increment32(x) <= MaxInt32
  {
  }

  /**
   * The inner loop over the grid points from lt.x to rb.x in row y: each cell is filled with 0
   * when the indexer yields nothing and otherwise gets the tile drawn into it.
   */
  method DrawRow(dbmp: DirectBitmap, info: MapInfo, arena: Arena, lt: Point, rb: Point, y: int, size: int,
                 resample: Resampler)
    requires dbmp.Valid() && 0 < size && lt.x <= rb.x && lt.y <= y <= rb.y
    requires dbmp.width == (rb.x - lt.x + 1) * size && dbmp.height == (rb.y - lt.y + 1) * size
    requires RefsWithin(info.State(), |arena.holders|) && Alive(info.State(), arena.holders)
    requires DrawnUpTo(dbmp.bits[..], info.State(), Images(arena.holders), resample, lt, size, dbmp.width, dbmp.height,
                       0, y - lt.y)
    modifies dbmp.bits
    ensures DrawnUpTo(dbmp.bits[..], info.State(), Images(arena.holders), resample, lt, size, dbmp.width, dbmp.height,
                      0, y - lt.y + 1)
  {
    ghost var g := info.State();
    ghost var images := Images(arena.holders);
    ghost var columns, rows := rb.x - lt.x + 1, rb.y - lt.y + 1;
    ghost var cw, ch := dbmp.width, dbmp.height;
    var offy := (y - lt.y) * size;
    var x := lt.x;
    while x <= rb.x
      invariant lt.x <= x <= rb.x + 1
      invariant DrawnUpTo(dbmp.bits[..], g, images, resample, lt, size, cw, ch, x - lt.x, y - lt.y)
    {
      var offx := (x - lt.x) * size;
      var tile := info.Get(x, y);
      var rect := Rect(offx, offy, size, size);
      assert rect == CellRect(x - lt.x, y - lt.y, size);
      CellInside(x - lt.x, y - lt.y, columns, rows, size);
      ghost var before := dbmp.bits[..];
      if tile.None? {
        dbmp.Fill(0, rect);
        FillCell(before, dbmp.bits[..], g, images, resample, lt, size, cw, ch, x - lt.x, y - lt.y);
      } else {
        dbmp.CopyFrom(arena.holders[tile.value].value, rect, resample);
        CopyCell(before, dbmp.bits[..], g, images, resample, lt, size, cw, ch, x - lt.x, y - lt.y, tile.value);
      }
      x := x + 1;
    }
    NextRow(dbmp.bits[..], g, images, resample, lt, size, columns, ch, y - lt.y);
  }

  /**
   * The two loops over the grid points from lt to rb, row by row. The result is the merged
   * image, whatever the buffer held before.
   */
  method Compose(dbmp: DirectBitmap, info: MapInfo, arena: Arena, lt: Point, rb: Point, size: int, resample: Resampler)
    requires dbmp.Valid() && 0 < size && lt.x <= rb.x && lt.y <= rb.y
    requires dbmp.width == (rb.x - lt.x + 1) * size && dbmp.height == (rb.y - lt.y + 1) * size
    requires RefsWithin(info.State(), |arena.holders|) && Alive(info.State(), arena.holders)
    modifies dbmp.bits
    ensures dbmp.bits[..] == Composite(info.State(), Images(arena.holders), resample, lt, size, dbmp.width, dbmp.height)
  {
    ghost var g := info.State();
    ghost var images := Images(arena.holders);
    ghost var cw, rows := dbmp.width, rb.y - lt.y + 1;
    var y := lt.y;
    while y <= rb.y
      invariant lt.y <= y <= rb.y + 1
      invariant DrawnUpTo(dbmp.bits[..], g, images, resample, lt, size, cw, rows * size, 0, y - lt.y)
    {
      DrawRow(dbmp, info, arena, lt, rb, y, size, resample);
      y := y + 1;
    }
    assert dbmp.bits.Length == cw * (rows * size);
    AllDrawn(dbmp.bits[..], g, images, resample, lt, size, cw, rows);
  }
}
