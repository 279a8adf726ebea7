/**
 * DirectBitmap: a 32-bit ARGB pixel buffer, row-major, `width` pixels per row, that GDI+ draws
 * into directly. Pixels are little-endian 0xAARRGGBB words. The buffer is copied into other
 * buffers block by block, filled with a colour, and written out as a PNG image.
 */
module DirectBitmaps {
  import opened Arith
  import opened Seqs
  import opened Drawing
  import opened Png
  import opened Idat

  /**
   * The zlib compressor (ZLibStream at SmallestSize): given every byte written into it, the
   * blocks it writes into the stream beneath it, in order.
   */
  type Deflate = seq<byte> -> seq<seq<byte>>

  /**
   * The bytes SavePNG writes for a w-by-h buffer: the header, the compressed scanlines in IDAT
   * chunks of about approxIDATSize bytes, and the footer.
   */
  function PngFile(pixels: seq<bv32>, w: nat, h: nat, deflate: Deflate, approxIDATSize: int, crc: Crc32): seq<byte>
    requires h * w <= |pixels|
  {
    PngHeader(w, h, crc) + Frames(Chunking(deflate(RawImage(pixels, w, h)), approxIDATSize), crc) + PngFooter
  }

  /** Pixel (x, y) of a row-major w-by-h buffer. */
  function Px(s: seq<bv32>, w: int, h: int, x: int, y: int): bv32
    requires |s| == w * h && 0 <= x < w && 0 <= y < h
  {
    OffsetInside(w, h, x, y);
    s[Offset(w, x, y)]
  }

  /**
   * `d` is `d0` with the top-left r.width-by-r.height block of the sw-by-sh buffer `s` placed at
   * (r.left, r.top); every other pixel of `d` is that of `d0`.
   */
  ghost predicate Pasted(d: seq<bv32>, d0: seq<bv32>, dw: int, dh: int, s: seq<bv32>, sw: int, sh: int, r: Rect)
    requires |d| == dw * dh && |d0| == dw * dh && |s| == sw * sh
    requires 0 <= r.width <= sw && 0 <= r.height <= sh
  {
    forall x, y :: 0 <= x < dw && 0 <= y < dh ==>
      Px(d, dw, dh, x, y) ==
        if InRect(r, x, y) then Px(s, sw, sh, x - r.left, y - r.top) else Px(d0, dw, dh, x, y)
  }

  /** `d` is `d0` with every pixel of the rectangle set to `color`, and no other pixel changed. */
  ghost predicate Filled(d: seq<bv32>, d0: seq<bv32>, w: int, h: int, r: Rect, color: bv32)
    requires |d| == w * h && |d0| == w * h
  {
    forall x, y :: 0 <= x < w && 0 <= y < h ==>
      Px(d, w, h, x, y) == if InRect(r, x, y) then color else Px(d0, w, h, x, y)
  }

  /** `d` is `d0` with `src` drawn scaled into the rectangle, and no other pixel changed. */
  ghost predicate Drawn(d: seq<bv32>, d0: seq<bv32>, w: int, h: int, r: Rect, src: Image, resample: Resampler)
    requires |d| == w * h && |d0| == w * h
  {
    forall x, y :: 0 <= x < w && 0 <= y < h ==>
      Px(d, w, h, x, y) ==
        if InRect(r, x, y) then resample(src, r.width, r.height, x - r.left, y - r.top) else Px(d0, w, h, x, y)
  }

  /** `d` is `d0` with the run of `count` elements from `start` on set to `color` (Array.Fill). */
  ghost predicate RunFilled(d: seq<bv32>, d0: seq<bv32>, start: int, count: int, color: bv32) {
    |d| == |d0| && forall i :: 0 <= i < |d| ==> d[i] == if start <= i < start + count then color else d0[i]
  }

  /** `d` is `d0` with `count` elements of `s`, from `from` on, copied to `to` on (Span.CopyTo). */
  ghost predicate RunCopied(d: seq<bv32>, d0: seq<bv32>, to: int, s: seq<bv32>, from: int, count: int)
    requires 0 <= from && 0 <= count && from + count <= |s|
  {
    |d| == |d0| && forall i :: 0 <= i < |d| ==> d[i] == if to <= i < to + count then s[from + (i - to)] else d0[i]
  }

  /**
   * Copying row y of the source block (it starts at sOff) to the run of `d` starting at dOff,
   * row r.top + y, extends the pasted block by that row.
   */
  lemma PasteRow(d: seq<bv32>, d1: seq<bv32>, d0: seq<bv32>, dw: int, dh: int, s: seq<bv32>, sw: int, sh: int,
                 r: Rect, y: int, dOff: int, sOff: int, cw: int)
    requires |d| == dw * dh && |d0| == dw * dh && |s| == sw * sh
    requires 0 <= r.width <= sw && 0 <= y < sh && r.height == y && cw == r.width
    requires 0 <= r.left && r.left + r.width <= dw
    requires dOff == Offset(dw, r.left, r.top + y) && sOff == Offset(sw, 0, y) && 0 <= sOff && sOff + cw <= |s|
    requires Pasted(d, d0, dw, dh, s, sw, sh, r)
    requires RunCopied(d1, d, dOff, s, sOff, cw)
    ensures Pasted(d1, d0, dw, dh, s, sw, sh, r.(height := y + 1))
  {
    forall x, yy | 0 <= x < dw && 0 <= yy < dh
      ensures Px(d1, dw, dh, x, yy) ==
        if InRect(r.(height := y + 1), x, yy) then Px(s, sw, sh, x - r.left, yy - r.top) else Px(d0, dw, dh, x, yy)
    {
      OffsetInside(dw, dh, x, yy);
      RowSpan(dw, x, yy, r.top + y, r.left, r.left + r.width);
      var i := Offset(dw, x, yy);
      assert Px(d1, dw, dh, x, yy) == d1[i];
      if dOff <= i < dOff + r.width {
        assert yy - r.top == y && 0 <= x - r.left < r.width;
        OffsetInside(sw, sh, x - r.left, y);
        assert d1[i] == s[Offset(sw, x - r.left, y)];
        assert Px(s, sw, sh, x - r.left, yy - r.top) == s[Offset(sw, x - r.left, y)];
        assert InRect(r.(height := y + 1), x, yy);
      } else {
        assert Px(d, dw, dh, x, yy) == d[i];
        assert InRect(r.(height := y + 1), x, yy) == InRect(r, x, yy);
      }
    }
  }

  /** Filling the run of row r.top + y that starts at `off` extends the filled rectangle by that row. */
  lemma FillRow(d: seq<bv32>, d1: seq<bv32>, d0: seq<bv32>, w: int, h: int, r: Rect, y: int, color: bv32, off: int, cw: int)
    requires |d| == w * h && |d0| == w * h
    requires 0 <= r.left && 0 <= r.width && r.left + r.width <= w && 0 <= y == r.height && cw == r.width
    requires off == Offset(w, r.left, r.top + y)
    requires Filled(d, d0, w, h, r, color)
    requires RunFilled(d1, d, off, cw, color)
    ensures Filled(d1, d0, w, h, r.(height := y + 1), color)
  {
    forall x, yy | 0 <= x < w && 0 <= yy < h
      ensures Px(d1, w, h, x, yy) == if InRect(r.(height := y + 1), x, yy) then color else Px(d0, w, h, x, yy)
    {
      OffsetInside(w, h, x, yy);
      RowSpan(w, x, yy, r.top + y, r.left, r.left + r.width);
      var i := Offset(w, x, yy);
      assert Px(d1, w, h, x, yy) == d1[i];
      if off <= i < off + r.width {
        assert InRect(r.(height := y + 1), x, yy);
      } else {
        assert Px(d, w, h, x, yy) == d[i];
        assert InRect(r.(height := y + 1), x, yy) == InRect(r, x, yy);
      }
    }
  }

  /**
   * Array.Fill over one flat run: when the rectangle spans whole rows, the run
   * [top*w, top*w + w*height) is exactly its pixels.
   */
  lemma FillRows(d: seq<bv32>, d0: seq<bv32>, w: int, h: int, r: Rect, color: bv32, start: int, count: int)
    requires |d| == w * h && |d0| == w * h
    requires r.left == 0 && r.width == w && start == r.top * w + r.left && count == r.width * r.height
    requires RunFilled(d, d0, start, count, color)
    ensures Filled(d, d0, w, h, r, color)
  {
    forall x, y | 0 <= x < w && 0 <= y < h
      ensures Px(d, w, h, x, y) == if InRect(r, x, y) then color else Px(d0, w, h, x, y)
    {
      OffsetInside(w, h, x, y);
      BlockSpan(w, x, y, r.top, r.height);
    }
  }

  class DirectBitmap {
    const width: int
    const height: int
    /** Bits: the pixel words, row-major. */
    const bits: array<bv32>
    var disposed: bool
    /** How many times the GDI+ bitmap and the pinned handle have been released. */
    ghost var releases: nat

    ghost predicate Valid()
      reads this
    {
      && 0 < width && 0 < height && width * height <= MaxInt32
      && bits.Length == width * height
      && releases == (if disposed then 1 else 0)
    }

    /** DirectBitmap(width, height): an uninitialised buffer of width * height pixels. */
    constructor (width: int, height: int)
      requires 0 < width && 0 < height && width * height <= MaxInt32
      ensures Valid() && !disposed
      ensures this.width == width && this.height == height && fresh(bits)
    {
      this.width := width;
      this.height := height;
      bits := new bv32[width * height];
      disposed := false;
      releases := 0;
    }

    /** DirectBitmap(src, size): a new buffer of the given size into which `src` is drawn scaled. */
    constructor FromImage(src: Image, w: int, h: int, resample: Resampler)
      requires 0 < w && 0 < h && w * h <= MaxInt32
      ensures Valid() && !disposed
      ensures width == w && height == h && fresh(bits)
      ensures forall x, y :: 0 <= x < w && 0 <= y < h ==> Px(bits[..], w, h, x, y) == resample(src, w, h, x, y)
    {
      width := w;
      height := h;
      bits := new bv32[w * h](i requires 0 <= i < w * h => resample(src, w, h, i % w, i / w));
      disposed := false;
      releases := 0;
      new;
      forall x, y | 0 <= x < w && 0 <= y < h
        ensures Px(bits[..], w, h, x, y) == resample(src, w, h, x, y)
      {
        OffsetInside(w, h, x, y);
        IndexOfOffset(w, x, y);
      }
    }

    /** Bits.AsSpan(from, count).CopyTo(dst.Bits.AsSpan(to)): copies a run of `count` pixels. */
    method CopyRun(dst: DirectBitmap, from: int, to: int, count: int)
      requires dst.bits != bits
      requires 0 <= from && 0 <= count && from + count <= bits.Length
      requires 0 <= to && to + count <= dst.bits.Length
      modifies dst.bits
      ensures RunCopied(dst.bits[..], old(dst.bits[..]), to, bits[..], from, count)
    {
      forall i | to <= i < to + count {
        dst.bits[i] := bits[from + (i - to)];
      }
    }

    /**
     * CopyTo(dst, rect): row y of this buffer, its first rect.width pixels, goes to row
     * rect.top + y of `dst` from column rect.left on, for every one of this buffer's `height`
     * rows (rect.height is not consulted).
     */
    method CopyTo(dst: DirectBitmap, rect: Rect)
      requires Valid() && dst.Valid() && dst.bits != bits
      requires 0 <= rect.width <= width
      requires 0 <= rect.left && rect.left + rect.width <= dst.width
      requires 0 <= rect.top && rect.top + height <= dst.height
      modifies dst.bits
      ensures Pasted(dst.bits[..], old(dst.bits[..]), dst.width, dst.height, old(bits[..]), width, height,
                     rect.(height := height))
    {
      var dstOffset := rect.top * dst.width + rect.left;
      var thisOffset := 0;
      var y := 0;
      while y < height
        invariant 0 <= y <= height
        invariant dstOffset == Offset(dst.width, rect.left, rect.top + y)
        invariant thisOffset == Offset(width, 0, y)
        invariant Pasted(dst.bits[..], old(dst.bits[..]), dst.width, dst.height, old(bits[..]), width, height,
                         rect.(height := y))
      {
        RowInside(width, height, 0, y, rect.width);
        RowInside(dst.width, dst.height, rect.left, rect.top + y, rect.width);
        ghost var before := dst.bits[..];
        assert bits[..] == old(bits[..]);
        CopyRun(dst, thisOffset, dstOffset, rect.width);
        PasteRow(before, dst.bits[..], old(dst.bits[..]), dst.width, dst.height, old(bits[..]), width, height,
                 rect.(height := y), y, dstOffset, thisOffset, rect.width);
        MulSucc(rect.top + y, dst.width);
        MulSucc(y, width);
        y, dstOffset, thisOffset := y + 1, dstOffset + dst.width, thisOffset + width;
      }
    }

    /**
     * CopyTo(dst, lt): copies to `lt`, clipping the width to the destination's right edge; the
     * height it computes is discarded by CopyTo(dst, rect), so the whole height is copied.
     */
    method CopyToPoint(dst: DirectBitmap, lt: Point)
      requires Valid() && dst.Valid() && dst.bits != bits
      requires 0 <= lt.x <= dst.width
      requires 0 <= lt.y && lt.y + height <= dst.height
      modifies dst.bits
      ensures Pasted(dst.bits[..], old(dst.bits[..]), dst.width, dst.height, bits[..], width, height,
                     Rect(lt.x, lt.y, Min(width, dst.width - lt.x), height))
    {
      CopyTo(dst, ClipRect(width, height, dst.width, dst.height, lt));
    }

    /** CopyFrom(src, dst): draws `src` scaled into a temporary buffer of the rectangle's size and copies it to the rectangle. */
    method CopyFrom(src: Image, dst: Rect, resample: Resampler)
      requires Valid() && RectInside(dst, width, height) && 0 < dst.width && 0 < dst.height
      modifies bits
      ensures Drawn(bits[..], old(bits[..]), width, height, dst, src, resample)
    {
      MulMonotone(dst.width, width, dst.height, height);
      var dbmp := new DirectBitmap.FromImage(src, dst.width, dst.height, resample);
      dbmp.CopyToPoint(this, Point(dst.left, dst.top));
      dbmp.Dispose();
    }

    /** Array.Fill(Bits, color, start, count): sets the run of `count` pixels from `start` on. */
    method FillRun(color: bv32, start: int, count: int)
      requires 0 <= start && 0 <= count && start + count <= bits.Length
      modifies bits
      ensures RunFilled(bits[..], old(bits[..]), start, count, color)
    {
      forall i | start <= i < start + count {
        bits[i] := color;
      }
    }

    /**
     * Fill(color, rect): one Array.Fill over the flat run when the rectangle is as wide as the
     * buffer, otherwise one Array.Fill per row.
     */
    method Fill(color: bv32, rect: Rect)
      requires Valid() && RectInside(rect, width, height)
      modifies bits
      ensures Filled(bits[..], old(bits[..]), width, height, rect, color)
    {
      ghost var d0 := bits[..];
      var offset := rect.top * width + rect.left;
      if rect.width == width {
        assert rect.left == 0;
        BlockInside(rect.width, height, rect.top, rect.height);
        FillRun(color, offset, rect.width * rect.height);
        FillRows(bits[..], d0, width, height, rect, color, offset, rect.width * rect.height);
      } else {
        var y := 0;
        while y < rect.height
          invariant 0 <= y <= rect.height
          invariant offset == Offset(width, rect.left, rect.top + y)
          invariant Filled(bits[..], d0, width, height, rect.(height := y), color)
        {
          RowInside(width, height, rect.left, rect.top + y, rect.width);
          ghost var before := bits[..];
          FillRun(color, offset, rect.width);
          FillRow(before, bits[..], d0, width, height, rect.(height := y), y, color, offset, rect.width);
          MulSucc(rect.top + y, width);
          y, offset := y + 1, offset + width;
        }
      }
    }

    /**
     * The loop of SavePNG: every row, top to bottom, reordered to R,G,B,A in a reused line
     * buffer and written into the zlib stream after its filter-type byte 0. Returns what the
     * zlib stream received.
     */
    method WriteScanlines() returns (raw: seq<byte>)
      requires Valid()
      ensures raw == RawImage(bits[..], width, height)
    {
      ghost var pixels := bits[..];
      raw := [];
      var line := new bv32[width];
      var offset, y := 0, 0;
      RowsLeft(width, height, y);
      while offset < bits.Length
        invariant 0 <= y <= height && offset == Offset(width, 0, y)
        invariant offset < bits.Length <==> y < height
        invariant raw == RawImage(pixels, width, y)
      {
        RowInside(width, height, 0, y, width);
        ReorderLine(line, offset);
        MulSucc(y, width);
        ScanlineStep(raw, line[..], pixels, width, y);
        raw := raw + [0];
        raw := raw + AsBytes(line[..]);
        y, offset := y + 1, offset + width;
        RowsLeft(width, height, y);
      }
    }

    /** The inner loop of SavePNG: the pixels of one row, reordered to R,G,B,A, into the line buffer. */
    method ReorderLine(line: array<bv32>, offset: int)
      requires Valid() && line != bits && line.Length == width
      requires 0 <= offset && offset + width <= bits.Length
      modifies line
      ensures line[..] == ReorderRow(bits[offset .. offset + width])
    {
      var i := 0;
      while i < width
        invariant 0 <= i <= width
        invariant forall k :: 0 <= k < i ==> line[k] == Reorder(bits[offset + k])
      {
        line[i] := Reorder(bits[offset + i]);
        i := i + 1;
      }
    }

    /**
     * SavePNG(destination, SmallestSize, approxIDATSize): the signature and IHDR, then the
     * compressed scanlines (filter type 0, pixels reordered to R,G,B,A) in IDAT chunks of
     * about approxIDATSize bytes, then IEND.
     */
    method SavePNG(destination: OutputStream, deflate: Deflate, approxIDATSize: int, crc: Crc32)
      requires Valid() && 0 <= approxIDATSize
      modifies destination
      ensures destination.data == old(destination.data) + PngFile(bits[..], width, height, deflate, approxIDATSize, crc)
    {
      ghost var start := destination.data;
      var header := BuildHeader(width, height, crc);
      destination.Write(header);
      var raw := WriteScanlines();
      var body := new IdatStream(destination, approxIDATSize, crc);
      WriteBlocks(body, deflate(raw));
      body.Close();
      destination.Write(PngFooter);
      ghost var frames := Frames(Chunking(deflate(RawImage(bits[..], width, height)), approxIDATSize), crc);
      assert destination.data == start + header + frames + PngFooter;
      ConcatAssoc(start, header, frames);
      ConcatAssoc(start, header + frames, PngFooter);
    }

    /** Dispose: releases the GDI+ bitmap and the pinned buffer once; later calls do nothing. */
    method Dispose()
      requires Valid()
      modifies this
      ensures Valid() && disposed
      ensures releases == old(releases) + (if old(disposed) then 0 else 1)
    {
      if disposed {
        return;
      }
      disposed := true;
      releases := releases + 1;
    }
  }

  /** The rectangle CopyTo(dst, lt) passes on: the source size clipped to the destination's right and bottom edges. */
  function ClipRect(w: int, h: int, dw: int, dh: int, lt: Point): (r: Rect)
    ensures r.left == lt.x && r.top == lt.y
    ensures r.width <= w && r.height <= h && lt.x + r.width <= dw && lt.y + r.height <= dh
    ensures r.width == w || lt.x + r.width == dw
    ensures r.height == h || lt.y + r.height == dh
  {
    Rect(lt.x, lt.y, Min(w, dw - lt.x), Min(h, dh - lt.y))
  }
}
