/**
 * Byte-level layout of the PNG stream written by DirectBitmap.SavePNG, following the
 * PNG Specification (ISO/IEC 15948, W3C second edition): the signature (section 5.2),
 * the chunk layout length/type/data/CRC (section 5.3; the CRC covers type and data,
 * section 5.5), IHDR with bit depth 8 and colour type 6 (section 11.2.2), IEND
 * (section 11.2.5), and filter type 0 on every scanline (section 9.2).
 *
 * CRC-32 is a parameter: an uninterpreted function of the byte sequence it covers.
 */
module Png {
  import opened Arith
  import opened Seqs

  newtype byte = x: int | 0 <= x < 256
  newtype uint32 = x: int | 0 <= x < 0x1_0000_0000

  /** CRC-32 of a byte sequence (System.IO.Hashing.Crc32); its polynomial arithmetic is not modelled. */
  type Crc32 = seq<byte> -> uint32

  const Signature: seq<byte> := [0x89, 0x50, 0x4E, 0x47, 0x0D, 0x0A, 0x1A, 0x0A]
  const IHDR: seq<byte> := [0x49, 0x48, 0x44, 0x52]
  const IDAT: seq<byte> := [0x49, 0x44, 0x41, 0x54]
  const IEND: seq<byte> := [0x49, 0x45, 0x4E, 0x44]

  /**
   * BinaryPrimitives.WriteInt32BigEndian / WriteUInt32BigEndian: the four bytes of n modulo 2^32,
   * most significant first (a negative int is written in two's complement).
   */
  function BE32(n: int): (r: seq<byte>)
    ensures |r| == 4
  {
    var u := n % TwoTo32;
    var q1 := u / 0x100;
    var q2 := q1 / 0x100;
    [(q2 / 0x100) as byte, (q2 % 0x100) as byte, (q1 % 0x100) as byte, (u % 0x100) as byte]
  }

  /** Read back most significant byte first, the four bytes are n modulo 2^32. */
  lemma BE32Value(n: int)
    ensures var r := BE32(n); ((r[0] as int * 0x100 + r[1] as int) * 0x100 + r[2] as int) * 0x100 + r[3] as int == n % TwoTo32
  {
    var u := n % TwoTo32;
    var q1 := u / 0x100;
    var q2 := q1 / 0x100;
    assert u == q1 * 0x100 + u % 0x100;
    assert q1 == q2 * 0x100 + q1 % 0x100;
    assert q2 == q2 / 0x100 * 0x100 + q2 % 0x100;
  }

  /** A PNG chunk: big-endian data length, the 4-byte type, the data, and the CRC of type ++ data. */
  function Chunk(tag: seq<byte>, data: seq<byte>, crc: Crc32): seq<byte> {
    BE32(|data|) + tag + data + BE32(crc(tag + data) as int)
  }

  /** IHDR data: width, height, bit depth 8, colour type 6 (RGBA), compression 0, filter 0, no interlace. */
  function IhdrData(width: int, height: int): seq<byte> {
    BE32(width) + BE32(height) + [8, 6, 0, 0, 0]
  }

  /** What a PNG stream starts with: the signature and the IHDR chunk. */
  function PngHeader(width: int, height: int, crc: Crc32): seq<byte> {
    Signature + Chunk(IHDR, IhdrData(width, height), crc)
  }

  /** The PNGHeader template of the source: zeros where width, height and CRC are patched in. */
  const HeaderTemplate: seq<byte> :=
    Signature + [0x00, 0x00, 0x00, 0x0D] + IHDR + [0, 0, 0, 0, 0, 0, 0, 0] + [0x08, 0x06, 0x00, 0x00, 0x00] + [0, 0, 0, 0]

  /** The PNGFooter constant: an empty IEND chunk whose CRC bytes AE 42 60 82 are taken as given. */
  const PngFooter: seq<byte> := [0x00, 0x00, 0x00, 0x00, 0x49, 0x45, 0x4E, 0x44, 0xAE, 0x42, 0x60, 0x82]

  /** The footer constant is the IEND chunk for any CRC-32 that gives IEND the checksum 0xAE426082. */
  lemma FooterIsIendChunk(crc: Crc32)
    requires crc(IEND) == 0xAE42_6082
    ensures PngFooter == Chunk(IEND, [], crc)
  {
    assert IEND + [] == IEND;
  }

  lemma TemplateParts()
    ensures |HeaderTemplate| == 33
    ensures HeaderTemplate[..12] == Signature + BE32(13)
    ensures HeaderTemplate[12..16] == IHDR && HeaderTemplate[24..29] == [8, 6, 0, 0, 0]
  {
    assert BE32(13) == [0, 0, 0, 13] by { assert 13 % TwoTo32 == 13; }
  }

  /**
   * Byte positions of the header: the signature, the IHDR length 13 and tag, big-endian width at 16
   * and height at 20, the bytes 8, 6, 0, 0, 0 at 24..28, and at 29 the CRC of bytes 12..28.
   */
  lemma HeaderLayout(width: int, height: int, crc: Crc32)
    ensures var header := PngHeader(width, height, crc);
      && |header| == 33
      && header[..8] == Signature
      && header[8..12] == BE32(13) && header[12..16] == IHDR
      && header[16..20] == BE32(width) && header[20..24] == BE32(height)
      && header[24..29] == [8, 6, 0, 0, 0]
      && header[29..] == BE32(crc(header[12..29]) as int)
  {
    var data := IhdrData(width, height);
    var header := PngHeader(width, height, crc);
    assert |data| == 13;
    assert header == Signature + BE32(13) + IHDR + data + BE32(crc(IHDR + data) as int);
    assert header[12..29] == IHDR + data;
  }

  /** BinaryPrimitives.WriteInt32BigEndian(span[at..], n) on a byte buffer. */
  method WriteBigEndian(a: array<byte>, at: int, n: int)
    requires 0 <= at && at + 4 <= a.Length
    modifies a
    ensures a[..] == old(a[..at]) + BE32(n) + old(a[at + 4..])
  {
    var b := BE32(n);
    a[at], a[at + 1], a[at + 2], a[at + 3] := b[0], b[1], b[2], b[3];
    assert a[..] == old(a[..at]) + b + old(a[at + 4..]);
  }

  /** Three 4-byte writes at 16, 20 and 29 into a 33-element buffer, described by slices. */
  lemma Splices<T>(t: seq<T>, a1: seq<T>, a2: seq<T>, a3: seq<T>, w: seq<T>, h: seq<T>, c: seq<T>)
    requires |t| == 33 && |w| == 4 && |h| == 4 && |c| == 4
    requires a1 == t[..16] + w + t[20..]
    requires a2 == a1[..20] + h + a1[24..]
    requires a3 == a2[..29] + c + a2[33..]
    ensures a2[..12] == t[..12] && a2[12..29] == t[12..16] + (w + h + t[24..29])
    ensures a3 == a2[..12] + a2[12..29] + c
  {
    assert a2 == t[..16] + w + h + t[24..];
    assert a2[..12] == t[..12];
    var mid := t[12..16] + (w + h + t[24..29]);
    forall i | 0 <= i < 17 ensures a2[12 + i] == mid[i] {
      if i < 4 {
        assert a2[12 + i] == t[12 + i];
      } else if i < 8 {
        assert a2[12 + i] == w[i - 4];
      } else if i < 12 {
        assert a2[12 + i] == h[i - 8];
      } else {
        assert a2[12 + i] == t[12 + i];
      }
    }
    assert a2[12..29] == mid;
    assert a2[33..] == [];
    assert a2[..29] == a2[..12] + a2[12..29];
  }

  /** The three writes into the template give the header: width at 16, height at 20, then the CRC of bytes 12..28 at 29. */
  lemma HeaderWrites(width: int, height: int, crc: Crc32, a1: seq<byte>, a2: seq<byte>, a3: seq<byte>)
    requires a1 == HeaderTemplate[..16] + BE32(width) + HeaderTemplate[20..]
    requires a2 == a1[..20] + BE32(height) + a1[24..]
    requires a3 == a2[..29] + BE32(crc(a2[12..29]) as int) + a2[33..]
    ensures a3 == PngHeader(width, height, crc)
  {
    TemplateParts();
    Splices(HeaderTemplate, a1, a2, a3, BE32(width), BE32(height), BE32(crc(a2[12..29]) as int));
    var data := IhdrData(width, height);
    assert a2[12..29] == IHDR + data;
    assert |data| == 13;
    ConcatAssoc(Signature, BE32(13), IHDR + data + BE32(crc(IHDR + data) as int));
    ConcatAssoc(Signature + BE32(13), IHDR + data, BE32(crc(IHDR + data) as int));
  }

  /**
   * The 33-byte header of SavePNG: the template is copied into a scratch buffer, then width,
   * height and the CRC of bytes 12..28 are written at 16, 20 and 29.
   */
  method BuildHeader(width: int, height: int, crc: Crc32) returns (header: seq<byte>)
    ensures header == PngHeader(width, height, crc)
  {
    TemplateParts();
    var h := new byte[33](i requires 0 <= i < 33 => HeaderTemplate[i]);
    assert h[..] == HeaderTemplate;
    WriteBigEndian(h, 16, width);
    ghost var a1 := h[..];
    WriteBigEndian(h, 20, height);
    ghost var a2 := h[..];
    WriteBigEndian(h, 29, crc(h[12..29]) as int);
    header := h[..];
    HeaderWrites(width, height, crc, a1, a2, header);
  }

  // Pixels: the buffer holds 0xAARRGGBB words (GDI+ Format32bppArgb), little-endian in memory.

  function Blue(px: bv32): byte { (px & 0xFF) as int as byte }
  function Green(px: bv32): byte { ((px >> 8) & 0xFF) as int as byte }
  function Red(px: bv32): byte { ((px >> 16) & 0xFF) as int as byte }
  function Alpha(px: bv32): byte { ((px >> 24) & 0xFF) as int as byte }

  /** Little-endian bytes of one word, as MemoryMarshal.AsBytes lays them out. */
  function LE32(px: bv32): seq<byte> {
    [Blue(px), Green(px), Red(px), Alpha(px)]
  }

  /** The per-pixel channel swap of SavePNG: keep bytes 1 and 3, exchange bytes 0 and 2. */
  function Reorder(px: bv32): bv32 {
    (px & 0xFF00_FF00) | (px & 0x00FF_00FF).RotateRight(16)
  }

  /** Reordering turns the native B,G,R,A byte order into PNG's R,G,B,A, and undoing it restores the pixel. */
  lemma ReorderIsRgba(px: bv32)
    ensures LE32(Reorder(px)) == [Red(px), Green(px), Blue(px), Alpha(px)]
    ensures Reorder(Reorder(px)) == px
  {
  }

  /** MemoryMarshal.AsBytes of a word sequence. */
  function AsBytes(words: seq<bv32>): (r: seq<byte>)
    ensures |r| == 4 * |words|
  {
    if words == [] then [] else LE32(words[0]) + AsBytes(words[1..])
  }

  function ReorderRow(row: seq<bv32>): (r: seq<bv32>)
    ensures |r| == |row| && forall i :: 0 <= i < |row| ==> r[i] == Reorder(row[i])
  {
    seq(|row|, i requires 0 <= i < |row| => Reorder(row[i]))
  }

  /** One PNG scanline: filter type 0, then every pixel of the row as R,G,B,A. */
  function Scanline(row: seq<bv32>): (r: seq<byte>)
    ensures |r| == 4 * |row| + 1 && r[0] == 0
  {
    [0] + AsBytes(ReorderRow(row))
  }

  /** Row y of a row-major pixel sequence whose rows are w wide. */
  function Row(pixels: seq<bv32>, w: nat, y: nat): (r: seq<bv32>)
    requires y * w + w <= |pixels|
    ensures |r| == w
  {
    pixels[y * w .. y * w + w]
  }

  /** The scanlines of the first h rows of a row-major image whose rows are w wide, top to bottom. */
  function Scanlines(pixels: seq<bv32>, w: nat, h: nat): (r: seq<seq<byte>>)
    requires h * w <= |pixels|
    ensures |r| == h
  {
    if h == 0 then []
    else
      MulSucc(h - 1, w);
      Scanlines(pixels, w, h - 1) + [Scanline(Row(pixels, w, h - 1))]
  }

  /** The uncompressed image data handed to zlib: the concatenated scanlines of h rows. */
  function RawImage(pixels: seq<bv32>, w: nat, h: nat): seq<byte>
    requires h * w <= |pixels|
  {
    Flatten(Scanlines(pixels, w, h))
  }

  /** One more row appends its scanline to the raw image. */
  lemma RawImageStep(pixels: seq<bv32>, w: nat, y: nat)
    requires (y + 1) * w <= |pixels|
    ensures y * w + w <= |pixels|
    ensures RawImage(pixels, w, y + 1) == RawImage(pixels, w, y) + Scanline(Row(pixels, w, y))
  {
    MulSucc(y, w);
    FlattenSnoc(Scanlines(pixels, w, y), Scanline(Row(pixels, w, y)));
  }

  /**
   * Writing the filter byte 0 and then a line holding the reordered pixels of row y extends the
   * raw image by row y.
   */
  lemma ScanlineStep(raw: seq<byte>, line: seq<bv32>, pixels: seq<bv32>, w: nat, y: nat)
    requires (y + 1) * w <= |pixels|
    requires raw == RawImage(pixels, w, y)
    requires y * w + w <= |pixels| && line == ReorderRow(Row(pixels, w, y))
    ensures raw + [0] + AsBytes(line) == RawImage(pixels, w, y + 1)
  {
    RawImageStep(pixels, w, y);
    ConcatAssoc(raw, [0], AsBytes(line));
  }

  /** AsBytes is four bytes per word, and word i sits at bytes 4i .. 4i+3. */
  lemma {:induction false} AsBytesAt(words: seq<bv32>, i: int)
    requires 0 <= i < |words|
    ensures |AsBytes(words)| == 4 * |words|
    ensures AsBytes(words)[4 * i .. 4 * i + 4] == LE32(words[i])
    decreases |words|
  {
    if i == 0 {
    } else {
      AsBytesAt(words[1..], i - 1);
    }
  }

  /**
   * Channel order on the wire: byte 0 of a scanline is the filter type 0, and pixel x of the row
   * occupies bytes 1+4x .. 4+4x as red, green, blue, alpha.
   */
  lemma ScanlineLayout(row: seq<bv32>, x: int)
    requires 0 <= x < |row|
    ensures |Scanline(row)| == 4 * |row| + 1 && Scanline(row)[0] == 0
    ensures Scanline(row)[1 + 4 * x .. 5 + 4 * x] == [Red(row[x]), Green(row[x]), Blue(row[x]), Alpha(row[x])]
  {
    var words := ReorderRow(row);
    AsBytesAt(words, x);
    assert Scanline(row)[1 + 4 * x .. 5 + 4 * x] == AsBytes(words)[4 * x .. 4 * x + 4];
    ReorderIsRgba(row[x]);
  }

  lemma {:induction false} ScanlinesAt(pixels: seq<bv32>, w: nat, h: nat, y: nat)
    requires h * w <= |pixels| && y < h
    ensures y * w + w <= |pixels|
    ensures Scanlines(pixels, w, h)[y] == Scanline(Row(pixels, w, y))
  {
    MulSucc(y, w);
    MulLe(y + 1, h, w);
    MulSucc(h - 1, w);
    if y < h - 1 {
      ScanlinesAt(pixels, w, h - 1, y);
    }
  }

  /**
   * The raw image is h scanlines of n = 4w+1 bytes, and row y of the image is the scanline
   * at bytes y*n .. y*n+n.
   */
  lemma RawImageRow(pixels: seq<bv32>, w: nat, h: nat, y: nat)
    requires h * w <= |pixels| && y < h
    ensures y * w + w <= |pixels|
    ensures |RawImage(pixels, w, h)| == h * (4 * w + 1)
    ensures 0 <= y * (4 * w + 1) && y * (4 * w + 1) + (4 * w + 1) <= h * (4 * w + 1)
    ensures var n := 4 * w + 1; RawImage(pixels, w, h)[y * n .. y * n + n] == Scanline(Row(pixels, w, y))
  {
    MulSucc(y, 4 * w + 1);
    MulLe(y + 1, h, 4 * w + 1);
    MulLe(0, y, 4 * w + 1);
    var lines := Scanlines(pixels, w, h);
    forall i | 0 <= i < h ensures |lines[i]| == 4 * w + 1 {
      ScanlinesAt(pixels, w, h, i);
    }
    ScanlinesAt(pixels, w, h, y);
    FlattenAt(lines, 4 * w + 1, y);
  }
}
