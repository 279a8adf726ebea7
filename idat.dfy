/**
 * DirectBitmap.IDATStream: the sink behind the zlib stream of SavePNG. Compressed bytes
 * collect in a pending buffer whose capacity is the approximate IDAT size; a write that would
 * overflow the buffer first flushes it as one IDAT chunk (PNG Specification, section 11.2.4),
 * whose CRC is kept running over "IDAT" and the pending bytes and reseeded after every flush.
 *
 * The chunking is stated twice: once as a pure reference (Feed, FeedAll, Chunking) and once
 * as the stream class whose methods are proved to follow it.
 */
module Idat {
  import opened Arith
  import opened Seqs
  import opened Png

  /** The destination stream: everything written to it, in order. */
  class OutputStream {
    var data: seq<byte>

    constructor ()
      ensures data == []
    {
      data := [];
    }

    method Write(bytes: seq<byte>)
      modifies this
      ensures data == old(data) + bytes
    {
      data := data + bytes;
    }
  }

  /** The IDAT chunks that carry the given payloads, one chunk per payload, in order. */
  function Frames(payloads: seq<seq<byte>>, crc: Crc32): seq<byte>
  {
    if payloads == [] then []
    else Frames(payloads[..|payloads| - 1], crc) + Chunk(IDAT, payloads[|payloads| - 1], crc)
  }

  lemma FramesSnoc(payloads: seq<seq<byte>>, p: seq<byte>, crc: Crc32)
    ensures Frames(payloads + [p], crc) == Frames(payloads, crc) + Chunk(IDAT, p, crc)
  {
    assert (payloads + [p])[..|payloads|] == payloads;
  }

  // ---------------------------------------------------------------------------------------
  // Reference definition of the chunking

  /** Chunk payloads emitted so far and the bytes still pending in the memory stream. */
  datatype Packer = Packer(chunks: seq<seq<byte>>, pending: seq<byte>)

  /** Flush: a non-empty pending buffer becomes one more chunk; an empty one emits nothing. */
  function FlushPending(s: Packer): Packer
  {
    if s.pending == [] then s else Packer(s.chunks + [s.pending], [])
  }

  /** Write(block): flush first exactly when the block does not fit, then append it to the pending bytes. */
  function Feed(s: Packer, block: seq<byte>, capacity: int): Packer
  {
    var t := if |s.pending| + |block| > capacity then FlushPending(s) else s;
    Packer(t.chunks, t.pending + block)
  }

  /** The state after writing the blocks, in order, into a fresh stream. */
  function FeedAll(blocks: seq<seq<byte>>, capacity: int): Packer
  {
    if blocks == [] then Packer([], [])
    else Feed(FeedAll(blocks[..|blocks| - 1], capacity), blocks[|blocks| - 1], capacity)
  }

  /** The chunk payloads after writing the blocks and closing the stream. */
  function Chunking(blocks: seq<seq<byte>>, capacity: int): seq<seq<byte>>
  {
    FlushPending(FeedAll(blocks, capacity)).chunks
  }

  lemma FeedAllSnoc(blocks: seq<seq<byte>>, b: seq<byte>, capacity: int)
    ensures FeedAll(blocks + [b], capacity) == Feed(FeedAll(blocks, capacity), b, capacity)
  {
    assert (blocks + [b])[..|blocks|] == blocks;
  }

  /** The emitted chunks followed by the pending bytes are exactly the bytes written. */
  lemma {:induction false} FeedAllKeepsBytes(blocks: seq<seq<byte>>, capacity: int)
    ensures Flatten(FeedAll(blocks, capacity).chunks) + FeedAll(blocks, capacity).pending == Flatten(blocks)
  {
    if blocks != [] {
      var init, b := blocks[..|blocks| - 1], blocks[|blocks| - 1];
      var s := FeedAll(init, capacity);
      FeedAllKeepsBytes(init, capacity);
      assert Flatten(blocks) == Flatten(s.chunks) + s.pending + b;
      if |s.pending| + |b| > capacity && s.pending != [] {
        FlattenSnoc(s.chunks, s.pending);
        assert FeedAll(blocks, capacity) == Packer(s.chunks + [s.pending], b);
      } else {
        assert FeedAll(blocks, capacity) == Packer(s.chunks, s.pending + b);
      }
    }
  }

  /** No chunk is ever empty. */
  lemma {:induction false} FeedAllNonEmpty(blocks: seq<seq<byte>>, capacity: int)
    ensures forall i :: 0 <= i < |FeedAll(blocks, capacity).chunks| ==> FeedAll(blocks, capacity).chunks[i] != []
  {
    if blocks != [] {
      FeedAllNonEmpty(blocks[..|blocks| - 1], capacity);
    }
  }

  /** After Close, the payloads of the IDAT chunks, concatenated, are every byte written, in order; none is empty. */
  lemma ChunkingKeepsBytes(blocks: seq<seq<byte>>, capacity: int)
    ensures Flatten(Chunking(blocks, capacity)) == Flatten(blocks)
    ensures forall i :: 0 <= i < |Chunking(blocks, capacity)| ==> Chunking(blocks, capacity)[i] != []
  {
    var s := FeedAll(blocks, capacity);
    FeedAllKeepsBytes(blocks, capacity);
    FeedAllNonEmpty(blocks, capacity);
    if s.pending != [] {
      FlattenSnoc(s.chunks, s.pending);
    }
  }

  /**
   * The capacity bounds every chunk unless a single write is larger: when no block exceeds
   * `bound`, no chunk exceeds the larger of the capacity and `bound`.
   */
  lemma {:induction false} FeedAllBound(blocks: seq<seq<byte>>, capacity: int, bound: int)
    requires 0 <= capacity
    requires forall i :: 0 <= i < |blocks| ==> |blocks[i]| <= bound
    ensures var s := FeedAll(blocks, capacity);
      |s.pending| <= Max(capacity, bound) && forall i :: 0 <= i < |s.chunks| ==> |s.chunks[i]| <= Max(capacity, bound)
  {
    if blocks != [] {
      var init, b := blocks[..|blocks| - 1], blocks[|blocks| - 1];
      var s := FeedAll(init, capacity);
      assert forall i :: 0 <= i < |init| ==> init[i] == blocks[i];
      FeedAllBound(init, capacity, bound);
      assert |b| <= bound;
      if |s.pending| + |b| > capacity && s.pending != [] {
        var cs := s.chunks + [s.pending];
        assert FeedAll(blocks, capacity) == Packer(cs, b);
        assert forall i :: 0 <= i < |cs| ==> |cs[i]| <= Max(capacity, bound) by {
          forall i | 0 <= i < |cs| ensures |cs[i]| <= Max(capacity, bound) {
            if i < |s.chunks| { assert cs[i] == s.chunks[i]; }
          }
        }
      } else if |s.pending| + |b| > capacity {
        assert FeedAll(blocks, capacity) == Packer(s.chunks, b);
      } else {
        assert FeedAll(blocks, capacity) == Packer(s.chunks, s.pending + b);
      }
    }
  }

  lemma ChunkingBound(blocks: seq<seq<byte>>, capacity: int, bound: int)
    requires 0 <= capacity
    requires forall i :: 0 <= i < |blocks| ==> |blocks[i]| <= bound
    ensures forall i :: 0 <= i < |Chunking(blocks, capacity)| ==> |Chunking(blocks, capacity)[i]| <= Max(capacity, bound)
  {
    FeedAllBound(blocks, capacity, bound);
  }

  /** When everything written fits in the capacity, Close emits it as a single chunk. */
  lemma {:induction false} FeedAllFits(blocks: seq<seq<byte>>, capacity: int)
    requires |Flatten(blocks)| <= capacity
    ensures FeedAll(blocks, capacity) == Packer([], Flatten(blocks))
  {
    if blocks != [] {
      var init, b := blocks[..|blocks| - 1], blocks[|blocks| - 1];
      assert Flatten(blocks) == Flatten(init) + b;
      FeedAllFits(init, capacity);
    }
  }

  lemma ChunkingSingle(blocks: seq<seq<byte>>, capacity: int)
    requires 0 < |Flatten(blocks)| <= capacity
    ensures Chunking(blocks, capacity) == [Flatten(blocks)]
  {
    FeedAllFits(blocks, capacity);
  }

  // ---------------------------------------------------------------------------------------
  // The stream

  /** Emitting the pending bytes as one more chunk keeps the stream's invariant. */
  lemma EmitChunk(origin: seq<byte>, chunks: seq<seq<byte>>, data: seq<byte>, written: seq<seq<byte>>, crc: Crc32)
    requires Flatten(chunks) + data == Flatten(written)
    requires forall i :: 0 <= i < |chunks| ==> chunks[i] != []
    requires data != []
    ensures origin + Frames(chunks, crc) + Chunk(IDAT, data, crc) == origin + Frames(chunks + [data], crc)
    ensures Flatten(chunks + [data]) + [] == Flatten(written)
    ensures forall i :: 0 <= i < |chunks + [data]| ==> (chunks + [data])[i] != []
  {
    FramesSnoc(chunks, data, crc);
    ConcatAssoc(origin, Frames(chunks, crc), Chunk(IDAT, data, crc));
    FlattenSnoc(chunks, data);
  }

  /** Buffering one more block keeps the stream's invariant. */
  lemma BufferBlock(chunks: seq<seq<byte>>, pending: seq<byte>, written: seq<seq<byte>>, buffer: seq<byte>)
    requires Flatten(chunks) + pending == Flatten(written)
    ensures Flatten(chunks) + (pending + buffer) == Flatten(written + [buffer])
    ensures IDAT + pending + buffer == IDAT + (pending + buffer)
  {
    FlattenSnoc(written, buffer);
    ConcatAssoc(Flatten(chunks), pending, buffer);
    ConcatAssoc(IDAT, pending, buffer);
  }

  class IdatStream {
    const baseStream: OutputStream
    /** _approxIDATSize, the initial capacity of the memory stream. */
    const capacity: int
    /** The CRC-32 function used by the running checksum. */
    const crc: Crc32
    /** Contents of the memory stream. */
    var pending: seq<byte>
    /** The bytes appended to the running CRC since its last reset. */
    var crcInput: seq<byte>
    /** The memory stream has been disposed by Close. */
    var closed: bool

    /** The base stream as it was when this stream was created. */
    ghost var origin: seq<byte>
    /** Payloads of the chunks emitted so far. */
    ghost var chunks: seq<seq<byte>>
    /** Every block written so far, in order. */
    ghost var written: seq<seq<byte>>

    ghost predicate Valid()
      reads this, baseStream
    {
      && crcInput == IDAT + pending
      && baseStream.data == origin + Frames(chunks, crc)
      && Flatten(chunks) + pending == Flatten(written)
      && (forall i :: 0 <= i < |chunks| ==> chunks[i] != [])
    }

    constructor (baseStream: OutputStream, approxIDATSize: int, crc: Crc32)
      requires 0 <= approxIDATSize
      ensures Valid() && !closed
      ensures this.baseStream == baseStream && capacity == approxIDATSize && this.crc == crc
      ensures pending == [] && crcInput == IDAT
      ensures origin == baseStream.data && chunks == [] && written == []
    {
      this.baseStream := baseStream;
      capacity := approxIDATSize;
      this.crc := crc;
      crcInput := IDAT;
      pending := [];
      closed := false;
      origin := baseStream.data;
      chunks := [];
      written := [];
    }

    /** Emits the pending bytes as one IDAT chunk (nothing when there are none) and reseeds the CRC with "IDAT". */
    method Flush()
      requires Valid() && !closed
      modifies this, baseStream
      ensures Valid() && !closed
      ensures pending == [] && crcInput == IDAT
      ensures Packer(chunks, pending) == FlushPending(old(Packer(chunks, pending)))
      ensures baseStream.data == old(baseStream.data) + (if old(pending) == [] then [] else Chunk(IDAT, old(pending), crc))
      ensures written == old(written) && origin == old(origin)
    {
      if |pending| == 0 {
        return;
      }
      ghost var before := baseStream.data;
      var data := pending;
      ghost var size, sum := BE32(|data|), BE32(crc(IDAT + data) as int);
      baseStream.Write(BE32(|pending|));
      baseStream.Write(IDAT);
      baseStream.Write(pending);
      pending := [];
      baseStream.Write(BE32(crc(crcInput) as int));
      crcInput := IDAT;
      assert baseStream.data == before + size + IDAT + data + sum;
      ConcatAssoc(before, size, IDAT);
      ConcatAssoc(before, size + IDAT, data);
      ConcatAssoc(before, size + IDAT + data, sum);
      assert baseStream.data == before + Chunk(IDAT, data, crc);
      EmitChunk(origin, chunks, data, written, crc);
      chunks := chunks + [data];
      assert crcInput == IDAT + pending;
    }

    /** Write(ReadOnlySpan<byte>): flush first when the block does not fit, then buffer it and add it to the CRC. */
    method Write(buffer: seq<byte>)
      requires Valid() && !closed
      modifies this, baseStream
      ensures Valid() && !closed
      ensures Packer(chunks, pending) == Feed(old(Packer(chunks, pending)), buffer, capacity)
      ensures baseStream.data == old(baseStream.data) +
        (if |old(pending)| + |buffer| > capacity && old(pending) != [] then Chunk(IDAT, old(pending), crc) else [])
      ensures written == old(written) + [buffer] && origin == old(origin)
    {
      if |pending| + |buffer| > capacity {
        Flush();
      }
      ghost var mid := Packer(chunks, pending);
      assert mid == if |old(pending)| + |buffer| > capacity then FlushPending(old(Packer(chunks, pending))) else old(Packer(chunks, pending));
      BufferBlock(chunks, pending, written, buffer);
      crcInput := crcInput + buffer;
      pending := pending + buffer;
      written := written + [buffer];
      assert Packer(chunks, pending) == Packer(mid.chunks, mid.pending + buffer);
      assert Valid();
    }

    /** WriteByte(value) is Write([value]). */
    method WriteByte(value: byte)
      requires Valid() && !closed
      modifies this, baseStream
      ensures Valid() && !closed
      ensures Packer(chunks, pending) == Feed(old(Packer(chunks, pending)), [value], capacity)
      ensures written == old(written) + [[value]] && origin == old(origin)
    {
      Write([value]);
    }

    /** Write(byte[], offset, count) writes buffer[offset .. offset + count]; the span constructor rejects other ranges. */
    method WriteRange(buffer: seq<byte>, offset: int, count: int)
      requires Valid() && !closed
      requires 0 <= offset && 0 <= count && offset + count <= |buffer|
      modifies this, baseStream
      ensures Valid() && !closed
      ensures Packer(chunks, pending) == Feed(old(Packer(chunks, pending)), buffer[offset..offset + count], capacity)
      ensures written == old(written) + [buffer[offset..offset + count]] && origin == old(origin)
    {
      Write(buffer[offset..offset + count]);
    }

    /** Close flushes the last partial chunk; the chunk payloads then hold every byte written, in order. */
    method Close()
      requires Valid() && !closed
      modifies this, baseStream
      ensures Valid() && closed
      ensures pending == [] && Flatten(chunks) == Flatten(written)
      ensures chunks == FlushPending(old(Packer(chunks, pending))).chunks
      ensures written == old(written) && origin == old(origin)
    {
      Flush();
      closed := true;
    }
  }

  /** The compressor's blocks written one after another into a fresh stream. */
  method WriteBlocks(body: IdatStream, blocks: seq<seq<byte>>)
    requires body.Valid() && !body.closed && body.chunks == [] && body.pending == []
    modifies body, body.baseStream
    ensures body.Valid() && !body.closed
    ensures Packer(body.chunks, body.pending) == FeedAll(blocks, body.capacity)
    ensures body.origin == old(body.origin)
  {
    var k := 0;
    while k < |blocks|
      invariant 0 <= k <= |blocks|
      invariant body.Valid() && !body.closed && body.origin == old(body.origin)
      invariant Packer(body.chunks, body.pending) == FeedAll(blocks[..k], body.capacity)
    {
      FeedAllSnoc(blocks[..k], blocks[k], body.capacity);
      assert blocks[..k + 1] == blocks[..k] + [blocks[k]];
      body.Write(blocks[k]);
      k := k + 1;
    }
    assert blocks[..k] == blocks;
  }
}
