/** The compact layouts of the data-plane payloads
    (crates/rx11-core/src/protocol/binary.rs). */
module BinaryCodec {
  import opened Bytes
  import opened Messages

  const MAX_FRAME_SIZE: nat := 16 * 1024 * 1024

  predicate Fits32(n: nat) { n < 0x1_0000_0000 }

  // --------------------------------------------------------------- encoding

  function ChunkWire(c: Chunk): Bytes
    requires Fits32(c.offset) && Fits32(c.length)
  {
    Be32s([c.offset, c.length]) + c.data
  }

  predicate ChunksFit(chunks: seq<Chunk>) {
    forall i :: 0 <= i < |chunks| ==> Fits32(chunks[i].offset) && Fits32(chunks[i].length)
  }

  function ChunksWire(chunks: seq<Chunk>): Bytes
    requires ChunksFit(chunks)
  {
    if chunks == [] then [] else ChunkWire(chunks[0]) + ChunksWire(chunks[1..])
  }

  /** The encoder's own conditions on a diff, size of the whole apart. */
  predicate DiffFits(m: DiffMessage) {
    Fits32(m.totalLen) && |m.chunks| < 0x1_0000 && ChunksFit(m.chunks)
  }

  function DiffHeader(m: DiffMessage): (h: Bytes)
    requires Fits32(m.totalLen) && |m.chunks| < 0x1_0000
    ensures |h| == 18
  {
    Be32s([m.connectionId, m.sequenceId, m.baseSequenceId, m.totalLen]) + Be16(|m.chunks|)
  }

  function DiffWire(m: DiffMessage): Bytes
    requires DiffFits(m)
  {
    DiffHeader(m) + ChunksWire(m.chunks)
  }

  /** The result of encoding a diff on its own, as the compressor asks for it. */
  function EncodeDiff(m: DiffMessage): Option<Bytes> {
    if DiffFits(m) && |DiffWire(m)| <= MAX_FRAME_SIZE then Some(DiffWire(m)) else None
  }

  function ChunksLen(chunks: seq<Chunk>): nat {
    if chunks == [] then 0 else 8 + |chunks[0].data| + ChunksLen(chunks[1..])
  }

  /** The size announced for a payload before it is encoded; JSON payloads get a
      flat guess. */
  function PayloadLen(f: Frame): nat {
    match f
    case StreamData(_, _, data) => 4 + 4 + |data|
    case CompressedStreamData(_, _, _, data) => 4 + 4 + 4 + |data|
    case CompressedIncrementalStreamData(_, _, _, data) => 4 + 4 + 4 + |data|
    case IncrementalStreamData(m) => 4 + 4 + 4 + 4 + 2 + ChunksLen(m.chunks)
    case Control(_, _) => 128
    case Heartbeat => 0
    case HeartbeatAck => 0
  }

  /** The payload encoder succeeds. */
  predicate PayloadFits(f: Frame) {
    match f
    case StreamData(_, _, data) => |data| <= MAX_FRAME_SIZE
    case CompressedStreamData(_, _, len, data) => Fits32(len) && |data| <= MAX_FRAME_SIZE
    case CompressedIncrementalStreamData(_, _, len, data) => Fits32(len) && |data| <= MAX_FRAME_SIZE
    case IncrementalStreamData(m) => DiffFits(m)
    case _ => true
  }

  function Payload(f: Frame): Bytes
    requires PayloadFits(f)
  {
    match f
    case StreamData(conn, seqId, data) => Be32s([conn, seqId]) + data
    case CompressedStreamData(conn, seqId, len, data) => Be32s([conn, seqId, len]) + data
    case CompressedIncrementalStreamData(conn, seqId, len, data) => Be32s([conn, seqId, len]) + data
    case IncrementalStreamData(m) => DiffWire(m)
    case Control(_, json) => json
    case Heartbeat => []
    case HeartbeatAck => []
  }

  lemma {:induction false} ChunksLenExact(chunks: seq<Chunk>)
    requires ChunksFit(chunks)
    ensures |ChunksWire(chunks)| == ChunksLen(chunks)
  {
    if chunks != [] {
      ChunksLenExact(chunks[1..]);
    }
  }

  /** The announced size of a data-plane payload is exact. */
  lemma PayloadLenExact(f: Frame)
    requires PayloadFits(f) && !f.Control?
    ensures |Payload(f)| == PayloadLen(f)
  {
    if f.IncrementalStreamData? {
      ChunksLenExact(f.diff.chunks);
    }
  }

  // --------------------------------------------------------------- decoding

  function Prepend(front: seq<Chunk>, r: Option<seq<Chunk>>): Option<seq<Chunk>> {
    if r.None? then None else Some(front + r.value)
  }

  lemma PrependTwice(a: seq<Chunk>, b: seq<Chunk>, r: Option<seq<Chunk>>)
    ensures Prepend(a, Prepend(b, r)) == Prepend(a + b, r)
    ensures Prepend([], r) == r
  {
    if r.Some? {
      Assoc(a, b, r.value);
      assert [] + r.value == r.value;
    }
  }

  lemma PrependNone(a: seq<Chunk>)
    ensures Prepend(a, None) == None && Prepend(a, Some([])) == Some(a)
  {
    assert a + [] == a;
  }

  function ParseChunks(data: Bytes, pos: nat, count: nat): Option<seq<Chunk>>
    decreases count
  {
    if count == 0 then Some([])
    else if pos + 8 > |data| then None
    else
      var offset: nat, length: nat := U32At(data, pos, true), U32At(data, pos + 4, true);
      if pos + 8 + length > |data| then None
      else
        Prepend([Chunk(offset, length, data[pos + 8..pos + 8 + length])],
                ParseChunks(data, pos + 8 + length, count - 1))
  }

  function ParseDiff(data: Bytes): Option<DiffMessage> {
    if |data| < 18 then None
    else
      match ParseChunks(data, 18, U16At(data, 16, true))
      case None => None
      case Some(chunks) =>
        Some(DiffMessage(U32At(data, 0, true), U32At(data, 4, true), U32At(data, 8, true),
                         U32At(data, 12, true), chunks))
  }

  /** Validates a diff payload: fixed fields, then a loop over `pos`. */
  method DecodeIncrementalParts(data: Bytes) returns (r: Option<DiffMessage>)
    ensures r == ParseDiff(data)
  {
    hide U32At, U16At;
    if |data| < 18 { return None; }
    var chunks := DecodeChunks(data, 18, U16At(data, 16, true));
    if chunks.None? { return None; }
    return Some(DiffMessage(U32At(data, 0, true), U32At(data, 4, true), U32At(data, 8, true),
                            U32At(data, 12, true), chunks.value));
  }

  method DecodeChunks(data: Bytes, start: nat, chunkCount: nat) returns (r: Option<seq<Chunk>>)
    ensures r == ParseChunks(data, start, chunkCount)
  {
    hide U32At, Prepend;
    var pos, i, chunks := start, 0, [];
    PrependTwice([], [], ParseChunks(data, start, chunkCount));
    while i < chunkCount
      invariant 0 <= i <= chunkCount && 0 <= pos
      invariant ParseChunks(data, start, chunkCount) == Prepend(chunks, ParseChunks(data, pos, chunkCount - i))
    {
      PrependNone(chunks);
      if pos + 8 > |data| { return None; }
      var offset: nat := U32At(data, pos, true);
      var length: nat := U32At(data, pos + 4, true);
      if pos + 8 + length > |data| { return None; }
      var chunk := Chunk(offset, length, data[pos + 8..pos + 8 + length]);
      PrependTwice(chunks, [chunk], ParseChunks(data, pos + 8 + length, chunkCount - i - 1));
      chunks := chunks + [chunk];
      pos := pos + 8 + length;
      i := i + 1;
    }
    PrependNone(chunks);
    return Some(chunks);
  }

  // ------------------------------------------------------------ round trips

  /** A chunk says how long its data is. */
  predicate Consistent(chunks: seq<Chunk>) {
    forall i :: 0 <= i < |chunks| ==> chunks[i].length == |chunks[i].data|
  }

  lemma ReadChunk(pre: Bytes, c: Chunk, post: Bytes)
    requires Fits32(c.offset) && Fits32(c.length) && c.length == |c.data|
    ensures var data := pre + ChunkWire(c) + post;
            && |ChunkWire(c)| == 8 + c.length
            && U32At(data, |pre|, true) == c.offset && U32At(data, |pre| + 4, true) == c.length
            && data[|pre| + 8..|pre| + 8 + c.length] == c.data
  {
    hide U32At, Be32s;
    var vs: seq<u32> := [c.offset, c.length];
    var data := pre + ChunkWire(c) + post;
    assert data == pre + Be32s(vs) + (c.data + post);
    ReadBe32s(vs, 0);
    ReadBe32s(vs, 1);
    ReadInside(pre, Be32s(vs), c.data + post, 0, true);
    ReadInside(pre, Be32s(vs), c.data + post, 4, true);
  }

  lemma {:induction false} ChunksRoundTrip(pre: Bytes, chunks: seq<Chunk>, post: Bytes)
    requires ChunksFit(chunks) && Consistent(chunks)
    ensures ParseChunks(pre + ChunksWire(chunks) + post, |pre|, |chunks|) == Some(chunks)
    decreases |chunks|
  {
    hide ChunkWire, U32At;
    if chunks != [] {
      var c, rest := chunks[0], chunks[1..];
      var data := pre + ChunksWire(chunks) + post;
      assert data == pre + ChunkWire(c) + (ChunksWire(rest) + post);
      ReadChunk(pre, c, ChunksWire(rest) + post);
      assert data == pre + ChunkWire(c) + ChunksWire(rest) + post;
      ChunksRoundTrip(pre + ChunkWire(c), rest, post);
      assert chunks == [c] + rest;
    }
  }

  /** A diff payload followed by anything decodes to the diff. */
  lemma DiffWireRoundTrip(m: DiffMessage, post: Bytes)
    requires DiffFits(m) && Consistent(m.chunks)
    ensures ParseDiff(DiffWire(m) + post) == Some(m)
  {
    hide U32At, Be32s, ChunksWire, ParseChunks;
    var data := DiffWire(m) + post;
    var vs: seq<u32> := [m.connectionId, m.sequenceId, m.baseSequenceId, m.totalLen];
    var tail := Be16(|m.chunks|) + ChunksWire(m.chunks) + post;
    assert data == [] + Be32s(vs) + tail;
    forall k: nat | k < 4 ensures U32At(data, 4 * k, true) == vs[k] {
      ReadBe32s(vs, k);
      ReadInside([], Be32s(vs), tail, 4 * k, true);
    }
    assert U32At(data, 4 * 0, true) == vs[0] && U32At(data, 4 * 1, true) == vs[1];
    assert U32At(data, 4 * 2, true) == vs[2] && U32At(data, 4 * 3, true) == vs[3];
    assert data[16] == Be16(|m.chunks|)[0] && data[17] == Be16(|m.chunks|)[1];
    ChunksRoundTrip(DiffHeader(m), m.chunks, post);
  }

  /** Re-encoding parsed chunks gives back the bytes they were parsed from. */
  lemma {:induction false} ChunksRewrite(data: Bytes, pos: nat, count: nat)
    requires pos <= |data| && ParseChunks(data, pos, count).Some?
    ensures var chunks := ParseChunks(data, pos, count).value;
            && |chunks| == count && ChunksFit(chunks) && Consistent(chunks)
            && pos + |ChunksWire(chunks)| <= |data|
            && data[pos..pos + |ChunksWire(chunks)|] == ChunksWire(chunks)
    decreases count
  {
    hide U32At, Be32s;
    if count > 0 {
      var chunks := ParseChunks(data, pos, count).value;
      var c, rest := chunks[0], chunks[1..];
      var next := pos + 8 + c.length;
      ChunksRewrite(data, next, count - 1);
      WriteBe32s(data, pos, [c.offset, c.length]);
      var end := next + |ChunksWire(rest)|;
      assert data[pos..next] == data[pos..pos + 8] + data[pos + 8..next];
      assert data[pos..end] == data[pos..next] + data[next..end];
    }
  }

  /** Every accepted diff payload is the encoding of what it decodes to followed
      by bytes that are ignored. */
  lemma DiffRewrite(data: Bytes)
    requires ParseDiff(data).Some?
    ensures var m := ParseDiff(data).value;
            && DiffFits(m) && Consistent(m.chunks)
            && |DiffWire(m)| <= |data| && data[..|DiffWire(m)|] == DiffWire(m)
  {
    hide U32At, Be32s, ChunksWire, ParseChunks;
    var m := ParseDiff(data).value;
    ChunksRewrite(data, 18, U16At(data, 16, true));
    WriteBe32s(data, 0, [m.connectionId, m.sequenceId, m.baseSequenceId, m.totalLen]);
    assert Be16(|m.chunks|) == data[16..18];
    var end := 18 + |ChunksWire(m.chunks)|;
    assert data[..end] == data[0..16] + data[16..18] + data[18..end];
  }
}
