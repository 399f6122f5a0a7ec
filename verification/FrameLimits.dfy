/** When the frame encoder takes what the data plane builds
    (crates/rx11-core/src/dataplane.rs, crates/rx11-core/src/protocol/binary.rs,
    crates/rx11-core/src/protocol/frame.rs). */
module FrameLimits {
  import opened Bytes
  import opened Messages
  import opened Incremental
  import opened BinaryCodec
  import opened FrameCodec
  import opened Handshake
  import opened DataPlanes
  import opened DataPlaneRuns

  // ------------------------------------------------------- frame by frame

  /** Which frames of the data plane are encodable, shape by shape. */
  lemma EncodableExactly(f: Frame)
    ensures f.StreamData? ==> (Encodable(f) <==> 8 + |f.data| <= MAX_FRAME_SIZE)
    ensures f.CompressedStreamData? || f.CompressedIncrementalStreamData? ==>
              (Encodable(f) <==> Fits32(f.originalLen) && 12 + |f.data| <= MAX_FRAME_SIZE)
    ensures f.IncrementalStreamData? ==>
              (Encodable(f) <==> DiffFits(f.diff) && 18 + ChunksLen(f.diff.chunks) <= MAX_FRAME_SIZE)
  {
    if PayloadFits(f) && !f.Control? { PayloadLenExact(f); }
  }

  lemma {:induction false} ChunksLenIs(chunks: seq<Chunk>)
    ensures ChunksLen(chunks) == 8 * |chunks| + ChunkBytes(chunks)
  {
    if chunks != [] { ChunksLenIs(chunks[1..]); }
  }

  lemma TidyFits(new_: Bytes, chunks: seq<Chunk>)
    requires Tidy(new_, chunks, 0) && Fits32(|new_|)
    ensures ChunksFit(chunks)
  {
  }

  /** THE encodability law of what a plane builds, shape by shape. A plain or
      compressed frame is refused for its size alone; a diff also when it has more
      chunks than a 16-bit count can say, or when eight octets for each of them push
      it over the limit. */
  lemma BuiltEncodable(p: Policy, params: DiffParams, e: End, conn: u32, seqId: u32, data: Bytes)
    requires params.chunkSize > 0
    ensures var f := BuildFrame(p, params, e, conn, seqId, data).0;
            && (f.StreamData? ==> f.data == data && (Encodable(f) <==> 8 + |data| <= MAX_FRAME_SIZE))
            && (f.CompressedStreamData? ==>
                  f.originalLen == |data| && (Encodable(f) <==> Fits32(|data|) && 12 + |f.data| <= MAX_FRAME_SIZE))
            && (f.IncrementalStreamData? ==>
                  && Compute(params, e.base, conn, seqId, data) == Some(f.diff)
                  && (Encodable(f) <==>
                        && Fits32(|data|) && |f.diff.chunks| < 0x1_0000
                        && 18 + 8 * |f.diff.chunks| + ChunkBytes(f.diff.chunks) <= MAX_FRAME_SIZE))
            && (f.CompressedIncrementalStreamData? ==>
                  && Compute(params, e.base, conn, seqId, data).Some?
                  && f.originalLen == 18 + ChunksLen(Compute(params, e.base, conn, seqId, data).value.chunks)
                  && (Encodable(f) <==> 12 + |f.data| <= MAX_FRAME_SIZE))
  {
    hide Compress, Compute, Encodable, Tidy;
    var f := BuildFrame(p, params, e, conn, seqId, data).0;
    var diff := Compute(params, e.base, conn, seqId, data);
    EncodableExactly(f);
    if MayDiffSend(p) && diff.Some? {
      DiffNeedsBase(params, e.base, conn, seqId, data);
      DiffRoundTrip(params, e.base, e.base, conn, seqId, data);
      ChunksLenIs(diff.value.chunks);
      if Fits32(|data|) { TidyFits(data, diff.value.chunks); }
      if DiffFits(diff.value) { ChunksLenExact(diff.value.chunks); }
    }
  }

  // ---------------------------------------------------------------- a bound

  /** How many pieces of `size` octets a payload of `n` octets has. */
  function Pieces(n: nat, size: nat): nat
    requires size > 0
  {
    if n == 0 then 0 else 1 + Pieces(n - Min(size, n), size)
  }

  /** The count in closed form. */
  lemma {:induction false} PiecesAtMost(n: nat, size: nat, k: nat)
    requires size > 0
    ensures Pieces(n, size) <= k <==> n <= k * size
    decreases n
  {
    if n > 0 {
      if k == 0 {
      } else {
        PiecesAtMost(n - Min(size, n), size, k - 1);
        assert k * size == (k - 1) * size + size;
        assert (k - 1) * size >= 0;
      }
    }
  }

  lemma PiecesGrow(m: nat, n: nat, size: nat)
    requires size > 0 && m <= n
    ensures Pieces(m, size) <= Pieces(n, size)
  {
    PiecesAtMost(n, size, Pieces(n, size));
    PiecesAtMost(m, size, Pieces(n, size));
  }

  lemma {:induction false} DiffBounded(old_: Bytes, new_: Bytes, size: nat, at: nat)
    requires size > 0 && at <= |new_|
    ensures var chunks := DiffChunks(old_, new_, size, at);
            |chunks| <= Pieces(|new_| - at, size) && ChunkBytes(chunks) <= |new_| - at
    decreases |new_| - at
  {
    hide DiffChunks;
    if at == |new_| {
      DiffDone(old_, new_, size, at);
    } else {
      var end := Min(at + size, |new_|);
      DiffBounded(old_, new_, size, end);
      var head := if new_[at..end] != Piece(old_, at, size) then [Chunk(at, end - at, new_[at..end])] else [];
      DiffStep(old_, new_, size, at, end, head);
      var rest := DiffChunks(old_, new_, size, end);
      assert head == [] ==> head + rest == rest;
      assert head != [] ==> (head + rest)[1..] == rest;
    }
  }

  /** Octets of a diff in which every piece of `n` octets differs. */
  function DiffSize(n: nat, size: nat): nat
    requires size > 0
  {
    18 + 8 * Pieces(n, size) + n
  }

  /** What is assumed of the streaming codec's expansion: `worst` bounds it by the
      length of the payload alone. The one-shot codecs only go out when they gain. */
  ghost predicate Expands(lib: Library, worst: nat -> nat) {
    && (forall h: History, x: Bytes :: |lib.streamEnc(h, x)| <= worst(|x|))
    && (forall a: nat, b: nat :: a <= b ==> worst(a) <= worst(b))
  }

  /** A payload of `n` octets fits, whatever has been sent before. */
  predicate Fits(p: Policy, params: DiffParams, worst: nat -> nat, n: nat)
    requires params.chunkSize > 0
  {
    && n + 8 <= MAX_FRAME_SIZE
    && (p.compression.Some? ==> n + 11 <= MAX_FRAME_SIZE)
    && (p.compression == Some(ZstdStream) ==> worst(n) + 12 <= MAX_FRAME_SIZE)
    && (MayDiffSend(p) ==>
          var size := DiffSize(n, params.chunkSize);
          && Pieces(n, params.chunkSize) < 0x1_0000 && size <= MAX_FRAME_SIZE
          && (p.compression.Some? ==> size + 11 <= MAX_FRAME_SIZE)
          && (p.compression == Some(ZstdStream) ==> worst(size) + 12 <= MAX_FRAME_SIZE))
  }

  lemma FitsShorter(p: Policy, params: DiffParams, worst: nat -> nat, m: nat, n: nat)
    requires params.chunkSize > 0 && Expands(p.lib, worst) && m <= n && Fits(p, params, worst, n)
    ensures Fits(p, params, worst, m)
  {
    PiecesGrow(m, n, params.chunkSize);
    assert worst(m) <= worst(n);
    assert DiffSize(m, params.chunkSize) <= DiffSize(n, params.chunkSize);
  }

  lemma CompressedSize(p: Policy, worst: nat -> nat, h: History, data: Bytes)
    requires Expands(p.lib, worst)
    ensures var c := Compress(p, h, data).0;
            c.Some? ==> p.compression.Some? && |c.value| <= if p.compression == Some(ZstdStream) then worst(|data|) else |data| - 1
  {
  }

  lemma ComputeBounded(params: DiffParams, base: Base, conn: u32, seqId: u32, data: Bytes)
    requires params.chunkSize > 0 && Compute(params, base, conn, seqId, data).Some?
    ensures var chunks := Compute(params, base, conn, seqId, data).value.chunks;
            |chunks| <= Pieces(|data|, params.chunkSize) && ChunkBytes(chunks) <= |data|
  {
    hide DiffChunks;
    DiffBounded(base[conn].data, data, params.chunkSize, 0);
  }

  /** THE bound: a payload that fits is built into an encodable frame in every state
      of the sender. */
  lemma FitsEncodes(p: Policy, params: DiffParams, worst: nat -> nat, e: End, conn: u32, seqId: u32, data: Bytes)
    requires params.chunkSize > 0 && Expands(p.lib, worst) && Fits(p, params, worst, |data|)
    ensures Encodable(BuildFrame(p, params, e, conn, seqId, data).0)
  {
    hide Compute, Encodable, Compress;
    BuiltEncodable(p, params, e, conn, seqId, data);
    CompressedSize(p, worst, e.history, data);
    var diff := Compute(params, e.base, conn, seqId, data);
    if MayDiffSend(p) && diff.Some? {
      ComputeBounded(params, e.base, conn, seqId, data);
      ChunksLenIs(diff.value.chunks);
      if EncodeDiff(diff.value).Some? {
        var bytes := EncodeDiff(diff.value).value;
        ChunksLenExact(diff.value.chunks);
        CompressedSize(p, worst, e.history, bytes);
        assert |bytes| <= DiffSize(|data|, params.chunkSize);
        assert worst(|bytes|) <= worst(DiffSize(|data|, params.chunkSize));
      }
    }
  }

  // -------------------------------------------------------- the bound is exact

  lemma {:induction false} AllDiffer(old_: Bytes, new_: Bytes, size: nat, at: nat)
    requires size > 0 && at <= |new_| <= |old_| && forall k :: at <= k < |new_| ==> old_[k] != new_[k]
    ensures var chunks := DiffChunks(old_, new_, size, at);
            |chunks| == Pieces(|new_| - at, size) && ChunkBytes(chunks) == |new_| - at
    decreases |new_| - at
  {
    hide DiffChunks;
    if at == |new_| {
      DiffDone(old_, new_, size, at);
    } else {
      var end := Min(at + size, |new_|);
      AllDiffer(old_, new_, size, end);
      assert new_[at..end][0] != Piece(old_, at, size)[0];
      var head := [Chunk(at, end - at, new_[at..end])];
      DiffStep(old_, new_, size, at, end, head);
      assert (head + DiffChunks(old_, new_, size, end))[1..] == DiffChunks(old_, new_, size, end);
    }
  }

  /** A base of which no octet is repeated, and twice as long as the payload so that
      the diff is worth sending. */
  function Opposite(data: Bytes): (r: Bytes)
    ensures |r| == 2 * |data| && forall k :: 0 <= k < |data| ==> r[k] != data[k]
  {
    seq(2 * |data|, k requires 0 <= k < 2 * |data| => if k < |data| && data[k] == 0 then 1 else 0)
  }

  lemma WorstDiff(p: Policy, params: DiffParams, conn: u32, seqId: u32, data: Bytes)
    requires params.chunkSize > 0 && p.compression == None && MayDiffSend(p) && data != []
    requires params.minBlockSize <= |data| && params.worthwhile(2 * |data|, |data|)
    ensures var f := BuildFrame(p, params, End([], map[conn := Cached(0, Opposite(data))]), conn, seqId, data).0;
            && f.IncrementalStreamData? && |f.diff.chunks| == Pieces(|data|, params.chunkSize)
            && 18 + 8 * |f.diff.chunks| + ChunkBytes(f.diff.chunks) == DiffSize(|data|, params.chunkSize)
  {
    hide DiffChunks;
    AllDiffer(Opposite(data), data, params.chunkSize, 0);
  }

  /** Without compression the bound is exact: every state of the sender gives an
      encodable frame for every payload of that length exactly when the length fits. */
  lemma FitsExactly(p: Policy, params: DiffParams, worst: nat -> nat, n: nat)
    requires params.chunkSize > 0 && p.compression == None
    requires MayDiffSend(p) ==> 0 < n && params.minBlockSize <= n && params.worthwhile(2 * n, n)
    ensures (forall e: End, conn: u32, seqId: u32, data: Bytes :: |data| == n ==>
               Encodable(BuildFrame(p, params, e, conn, seqId, data).0))
            <==> Fits(p, params, worst, n)
  {
    hide BuildFrame, Encodable, Pieces;
    if Fits(p, params, worst, n) {
      forall e: End, conn: u32, seqId: u32, data: Bytes | |data| == n
        ensures Encodable(BuildFrame(p, params, e, conn, seqId, data).0)
      {
        PlainFits(p, params, worst, e, conn, seqId, data);
      }
    } else {
      var data := Zeros(n);
      PlainFrame(p, params, 0, 0, data);
      BuiltEncodable(p, params, FreshEnd(), 0, 0, data);
      if MayDiffSend(p) {
        WorstDiff(p, params, 0, 0, data);
        BuiltEncodable(p, params, End([], map[0 := Cached(0, Opposite(data))]), 0, 0, data);
      }
    }
  }

  function FreshEnd(): End { End([], map[]) }

  lemma PlainFrame(p: Policy, params: DiffParams, conn: u32, seqId: u32, data: Bytes)
    requires params.chunkSize > 0 && p.compression == None
    ensures BuildFrame(p, params, FreshEnd(), conn, seqId, data).0 == StreamData(conn, seqId, data)
  {
  }

  lemma PlainFits(p: Policy, params: DiffParams, worst: nat -> nat, e: End, conn: u32, seqId: u32, data: Bytes)
    requires params.chunkSize > 0 && p.compression == None && Fits(p, params, worst, |data|)
    ensures Encodable(BuildFrame(p, params, e, conn, seqId, data).0)
  {
    hide Compute, Encodable;
    BuiltEncodable(p, params, e, conn, seqId, data);
    if MayDiffSend(p) && Compute(params, e.base, conn, seqId, data).Some? {
      ComputeBounded(params, e.base, conn, seqId, data);
    }
  }

  /** Size is not the only failure: one-octet chunks make a diff of 70000 pieces that
      no frame can carry, although the plain frame of the payload is far below the
      limit. */
  lemma TooManyChunks(p: Policy, params: DiffParams, conn: u32, seqId: u32)
    requires p.compression == None && MayDiffSend(p) && params.chunkSize == 1
    requires params.minBlockSize <= 70000 && params.worthwhile(140000, 70000)
    ensures var data := Zeros(70000);
            && !Encodable(BuildFrame(p, params, End([], map[conn := Cached(0, Opposite(data))]), conn, seqId, data).0)
            && Encodable(StreamData(conn, seqId, data))
  {
    hide BuildFrame, Encodable, Pieces;
    var data := Zeros(70000);
    WorstDiff(p, params, conn, seqId, data);
    BuiltEncodable(p, params, End([], map[conn := Cached(0, Opposite(data))]), conn, seqId, data);
    PiecesAtMost(70000, 1, 0xFFFF);
    EncodableExactly(StreamData(conn, seqId, data));
  }

  /** With chunks of 257 octets or more the count is never the obstacle. */
  lemma CountNeverBinds(n: nat, size: nat)
    requires size >= 257 && n <= MAX_FRAME_SIZE
    ensures Pieces(n, size) < 0x1_0000
  {
    PiecesAtMost(n, size, 0xFFFF);
  }
}
