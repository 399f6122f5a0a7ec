/** In which shape a payload leaves (crates/rx11-core/src/dataplane.rs, `build_frame`;
    crates/rx11-core/src/incremental.rs, `compute_incremental_owned`): said of the payload,
    the base and the negotiated features, not of the steps that get there. */
module Shapes {
  import opened Bytes
  import opened Messages
  import opened Incremental
  import opened BinaryCodec
  import opened Handshake
  import opened DataPlanes
  import Caps = Capabilities

  // ------------------------------------------------------------- compression

  /** These octets travel compressed as `c`: an algorithm is negotiated, they are not
      below the threshold, and either it is the stream encoder or it gains. */
  ghost predicate Travels(p: Policy, h: History, data: Bytes, c: Bytes) {
    && p.compression.Some? && |data| >= p.threshold
    && if p.compression.value == ZstdStream then c == p.lib.streamEnc(h, data)
       else p.lib.oneShot(p.compression.value, data) == Some(c) && |c| < |data|
  }

  /** What is sent of some octets: as they travel compressed, when they do, and as they
      are otherwise; the stream encoder remembers them when it has seen them. */
  ghost predicate Sent(p: Policy, h: History, data: Bytes, plain: Frame, squeezed: Bytes -> Frame, f: Frame, h': History) {
    || (exists c ::
          && Travels(p, h, data, c) && f == squeezed(c)
          && h' == if p.compression == Some(ZstdStream) then h + [data] else h)
    || ((forall c :: !Travels(p, h, data, c)) && f == plain && h' == h)
  }

  lemma CompressTravels(p: Policy, h: History, data: Bytes)
    ensures var (c, h') := Compress(p, h, data);
            && (c.Some? ==> Travels(p, h, data, c.value) && h' == if p.compression == Some(ZstdStream) then h + [data] else h)
            && (c.None? ==> (forall x :: !Travels(p, h, data, x)) && h' == h)
  {
  }

  // ------------------------------------------------------------------ pieces

  function PieceChunk(new_: Bytes, size: nat, at: nat): Chunk
    requires at < |new_|
  {
    var end := Min(at + size, |new_|);
    Chunk(at, end - at, new_[at..end])
  }

  /** Piece number `k` of the payload is not the piece of the base at that place. */
  predicate Differs(old_: Bytes, new_: Bytes, size: nat, k: nat) {
    k * size < |new_| && PieceChunk(new_, size, k * size).data != Piece(old_, k * size, size)
  }

  lemma NextPiece(k: nat, j: nat, size: nat)
    requires size > 0
    ensures (k + 1) * size == k * size + size
    ensures k <= j ==> k * size <= j * size
    ensures j < k ==> j * size < k * size
  {
    if k <= j { Times(k, j, size); }
    if j < k { Times(j + 1, k, size); assert (j + 1) * size == j * size + size; }
  }

  lemma Times(a: nat, b: nat, size: nat)
    requires a <= b
    ensures a * size <= b * size
  {
    assert b * size == a * size + (b - a) * size;
    assert (b - a) * size >= 0;
  }

  /** `chunks` are the differing pieces from number `i` on. */
  ghost predicate TheDiffering(old_: Bytes, new_: Bytes, size: nat, i: nat, chunks: seq<Chunk>) {
    && (forall k: nat :: i <= k && Differs(old_, new_, size, k) ==> PieceChunk(new_, size, k * size) in chunks)
    && (forall c :: c in chunks ==> exists k: nat :: i <= k && Differs(old_, new_, size, k) && c == PieceChunk(new_, size, k * size))
  }

  lemma {:induction false} DiffIsDiffering(old_: Bytes, new_: Bytes, size: nat, i: nat)
    requires size > 0 && i * size <= |new_| + size
    ensures TheDiffering(old_, new_, size, i, DiffChunks(old_, new_, size, i * size))
    decreases |new_| + size - i * size
  {
    hide DiffChunks;
    var at := i * size;
    if at >= |new_| {
      DiffDone(old_, new_, size, at);
      forall k: nat | i <= k ensures !Differs(old_, new_, size, k) { NextPiece(i, k, size); }
    } else {
      var end := Min(at + size, |new_|);
      NextPiece(i, i, size);
      var rest := DiffChunks(old_, new_, size, end);
      var head := if Differs(old_, new_, size, i) then [PieceChunk(new_, size, at)] else [];
      DiffStep(old_, new_, size, at, end, head);
      DiffIsDiffering(old_, new_, size, i + 1);
      if end == |new_| {
        DiffDone(old_, new_, size, end);
        DiffDone(old_, new_, size, (i + 1) * size);
      }
      DifferingFirst(old_, new_, size, i, rest);
    }
  }

  lemma DifferingFirst(old_: Bytes, new_: Bytes, size: nat, i: nat, rest: seq<Chunk>)
    requires i * size < |new_| && TheDiffering(old_, new_, size, i + 1, rest)
    ensures TheDiffering(old_, new_, size, i,
                         (if Differs(old_, new_, size, i) then [PieceChunk(new_, size, i * size)] else []) + rest)
  {
    hide Differs, PieceChunk;
  }

  /** Tidy chunk lists with the same chunks are the same list. */
  lemma {:induction false} TidyUnique(new_: Bytes, a: seq<Chunk>, b: seq<Chunk>, from: nat)
    requires Tidy(new_, a, from) && Tidy(new_, b, from) && forall c :: c in a <==> c in b
    ensures a == b
    decreases |a|
  {
    HasFirst(a);
    HasFirst(b);
    if a != [] && b != [] {
      SameFirst(new_, a, b, from);
      TailChunks(new_, a, b, from);
      TailChunks(new_, b, a, from);
      TidyUnique(new_, a[1..], b[1..], from);
      assert a == [a[0]] + a[1..] && b == [b[0]] + b[1..];
    }
  }

  lemma HasFirst(a: seq<Chunk>)
    ensures a != [] ==> a[0] in a
  {
  }

  lemma Lowest(new_: Bytes, a: seq<Chunk>, c: Chunk, from: nat)
    requires Tidy(new_, a, from) && c in a
    ensures c == a[0] || a[0].offset < c.offset
  {
    hide ChunkFits;
  }

  lemma SameFirst(new_: Bytes, a: seq<Chunk>, b: seq<Chunk>, from: nat)
    requires Tidy(new_, a, from) && Tidy(new_, b, from) && a != [] && b != [] && a[0] in b && b[0] in a
    ensures a[0] == b[0]
  {
    hide Tidy;
    Lowest(new_, a, b[0], from);
    Lowest(new_, b, a[0], from);
  }

  lemma TailChunks(new_: Bytes, a: seq<Chunk>, b: seq<Chunk>, from: nat)
    requires a != [] && b != [] && a[0] == b[0] && Tidy(new_, a, from) && forall c :: c in a ==> c in b
    ensures Tidy(new_, a[1..], from) && forall c :: c in a[1..] ==> c in b[1..]
  {
    hide ChunkFits;
    forall c | c in a[1..] ensures c in b[1..] {
      var i :| 1 <= i < |a| && a[i] == c;
      assert a[0].offset < a[i].offset;
      assert c in b && c != b[0];
    }
  }

  // -------------------------------------------------------------- what is due

  /** `m` is what this payload should travel as instead of itself: a bare reference when
      it repeats the base and is long enough, or its differing pieces when there are some
      and sending them is worth it. */
  ghost predicate Due(params: DiffParams, base: Base, conn: u32, seqId: u32, data: Bytes, m: DiffMessage)
    requires params.chunkSize > 0
  {
    && conn in base && m == DiffMessage(conn, seqId, base[conn].sequenceId, |data|, m.chunks)
    && var was := base[conn].data;
       if m.chunks == [] then data == was && (|data| >= params.minBlockSize || |data| > 18)
       else
         && |data| >= params.minBlockSize
         && Tidy(data, m.chunks, 0) && TheDiffering(was, data, params.chunkSize, 0, m.chunks)
         && params.worthwhile(|was|, if |was| < ChunkBytes(m.chunks) then 0 else |was| - ChunkBytes(m.chunks))
  }

  lemma NoneDiffer(old_: Bytes, new_: Bytes, size: nat)
    requires size > 0 && DiffChunks(old_, new_, size, 0) == [] && |old_| == |new_|
    ensures old_ == new_
  {
    hide DiffChunks;
    OverlayDiff(old_, new_, size, 0, old_);
  }

  lemma {:induction false} SameDiffersNowhere(d: Bytes, size: nat, at: nat)
    requires size > 0
    ensures DiffChunks(d, d, size, at) == []
    decreases |d| - at
  {
    if at < |d| { SameDiffersNowhere(d, size, Min(at + size, |d|)); }
  }

  lemma ComputeExactly(params: DiffParams, base: Base, conn: u32, seqId: u32, data: Bytes, m: DiffMessage)
    requires params.chunkSize > 0
    ensures Compute(params, base, conn, seqId, data) == Some(m) <==> Due(params, base, conn, seqId, data, m)
  {
    hide DiffChunks, Tidy, TheDiffering;
    if conn in base {
      var was, size := base[conn].data, params.chunkSize;
      var chunks := DiffChunks(was, data, size, 0);
      DiffTidy(was, data, size, 0);
      assert 0 * size == 0;
      DiffIsDiffering(was, data, size, 0);
      if was == data { SameDiffersNowhere(data, size, 0); }
      if chunks == [] && |was| == |data| { NoneDiffer(was, data, size); }
      if Due(params, base, conn, seqId, data, m) && m.chunks != [] {
        SameDiffering(was, data, size, chunks, m.chunks);
        TidyUnique(data, chunks, m.chunks, 0);
      }
    }
  }

  lemma SameDiffering(old_: Bytes, new_: Bytes, size: nat, a: seq<Chunk>, b: seq<Chunk>)
    requires TheDiffering(old_, new_, size, 0, a) && TheDiffering(old_, new_, size, 0, b)
    ensures forall c :: c in a <==> c in b
  {
    hide Differs, PieceChunk;
  }

  /** How a diff is sent: in its own frame, or as it travels compressed when it can be
      encoded. */
  ghost predicate SentDiff(p: Policy, h: History, m: DiffMessage, f: Frame, h': History) {
    if EncodeDiff(m).None? then f == IncrementalStreamData(m) && h' == h
    else
      var wire := EncodeDiff(m).value;
      Sent(p, h, wire, IncrementalStreamData(m),
           c => CompressedIncrementalStreamData(m.connectionId, m.sequenceId, |wire|, c), f, h')
  }

  ghost predicate SentPlain(p: Policy, h: History, conn: u32, seqId: u32, data: Bytes, f: Frame, h': History) {
    Sent(p, h, data, StreamData(conn, seqId, data), c => CompressedStreamData(conn, seqId, |data|, c), f, h')
  }

  /** THE shape law. In a direction in which diffs were negotiated a payload with a due
      diff leaves in one of the two diff shapes; every other payload, and every payload of
      any other direction, leaves in one of the two plain shapes; compressed, in either
      case, exactly when those octets travel compressed. The base is the payload from then
      on where diffs are negotiated, and is left alone elsewhere. */
  lemma BuiltShape(p: Policy, params: DiffParams, e: End, conn: u32, seqId: u32, data: Bytes)
    requires params.chunkSize > 0
    ensures var (f, e') := BuildFrame(p, params, e, conn, seqId, data);
            var diffs := Caps.Incremental in p.features && (p.side.Relay? || Caps.IncrementalUplink in p.features);
            && (forall m :: diffs && Due(params, e.base, conn, seqId, data, m) ==> SentDiff(p, e.history, m, f, e'.history))
            && (!diffs || (forall m :: !Due(params, e.base, conn, seqId, data, m)) ==>
                  SentPlain(p, e.history, conn, seqId, data, f, e'.history))
            && e'.base == if diffs then e.base[conn := Cached(seqId, data)] else e.base
  {
    hide Compute, PlainOrCompressed, WrapDiff, Due, SentDiff, SentPlain;
    var due := Compute(params, e.base, conn, seqId, data);
    forall m: DiffMessage ensures due == Some(m) <==> Due(params, e.base, conn, seqId, data, m) {
      ComputeExactly(params, e.base, conn, seqId, data, m);
    }
    assert due.Some? ==> Due(params, e.base, conn, seqId, data, due.value);
    PlainSent(p, e.history, conn, seqId, data);
    if due.Some? {
      ComputeExactly(params, e.base, conn, seqId, data, due.value);
      DueNames(params, e.base, conn, seqId, data, due.value);
      DiffSent(p, e.history, due.value, conn, seqId);
    }
  }

  lemma DueNames(params: DiffParams, base: Base, conn: u32, seqId: u32, data: Bytes, m: DiffMessage)
    requires params.chunkSize > 0 && Due(params, base, conn, seqId, data, m)
    ensures m.connectionId == conn && m.sequenceId == seqId
  {
  }

  lemma PlainSent(p: Policy, h: History, conn: u32, seqId: u32, data: Bytes)
    ensures var (f, h') := PlainOrCompressed(p, h, conn, seqId, data); SentPlain(p, h, conn, seqId, data, f, h')
  {
    hide Compress, Travels;
    CompressTravels(p, h, data);
    var c := Compress(p, h, data).0;
    if c.Some? { assert Travels(p, h, data, c.value); }
  }

  lemma DiffSent(p: Policy, h: History, m: DiffMessage, conn: u32, seqId: u32)
    requires m.connectionId == conn && m.sequenceId == seqId
    ensures var (f, h') := WrapDiff(p, h, m, conn, seqId); SentDiff(p, h, m, f, h')
  {
    hide Compress, Travels, EncodeDiff;
    var encoded := EncodeDiff(m);
    if encoded.Some? {
      CompressTravels(p, h, encoded.value);
      NothingTravels(p, h, encoded.value);
      var c := Compress(p, h, encoded.value).0;
      if c.Some? { assert Travels(p, h, encoded.value, c.value); }
    }
  }

  lemma NothingTravels(p: Policy, h: History, data: Bytes)
    ensures p.compression.None? ==> forall c :: !Travels(p, h, data, c)
  {
  }

  /** A repeat costs eighteen octets: the payload that repeats its base leaves as a bare
      reference, or as its compressed form, and never as itself. */
  lemma RepeatLeaves(p: Policy, params: DiffParams, e: End, conn: u32, seqId: u32)
    requires params.chunkSize > 0 && conn in e.base
    requires Caps.Incremental in p.features && (p.side.Relay? || Caps.IncrementalUplink in p.features)
    requires 18 < |e.base[conn].data| < 0x1_0000_0000
    ensures var f := BuildFrame(p, params, e, conn, seqId, e.base[conn].data).0;
            || f == IncrementalStreamData(DiffMessage(conn, seqId, e.base[conn].sequenceId, |e.base[conn].data|, []))
            || (f.CompressedIncrementalStreamData? && f.connectionId == conn && f.sequenceId == seqId && f.originalLen == 18)
  {
    hide BuildFrame, Travels;
    var data := e.base[conn].data;
    var m := DiffMessage(conn, seqId, e.base[conn].sequenceId, |data|, []);
    BuiltShape(p, params, e, conn, seqId, data);
    assert Due(params, e.base, conn, seqId, data, m);
    assert EncodeDiff(m).Some? && |EncodeDiff(m).value| == 18;
  }

  // ----------------------------------------------------------------- inbound

  ghost predicate Squeezed(f: Frame) { f.CompressedStreamData? || f.CompressedIncrementalStreamData? }

  ghost predicate Differential(f: Frame) { f.IncrementalStreamData? || f.CompressedIncrementalStreamData? }

  ghost predicate ForThePlane(f: Frame) { f.StreamData? || Squeezed(f) || Differential(f) }

  /** A frame of a shape that was not agreed on, or of no data shape, is dropped. */
  ghost predicate NotAgreed(p: Policy, f: Frame) {
    var diffs := Caps.Incremental in p.features && (p.side.Client? || Caps.IncrementalUplink in p.features);
    !ForThePlane(f) || (Squeezed(f) && p.compression.None?) || (Differential(f) && !diffs)
  }

  /** What the octets of a compressed frame are, when the library gives back as many as
      were announced. */
  ghost predicate Unpacks(p: Policy, h: History, f: Frame, x: Bytes)
    requires Squeezed(f)
  {
    && p.compression.Some?
    && if p.compression.value == ZstdStream then
         if f.originalLen == 0 then x == [] else p.lib.streamDec(h, f.data, f.originalLen) == Some(x)
       else p.lib.expand(p.compression.value, f.data, f.originalLen) == Some(x) && |x| == f.originalLen
  }

  /** The diff in a frame, when it can be read. */
  ghost predicate Carries(p: Policy, h: History, f: Frame, m: DiffMessage)
    requires Differential(f)
  {
    if f.IncrementalStreamData? then m == f.diff
    else exists x :: Unpacks(p, h, f, x) && ParseDiff(x) == Some(m)
  }

  lemma DecompressUnpacks(p: Policy, h: History, f: Frame)
    requires Squeezed(f)
    ensures var x := Decompress(p, h, f.data, f.originalLen).0;
            (x.Some? ==> Unpacks(p, h, f, x.value)) && forall y :: Unpacks(p, h, f, y) ==> x == Some(y)
  {
  }

  /** THE refusal law of a plane, frame by frame. What was not agreed on is dropped and
      changes nothing; a compressed frame the library does not undo breaks the stream; a
      diff that cannot be read or does not fit the base asks for a resync and keeps the
      base; everything else is answered, and its octets are the base where diffs were
      agreed on. */
  lemma AnswersExactly(p: Policy, e: End, f: Frame)
    ensures var (r, e') := ApplyInbound(p, e, f);
            var diffs := Caps.Incremental in p.features && (p.side.Client? || Caps.IncrementalUplink in p.features);
            && (r == Dropped <==> NotAgreed(p, f))
            && (r == Dropped ==> e' == e)
            && (r == StreamBroken <==> !NotAgreed(p, f) && Squeezed(f) && forall x :: !Unpacks(p, e.history, f, x))
            && (r.ResyncRequired? <==>
                  && !NotAgreed(p, f) && r != StreamBroken && Differential(f)
                  && forall m :: Carries(p, e.history, f, m) ==> Apply(e.base, m) == None)
            && (!r.Payload? ==> e'.base == e.base)
            && (r.Payload? && !Differential(f) ==>
                  e'.base == if diffs then e.base[f.connectionId := Cached(f.sequenceId, r.data)] else e.base)
  {
    hide ParseDiff, Apply, Decompress, Unpacks;
    if Squeezed(f) { DecompressUnpacks(p, e.history, f); }
  }
}
