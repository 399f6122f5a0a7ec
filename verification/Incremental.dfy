/** Diffing against the last payload of a connection
    (crates/rx11-core/src/incremental.rs). */
module Incremental {
  import opened Bytes
  import opened Messages

  /** `worthwhile` stands for the floating-point savings ratio: it is asked with
      the length of the base and the bytes the diff saves. */
  datatype DiffParams = DiffParams(chunkSize: nat, minBlockSize: nat, worthwhile: (nat, nat) -> bool)

  /** Fixed payload of a frame that refers to its base without any chunk. */
  const REFERENCE_OVERHEAD: nat := 18

  datatype Cached = Cached(sequenceId: u32, data: Bytes)

  type Base = map<u32, Cached>

  function Min(a: nat, b: nat): nat { if a < b then a else b }

  // ---------------------------------------------------------------- diffing

  /** The stretch of at most `size` bytes at `at`, empty past the end. */
  function Piece(d: Bytes, at: nat, size: nat): Bytes {
    if at < |d| then d[at..Min(at + size, |d|)] else []
  }

  /** The chunks of the new payload, from `at` on, that differ from the old. */
  function DiffChunks(old_: Bytes, new_: Bytes, size: nat, at: nat): seq<Chunk>
    requires size > 0
    decreases |new_| - at
  {
    if at >= |new_| then []
    else
      var end := Min(at + size, |new_|);
      var rest := DiffChunks(old_, new_, size, end);
      if new_[at..end] != Piece(old_, at, size) then [Chunk(at, end - at, new_[at..end])] + rest else rest
  }

  lemma DiffStep(old_: Bytes, new_: Bytes, size: nat, at: nat, end: nat, tail: seq<Chunk>)
    requires size > 0 && at < |new_| && end == Min(at + size, |new_|)
    requires tail == (if new_[at..end] != Piece(old_, at, size) then [Chunk(at, end - at, new_[at..end])] else [])
    ensures DiffChunks(old_, new_, size, at) == tail + DiffChunks(old_, new_, size, end)
  {
  }

  lemma DiffDone(old_: Bytes, new_: Bytes, size: nat, at: nat)
    requires size > 0 && at >= |new_|
    ensures DiffChunks(old_, new_, size, at) == []
  {
  }

  function ChunkBytes(chunks: seq<Chunk>): nat {
    if chunks == [] then 0 else |chunks[0].data| + ChunkBytes(chunks[1..])
  }

  function Compute(params: DiffParams, base: Base, conn: u32, seqId: u32, new_: Bytes): Option<DiffMessage>
    requires params.chunkSize > 0
  {
    if conn !in base then None
    else
      var cached := base[conn];
      var reference := DiffMessage(conn, seqId, cached.sequenceId, |new_|, []);
      if |new_| < params.minBlockSize then
        if |new_| > REFERENCE_OVERHEAD && new_ == cached.data then Some(reference) else None
      else
        var chunks := DiffChunks(cached.data, new_, params.chunkSize, 0);
        if chunks == [] then
          if |new_| == |cached.data| then Some(reference) else None
        else
          var sent := ChunkBytes(chunks);
          var saved := if |cached.data| < sent then 0 else |cached.data| - sent;
          if params.worthwhile(|cached.data|, saved) then Some(reference.(chunks := chunks)) else None
  }

  // --------------------------------------------------------------- applying

  predicate ChunkFits(c: Chunk, total: nat) {
    c.offset + c.length <= total && |c.data| == c.length
  }

  /** The base cut or zero-extended to the declared length. */
  function Stretch(d: Bytes, total: nat): (r: Bytes)
    ensures |r| == total
  {
    if |d| <= total then d + Zeros(total - |d|) else d[..total]
  }

  /** Lays the chunks over the buffer in order; a malformed chunk fails it all. */
  function Overlay(buf: Bytes, chunks: seq<Chunk>): (r: Option<Bytes>)
    ensures r.Some? ==> |r.value| == |buf|
    decreases |chunks|
  {
    if chunks == [] then Some(buf)
    else
      var c := chunks[0];
      if !ChunkFits(c, |buf|) then None
      else Overlay(buf[..c.offset] + c.data + buf[c.offset + c.length..], chunks[1..])
  }

  function Apply(base: Base, msg: DiffMessage): Option<Bytes> {
    if msg.connectionId !in base then None
    else
      var cached := base[msg.connectionId];
      if cached.sequenceId != msg.baseSequenceId then None
      else if msg.chunks == [] then
        if |cached.data| != msg.totalLen then None else Some(cached.data)
      else Overlay(Stretch(cached.data, msg.totalLen), msg.chunks)
  }

  // -------------------------------------------------------------- the cache

  class ConnectionDataCache {
    var lastData: Base
    const params: DiffParams

    constructor (params: DiffParams)
      ensures lastData == map[] && this.params == params
    {
      lastData := map[];
      this.params := params;
    }

    method UpdateCache(conn: u32, seqId: u32, data: Bytes)
      modifies this
      ensures lastData == old(lastData)[conn := Cached(seqId, data)]
    {
      lastData := lastData[conn := Cached(seqId, data)];
    }

    function NextSequenceFor(conn: u32): (n: u32)
      reads this
      ensures n != 0
      ensures conn in lastData && lastData[conn].sequenceId < 0xFFFF_FFFF ==> n == lastData[conn].sequenceId + 1
      ensures conn !in lastData || lastData[conn].sequenceId == 0xFFFF_FFFF ==> n == 1
    {
      if conn !in lastData then 1
      else
        var next := (lastData[conn].sequenceId + 1) % 0x1_0000_0000;
        if next == 0 then 1 else next
    }

    method ComputeDiffChunks(old_: Bytes, new_: Bytes) returns (chunks: seq<Chunk>)
      requires params.chunkSize > 0
      ensures chunks == DiffChunks(old_, new_, params.chunkSize, 0)
    {
      hide DiffChunks;
      chunks := [];
      var offset := 0;
      while offset < |new_|
        invariant 0 <= offset <= |new_|
        invariant chunks + DiffChunks(old_, new_, params.chunkSize, offset)
               == DiffChunks(old_, new_, params.chunkSize, 0)
      {
        var chunkEnd := Min(offset + params.chunkSize, |new_|);
        var newChunk := new_[offset..chunkEnd];
        var oldChunk := if offset < |old_| then old_[offset..Min(offset + params.chunkSize, |old_|)] else [];
        var tail := if newChunk != oldChunk then [Chunk(offset, |newChunk|, newChunk)] else [];
        DiffStep(old_, new_, params.chunkSize, offset, chunkEnd, tail);
        Assoc(chunks, tail, DiffChunks(old_, new_, params.chunkSize, chunkEnd));
        chunks := chunks + tail;
        offset := chunkEnd;
      }
      DiffDone(old_, new_, params.chunkSize, offset);
    }

    method ComputeIncremental(conn: u32, seqId: u32, new_: Bytes) returns (r: Option<DiffMessage>)
      requires params.chunkSize > 0
      ensures r == Compute(params, lastData, conn, seqId, new_)
    {
      if conn !in lastData { return None; }
      var cached := lastData[conn];
      if |new_| < params.minBlockSize {
        if |new_| > REFERENCE_OVERHEAD && new_ == cached.data {
          return Some(DiffMessage(conn, seqId, cached.sequenceId, |new_|, []));
        }
        return None;
      }
      var chunks := ComputeDiffChunks(cached.data, new_);
      if chunks == [] {
        return if |new_| == |cached.data| then Some(DiffMessage(conn, seqId, cached.sequenceId, |new_|, [])) else None;
      }
      var sent := ChunkBytes(chunks);
      var saved := if |cached.data| < sent then 0 else |cached.data| - sent;
      if !params.worthwhile(|cached.data|, saved) { return None; }
      return Some(DiffMessage(conn, seqId, cached.sequenceId, |new_|, chunks));
    }

    /** A refused message leaves the cache as it was; an applied one becomes the
        base of the next. */
    method ApplyIncremental(msg: DiffMessage) returns (r: Option<Bytes>)
      modifies this
      ensures r == Apply(old(lastData), msg)
      ensures r.None? ==> lastData == old(lastData)
      ensures r.Some? ==> lastData == old(lastData)[msg.connectionId := Cached(msg.sequenceId, r.value)]
    {
      if msg.connectionId !in lastData { return None; }
      var cached := lastData[msg.connectionId];
      if cached.sequenceId != msg.baseSequenceId { return None; }
      if msg.chunks == [] {
        if |cached.data| != msg.totalLen { return None; }
        UpdateCache(msg.connectionId, msg.sequenceId, cached.data);
        return Some(cached.data);
      }
      var result := if |cached.data| <= msg.totalLen
                    then cached.data + Zeros(msg.totalLen - |cached.data|)
                    else cached.data[..msg.totalLen];
      var i := 0;
      while i < |msg.chunks|
        invariant 0 <= i <= |msg.chunks| && |result| == msg.totalLen
        invariant lastData == old(lastData)
        invariant Overlay(result, msg.chunks[i..]) == Overlay(Stretch(cached.data, msg.totalLen), msg.chunks)
      {
        var chunk := msg.chunks[i];
        assert msg.chunks[i..][0] == chunk && msg.chunks[i..][1..] == msg.chunks[i + 1..];
        var end := chunk.offset + chunk.length;
        if end > msg.totalLen || |chunk.data| != chunk.length { return None; }
        result := result[..chunk.offset] + chunk.data + result[end..];
        i := i + 1;
      }
      assert msg.chunks[i..] == [];
      UpdateCache(msg.connectionId, msg.sequenceId, result);
      return Some(result);
    }

    method ClearConnection(conn: u32)
      modifies this
      ensures lastData == old(lastData) - {conn}
    {
      lastData := lastData - {conn};
    }
  }

  // ------------------------------------------------------------- properties

  /** Every chunk copies its own stretch of the new payload; chunks are not
      empty, in bounds, ascending and disjoint. */
  ghost predicate Tidy(new_: Bytes, chunks: seq<Chunk>, from: nat) {
    && (forall i :: 0 <= i < |chunks| ==>
          var c := chunks[i];
          && from <= c.offset && 0 < c.length && ChunkFits(c, |new_|)
          && c.data == new_[c.offset..c.offset + c.length])
    && (forall i, j :: 0 <= i < j < |chunks| ==> chunks[i].offset + chunks[i].length <= chunks[j].offset)
  }

  lemma {:induction false} DiffTidy(old_: Bytes, new_: Bytes, size: nat, at: nat)
    requires size > 0
    ensures Tidy(new_, DiffChunks(old_, new_, size, at), at)
    decreases |new_| - at
  {
    hide Tidy;
    TidyNone(new_, at);
    if at < |new_| {
      var end := Min(at + size, |new_|);
      DiffTidy(old_, new_, size, end);
      TidyFirst(new_, at, end, DiffChunks(old_, new_, size, end));
    }
  }

  lemma TidyNone(new_: Bytes, from: nat)
    ensures Tidy(new_, [], from)
  {
  }

  lemma TidyFirst(new_: Bytes, at: nat, end: nat, rest: seq<Chunk>)
    requires at < end <= |new_| && Tidy(new_, rest, end)
    ensures Tidy(new_, rest, at) && Tidy(new_, [Chunk(at, end - at, new_[at..end])] + rest, at)
  {
  }

  /** Laying the chunks over the stretched base gives the new payload, whatever
      the two lengths are. */
  lemma {:induction false} OverlayDiff(old_: Bytes, new_: Bytes, size: nat, at: nat, buf: Bytes)
    requires size > 0 && at <= |new_| == |buf|
    requires forall k :: 0 <= k < at ==> buf[k] == new_[k]
    requires forall k :: at <= k < |new_| ==> buf[k] == Stretch(old_, |new_|)[k]
    ensures Overlay(buf, DiffChunks(old_, new_, size, at)) == Some(new_)
    decreases |new_| - at
  {
    hide Stretch, DiffChunks, Overlay;
    if at == |new_| {
      DiffDone(old_, new_, size, at);
      OverlayNone(buf);
      assert buf == new_;
    } else {
      var end := Min(at + size, |new_|);
      var rest := DiffChunks(old_, new_, size, end);
      if new_[at..end] != Piece(old_, at, size) {
        var c := Chunk(at, end - at, new_[at..end]);
        DiffStep(old_, new_, size, at, end, [c]);
        OverlayFirst(buf, c, rest);
        OverlayDiff(old_, new_, size, end, buf[..at] + c.data + buf[end..]);
      } else {
        DiffStep(old_, new_, size, at, end, []);
        assert [] + rest == rest;
        SamePiece(old_, new_, size, at);
        OverlayDiff(old_, new_, size, end, buf);
      }
    }
  }

  lemma OverlayNone(buf: Bytes)
    ensures Overlay(buf, []) == Some(buf)
  {
  }

  lemma OverlayFirst(buf: Bytes, c: Chunk, rest: seq<Chunk>)
    requires ChunkFits(c, |buf|)
    ensures Overlay(buf, [c] + rest) == Overlay(buf[..c.offset] + c.data + buf[c.offset + c.length..], rest)
  {
    assert ([c] + rest)[1..] == rest;
  }

  lemma SamePiece(old_: Bytes, new_: Bytes, size: nat, at: nat)
    requires size > 0 && at < |new_| && new_[at..Min(at + size, |new_|)] == Piece(old_, at, size)
    ensures forall k :: at <= k < Min(at + size, |new_|) ==> Stretch(old_, |new_|)[k] == new_[k]
  {
    var end := Min(at + size, |new_|);
    assert end <= |old_| && old_[at..end] == new_[at..end];
    forall k | at <= k < end ensures old_[k] == new_[k] {
      assert old_[at..end][k - at] == new_[at..end][k - at];
    }
  }

  /** THE diff round trip. Whenever a diff or a reference is produced, a receiver
      holding the same base for that connection recovers exactly the payload. */
  lemma DiffRoundTrip(params: DiffParams, sender: Base, receiver: Base, conn: u32, seqId: u32, new_: Bytes)
    requires params.chunkSize > 0
    requires conn in sender && conn in receiver && sender[conn] == receiver[conn]
    requires Compute(params, sender, conn, seqId, new_).Some?
    ensures var msg := Compute(params, sender, conn, seqId, new_).value;
            && Apply(receiver, msg) == Some(new_)
            && msg.connectionId == conn && msg.sequenceId == seqId && msg.totalLen == |new_|
            && Tidy(new_, msg.chunks, 0)
  {
    var was := sender[conn].data;
    DiffTidy(was, new_, params.chunkSize, 0);
    OverlayDiff(was, new_, params.chunkSize, 0, Stretch(was, |new_|));
    if |was| == |new_| {
      assert Stretch(was, |new_|) == was;
    }
  }

  lemma {:induction false} NoChunks(old_: Bytes, new_: Bytes, size: nat, at: nat)
    requires size > 0 && |old_| == |new_| && at <= |new_|
    ensures DiffChunks(old_, new_, size, at) == [] <==> old_[at..] == new_[at..]
    decreases |new_| - at
  {
    hide DiffChunks;
    if at == |new_| {
      DiffDone(old_, new_, size, at);
    } else {
      var end := Min(at + size, |new_|);
      NoChunks(old_, new_, size, end);
      DiffStep(old_, new_, size, at, end,
               if new_[at..end] != Piece(old_, at, size) then [Chunk(at, end - at, new_[at..end])] else []);
      assert new_[at..] == new_[at..end] + new_[end..] && old_[at..] == old_[at..end] + old_[end..];
      assert new_[at..][..end - at] == new_[at..end] && old_[at..][..end - at] == old_[at..end];
      assert new_[at..][end - at..] == new_[end..] && old_[at..][end - at..] == old_[end..];
    }
  }

  /** A bare reference to the base is sent exactly when the payload repeats the base
      and is long enough for that to pay; below the diffing floor nothing else is
      ever sent as a diff. */
  lemma ReferenceExactly(params: DiffParams, base: Base, conn: u32, seqId: u32, new_: Bytes)
    requires params.chunkSize > 0 && conn in base
    ensures var r := Compute(params, base, conn, seqId, new_);
            && (r.Some? && r.value.chunks == [] <==>
                  new_ == base[conn].data && (|new_| >= params.minBlockSize || |new_| > REFERENCE_OVERHEAD))
            && (r.Some? && |new_| < params.minBlockSize ==> r.value.chunks == [])
            && (r.Some? ==> r.value.baseSequenceId == base[conn].sequenceId)
  {
    var was := base[conn].data;
    if |was| == |new_| {
      NoChunks(was, new_, params.chunkSize, 0);
      assert was[0..] == was && new_[0..] == new_;
    }
  }

  /** The byte at `k` after laying the chunks over the buffer: the last chunk
      that covers it wins. */
  function ByteAt(buf: Bytes, chunks: seq<Chunk>, k: nat): byte
    requires k < |buf| && forall c :: c in chunks ==> ChunkFits(c, |buf|)
    decreases |chunks|
  {
    if chunks == [] then buf[k]
    else
      var last := chunks[|chunks| - 1];
      assert last in chunks && ChunkFits(last, |buf|);
      if last.offset <= k < last.offset + last.length then last.data[k - last.offset]
      else ByteAt(buf, chunks[..|chunks| - 1], k)
  }

  lemma {:induction false} OverlaySnoc(buf: Bytes, chunks: seq<Chunk>, c: Chunk)
    ensures Overlay(buf, chunks + [c]) ==
            if Overlay(buf, chunks).None? then None else Overlay(Overlay(buf, chunks).value, [c])
    decreases |chunks|
  {
    if chunks == [] {
      assert chunks + [c] == [c];
    } else {
      var d := chunks[0];
      assert (chunks + [c])[1..] == chunks[1..] + [c];
      if ChunkFits(d, |buf|) {
        OverlaySnoc(buf[..d.offset] + d.data + buf[d.offset + d.length..], chunks[1..], c);
      }
    }
  }

  /** An arbitrary message is applied exactly when every chunk is well formed,
      and each byte is then the last covering chunk's, or the base's, or zero. */
  lemma {:induction false} OverlayMeaning(buf: Bytes, chunks: seq<Chunk>)
    ensures Overlay(buf, chunks).Some? <==> forall c :: c in chunks ==> ChunkFits(c, |buf|)
    ensures Overlay(buf, chunks).Some? ==>
              forall k :: 0 <= k < |buf| ==> Overlay(buf, chunks).value[k] == ByteAt(buf, chunks, k)
    decreases |chunks|
  {
    if chunks != [] {
      var front, last := chunks[..|chunks| - 1], chunks[|chunks| - 1];
      assert chunks == front + [last];
      OverlaySnoc(buf, front, last);
      OverlayMeaning(buf, front);
      assert forall c :: c in chunks <==> c in front || c == last;
      assert [last][1..] == [];
    }
  }

  /** THE refusal law. A diff is applied exactly when it names the base that is held, by
      connection and number, and a bare reference its very length, a list of chunks only
      stretches inside the announced length; every octet is then that of the last chunk over
      it, or the base's own, or zero behind the base. */
  lemma ApplyExactly(base: Base, m: DiffMessage)
    ensures var r := Apply(base, m);
            && (r.Some? <==>
                  && m.connectionId in base && base[m.connectionId].sequenceId == m.baseSequenceId
                  && if m.chunks == [] then |base[m.connectionId].data| == m.totalLen
                     else forall c :: c in m.chunks ==> c.offset + c.length <= m.totalLen && |c.data| == c.length)
            && (r.Some? ==>
                  && |r.value| == m.totalLen
                  && forall k :: 0 <= k < m.totalLen ==>
                       r.value[k] == ByteAt(Stretch(base[m.connectionId].data, m.totalLen), m.chunks, k))
  {
    hide Overlay;
    if m.connectionId in base {
      OverlayMeaning(Stretch(base[m.connectionId].data, m.totalLen), m.chunks);
    }
  }
}
