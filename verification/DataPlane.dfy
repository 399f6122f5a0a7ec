/** How a payload becomes a frame and how an inbound frame becomes payload again
    (crates/rx11-core/src/dataplane.rs). */
module DataPlanes {
  import opened Bytes
  import opened Messages
  import opened Incremental
  import opened BinaryCodec
  import opened Handshake
  import Caps = Capabilities

  type History = seq<Bytes>

  /** The compression libraries, as uninterpreted functions. The streaming codec
      depends on everything fed to it before. */
  datatype Library = Library(
    oneShot: (Algo, Bytes) -> Option<Bytes>,
    expand: (Algo, Bytes, nat) -> Option<Bytes>,
    streamEnc: (History, Bytes) -> Bytes,
    streamDec: (History, Bytes, nat) -> Option<Bytes>)

  /** Each codec undoes itself; the streaming one under the same history. */
  ghost predicate Lawful(lib: Library) {
    && (forall a: Algo, x: Bytes :: lib.oneShot(a, x).Some? ==> lib.expand(a, lib.oneShot(a, x).value, |x|) == Some(x))
    && (forall h: History, x: Bytes :: x != [] ==> lib.streamDec(h, lib.streamEnc(h, x), |x|) == Some(x))
  }

  datatype Side = Relay | Client

  datatype Policy = Policy(
    lib: Library, side: Side, features: set<Caps.Capability>, compression: Option<Algo>, threshold: nat)

  predicate MayDiffSend(p: Policy) {
    Caps.Incremental in p.features && (p.side == Relay || Caps.IncrementalUplink in p.features)
  }

  predicate MayDiffReceive(p: Policy) {
    Caps.Incremental in p.features && (p.side == Client || Caps.IncrementalUplink in p.features)
  }

  /** One direction of a plane at one end: the codec's history and the bases. */
  datatype End = End(history: History, base: Base)

  // ------------------------------------------------------------ compression

  function Compress(p: Policy, h: History, data: Bytes): (Option<Bytes>, History) {
    if p.compression.None? || |data| < p.threshold then (None, h)
    else if p.compression.value == ZstdStream then (Some(p.lib.streamEnc(h, data)), h + [data])
    else
      var c := p.lib.oneShot(p.compression.value, data);
      if c.None? || |c.value| >= |data| then (None, h) else (c, h)
  }

  function Decompress(p: Policy, h: History, compressed: Bytes, originalLen: nat): (Option<Bytes>, History) {
    if p.compression.None? then (None, h)
    else if p.compression.value == ZstdStream then
      if originalLen == 0 then (Some([]), h)
      else
        var x := p.lib.streamDec(h, compressed, originalLen);
        if x.None? then (None, h) else (x, h + [x.value])
    else
      var x := p.lib.expand(p.compression.value, compressed, originalLen);
      if x.None? || |x.value| != originalLen then (None, h) else (x, h)
  }

  // --------------------------------------------------------------- outbound

  function PlainOrCompressed(p: Policy, h: History, conn: u32, seqId: u32, data: Bytes): (Frame, History) {
    var (c, h') := Compress(p, h, data);
    if c.Some? then (CompressedStreamData(conn, seqId, |data|, c.value), h')
    else (StreamData(conn, seqId, data), h')
  }

  function WrapDiff(p: Policy, h: History, diff: DiffMessage, conn: u32, seqId: u32): (Frame, History) {
    var encoded := EncodeDiff(diff);
    if p.compression.None? || encoded.None? then (IncrementalStreamData(diff), h)
    else
      var (c, h') := Compress(p, h, encoded.value);
      if c.Some? then (CompressedIncrementalStreamData(conn, seqId, |encoded.value|, c.value), h')
      else (IncrementalStreamData(diff), h')
  }

  function BuildFrame(p: Policy, params: DiffParams, e: End, conn: u32, seqId: u32, data: Bytes): (Frame, End)
    requires params.chunkSize > 0
  {
    if MayDiffSend(p) then
      var diff := Compute(params, e.base, conn, seqId, data);
      var base := e.base[conn := Cached(seqId, data)];
      if diff.Some? then
        var (f, h) := WrapDiff(p, e.history, diff.value, conn, seqId);
        (f, End(h, base))
      else
        var (f, h) := PlainOrCompressed(p, e.history, conn, seqId, data);
        (f, End(h, base))
    else
      var (f, h) := PlainOrCompressed(p, e.history, conn, seqId, data);
      (f, e.(history := h))
  }

  // ---------------------------------------------------------------- inbound

  datatype Inbound =
    | Payload(connectionId: u32, data: Bytes)
    | ResyncRequired(connectionId: u32)
    | Dropped
    | StreamBroken

  function KeepBase(p: Policy, base: Base, conn: u32, seqId: u32, data: Bytes): Base {
    if MayDiffReceive(p) then base[conn := Cached(seqId, data)] else base
  }

  function ApplyDiff(base: Base, m: DiffMessage): (Inbound, Base) {
    var r := Apply(base, m);
    if r.None? then (ResyncRequired(m.connectionId), base)
    else (Payload(m.connectionId, r.value), base[m.connectionId := Cached(m.sequenceId, r.value)])
  }

  function ApplyInbound(p: Policy, e: End, frame: Frame): (Inbound, End) {
    match frame
    case StreamData(conn, seqId, data) =>
      (Payload(conn, data), e.(base := KeepBase(p, e.base, conn, seqId, data)))
    case CompressedStreamData(conn, seqId, len, compressed) =>
      if p.compression.None? then (Dropped, e)
      else
        var (x, h) := Decompress(p, e.history, compressed, len);
        if x.None? then (StreamBroken, End(h, e.base))
        else (Payload(conn, x.value), End(h, KeepBase(p, e.base, conn, seqId, x.value)))
    case IncrementalStreamData(m) =>
      if !MayDiffReceive(p) then (Dropped, e)
      else
        var (r, base) := ApplyDiff(e.base, m);
        (r, e.(base := base))
    case CompressedIncrementalStreamData(conn, seqId, len, compressed) =>
      if !MayDiffReceive(p) || p.compression.None? then (Dropped, e)
      else
        var (x, h) := Decompress(p, e.history, compressed, len);
        if x.None? then (StreamBroken, End(h, e.base))
        else
          var m := ParseDiff(x.value);
          if m.None? then (ResyncRequired(conn), End(h, e.base))
          else
            var (r, base) := ApplyDiff(e.base, m.value);
            (r, End(h, base))
    case _ => (Dropped, e)
  }

  // --------------------------------------------------------------- the class

  class DataPlane {
    const policy: Policy
    /** The pooled streaming contexts, by what they have been fed. */
    var encoded: History
    var decoded: History

    constructor (policy: Policy)
      ensures this.policy == policy && encoded == [] && decoded == []
    {
      this.policy := policy;
      encoded, decoded := [], [];
    }

    /** Stream mode never declines: the encoder has consumed the payload, so the
        fragment must go out. */
    method CompressPayload(data: Bytes) returns (r: Option<Bytes>)
      modifies this`encoded
      ensures (r, encoded) == Compress(policy, old(encoded), data)
    {
      if policy.compression.None? { return None; }
      if |data| < policy.threshold { return None; }
      match policy.compression.value {
        case ZstdStream =>
          r := Some(policy.lib.streamEnc(encoded, data));
          encoded := encoded + [data];
        case other =>
          r := policy.lib.oneShot(other, data);
          if r.Some? && |r.value| >= |data| { r := None; }
      }
    }

    method DecompressPayload(compressed: Bytes, originalLen: nat) returns (r: Option<Bytes>)
      modifies this`decoded
      ensures (r, decoded) == Decompress(policy, old(decoded), compressed, originalLen)
    {
      if policy.compression.None? { return None; }
      match policy.compression.value {
        case ZstdStream =>
          if originalLen == 0 { return Some([]); }
          r := policy.lib.streamDec(decoded, compressed, originalLen);
          if r.Some? { decoded := decoded + [r.value]; }
        case other =>
          r := policy.lib.expand(other, compressed, originalLen);
          if r.Some? && |r.value| != originalLen { r := None; }
      }
    }

    method PlainOrCompressedFrame(conn: u32, seqId: u32, data: Bytes) returns (f: Frame)
      modifies this`encoded
      ensures (f, encoded) == PlainOrCompressed(policy, old(encoded), conn, seqId, data)
    {
      var c := CompressPayload(data);
      f := if c.Some? then CompressedStreamData(conn, seqId, |data|, c.value) else StreamData(conn, seqId, data);
    }

    method WrapDiffFrame(diff: DiffMessage, conn: u32, seqId: u32) returns (f: Frame)
      modifies this`encoded
      ensures (f, encoded) == WrapDiff(policy, old(encoded), diff, conn, seqId)
    {
      if policy.compression.Some? {
        var bytes := EncodeDiff(diff);
        if bytes.Some? {
          var c := CompressPayload(bytes.value);
          if c.Some? {
            return CompressedIncrementalStreamData(conn, seqId, |bytes.value|, c.value);
          }
        }
      }
      return IncrementalStreamData(diff);
    }

    /** Builds the outbound frame; the cache is only consulted and refreshed when
        this direction may diff. */
    method Build(conn: u32, seqId: u32, data: Bytes, cache: ConnectionDataCache) returns (f: Frame)
      requires cache.params.chunkSize > 0
      modifies this`encoded, cache
      ensures (f, End(encoded, cache.lastData))
           == BuildFrame(policy, cache.params, End(old(encoded), old(cache.lastData)), conn, seqId, data)
    {
      if MayDiffSend(policy) {
        var diff := cache.ComputeIncremental(conn, seqId, data);
        cache.UpdateCache(conn, seqId, data);
        match diff {
          case Some(d) => f := WrapDiffFrame(d, conn, seqId);
          case None => f := PlainOrCompressedFrame(conn, seqId, data);
        }
      } else {
        f := PlainOrCompressedFrame(conn, seqId, data);
      }
    }

    method ApplyDiffFrame(m: DiffMessage, cache: ConnectionDataCache) returns (r: Inbound)
      modifies cache
      ensures (r, cache.lastData) == ApplyDiff(old(cache.lastData), m)
    {
      var data := cache.ApplyIncremental(m);
      r := if data.None? then ResyncRequired(m.connectionId) else Payload(m.connectionId, data.value);
    }

    /** Takes one inbound frame; the receive base is only kept while this
        direction can see diffs. */
    method Receive(frame: Frame, cache: ConnectionDataCache) returns (r: Inbound)
      modifies this`decoded, cache
      ensures (r, End(decoded, cache.lastData))
           == ApplyInbound(policy, End(old(decoded), old(cache.lastData)), frame)
    {
      match frame {
        case StreamData(conn, seqId, data) =>
          if MayDiffReceive(policy) { cache.UpdateCache(conn, seqId, data); }
          r := Payload(conn, data);
        case CompressedStreamData(conn, seqId, len, compressed) =>
          if policy.compression.None? { return Dropped; }
          var x := DecompressPayload(compressed, len);
          if x.None? { return StreamBroken; }
          if MayDiffReceive(policy) { cache.UpdateCache(conn, seqId, x.value); }
          r := Payload(conn, x.value);
        case IncrementalStreamData(m) =>
          if !MayDiffReceive(policy) { return Dropped; }
          r := ApplyDiffFrame(m, cache);
        case CompressedIncrementalStreamData(conn, seqId, len, compressed) =>
          if !MayDiffReceive(policy) { return Dropped; }
          if policy.compression.None? { return Dropped; }
          var x := DecompressPayload(compressed, len);
          if x.None? { return StreamBroken; }
          var m := DecodeIncrementalParts(x.value);
          if m.None? { return ResyncRequired(conn); }
          r := ApplyDiffFrame(m.value, cache);
        case _ => r := Dropped;
      }
    }
  }
}
