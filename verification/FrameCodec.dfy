/** The frame of the wire: magic, version, type, payload length, payload
    (crates/rx11-core/src/protocol/frame.rs). */
module FrameCodec {
  import opened Bytes
  import opened Messages
  import opened BinaryCodec

  const MAGIC: Bytes := [0x52, 0x58, 0x31, 0x31]
  const WIRE_VERSION: byte := 1
  const FRAME_HEADER_SIZE: nat := 11

  /** Tags of the messages that travel as JSON
      (crates/rx11-core/src/protocol/message_type.rs). */
  predicate IsControlTag(tag: u16) {
    || 0x01 <= tag <= 0x04 || 0x10 <= tag <= 0x14 || 0x18 <= tag <= 0x1A
    || tag == 0x40 || tag == 0xFF
  }

  predicate IsKnownTag(tag: u16) {
    IsControlTag(tag) || 0x20 <= tag <= 0x23 || tag == 0x30 || tag == 0x31
  }

  function Tag(f: Frame): u16 {
    match f
    case StreamData(_, _, _) => 0x20
    case CompressedStreamData(_, _, _, _) => 0x21
    case IncrementalStreamData(_) => 0x22
    case CompressedIncrementalStreamData(_, _, _, _) => 0x23
    case Control(tag, _) => tag
    case Heartbeat => 0x30
    case HeartbeatAck => 0x31
  }

  /** The encoder accepts the frame. */
  predicate Encodable(f: Frame) {
    PayloadFits(f) && |Payload(f)| <= MAX_FRAME_SIZE
  }

  function Header(tag: u16, len: nat): (h: Bytes)
    requires len < 0x1_0000_0000
    ensures |h| == FRAME_HEADER_SIZE
  {
    MAGIC + [WIRE_VERSION] + Be16(tag) + Be32(len)
  }

  function Encoding(f: Frame): Bytes
    requires Encodable(f)
  {
    Header(Tag(f), |Payload(f)|) + Payload(f)
  }

  // --------------------------------------------------------------- decoding

  /** Whether a JSON payload parses and validates as the message its tag names. */
  type JsonParser = (u16, Bytes) -> bool

  datatype Peeked = Short | Corrupt | Complete(tag: u16, total: nat)

  function Peek(data: Bytes): (p: Peeked)
    ensures p.Complete? ==> FRAME_HEADER_SIZE <= p.total <= FRAME_HEADER_SIZE + MAX_FRAME_SIZE
  {
    if |data| < FRAME_HEADER_SIZE then Short
    else if data[..4] != MAGIC then Corrupt
    else if data[4] != WIRE_VERSION then Corrupt
    else
      var tag, len := U16At(data, 5, true), U32At(data, 7, true);
      if len as int > MAX_FRAME_SIZE then Corrupt
      else if !IsKnownTag(tag) then Corrupt
      else Complete(tag, FRAME_HEADER_SIZE + len)
  }

  function DecodePayload(json: JsonParser, tag: u16, payload: Bytes): Option<Frame> {
    if IsControlTag(tag) then
      if json(tag, payload) then Some(Control(tag, payload)) else None
    else if tag == 0x20 then
      if |payload| < 8 then None
      else Some(StreamData(U32At(payload, 0, true), U32At(payload, 4, true), payload[8..]))
    else if tag == 0x21 then
      if |payload| < 12 then None
      else Some(CompressedStreamData(U32At(payload, 0, true), U32At(payload, 4, true), U32At(payload, 8, true), payload[12..]))
    else if tag == 0x22 then
      var m := ParseDiff(payload);
      if m.None? then None else Some(IncrementalStreamData(m.value))
    else if tag == 0x23 then
      if |payload| < 12 then None
      else Some(CompressedIncrementalStreamData(U32At(payload, 0, true), U32At(payload, 4, true), U32At(payload, 8, true), payload[12..]))
    else if tag == 0x30 then
      if payload != [] then None else Some(Heartbeat)
    else if tag == 0x31 then
      if payload != [] then None else Some(HeartbeatAck)
    else None
  }

  datatype Decoded = Incomplete | Invalid | Decoded(frame: Frame, consumed: nat)

  function DecodeFrame(json: JsonParser, data: Bytes): Decoded {
    match Peek(data)
    case Short => Incomplete
    case Corrupt => Invalid
    case Complete(tag, total) =>
      if |data| < total then Incomplete
      else
        match DecodePayload(json, tag, data[FRAME_HEADER_SIZE..total])
        case None => Invalid
        case Some(f) => Decoded(f, total)
  }

  // ---------------------------------------------------------- the encoder

  /** The buffer frames are appended to. */
  class BytesMut {
    var data: Bytes

    constructor ()
      ensures data == []
    {
      data := [];
    }

    method Extend(b: Bytes)
      modifies this
      ensures data == old(data) + b
    {
      data := data + b;
    }

    method Truncate(len: nat)
      requires len <= |data|
      modifies this
      ensures data == old(data)[..len]
    {
      data := data[..len];
    }

    /** Header with a placeholder length; returns where it starts. */
    method BeginHeader(tag: u16) returns (at: nat)
      modifies this
      ensures at == |old(data)| && data == old(data) + Header(tag, 0)
    {
      at := |data|;
      Extend(MAGIC);
      Extend([WIRE_VERSION]);
      Extend(Be16(tag));
      Extend(Be32(0));
      assert data == old(data) + Header(tag, 0);
    }

    /** Back-patches the payload length. */
    method FinishHeader(at: nat)
      requires at + FRAME_HEADER_SIZE <= |data| && |data| - at - FRAME_HEADER_SIZE < 0x1_0000_0000
      modifies this
      ensures data == old(data)[..at + 7] + Be32(|old(data)| - at - FRAME_HEADER_SIZE) + old(data)[at + FRAME_HEADER_SIZE..]
    {
      var len: u32 := |data| - at - FRAME_HEADER_SIZE;
      data := data[..at + 7] + Be32(len) + data[at + FRAME_HEADER_SIZE..];
    }

    /** Writes the fixed fields and the data of a payload, or nothing. */
    method EncodeFields(fields: seq<u32>, len: nat, body: Bytes) returns (ok: bool)
      modifies this
      ensures ok == (Fits32(len) && |body| <= MAX_FRAME_SIZE)
      ensures data == if ok then old(data) + (Be32s(fields) + body) else old(data)
    {
      if !Fits32(len) || |body| > MAX_FRAME_SIZE { return false; }
      Assoc(data, Be32s(fields), body);
      Extend(Be32s(fields));
      Extend(body);
      ok := true;
    }

    /** Writes a diff chunk by chunk; a chunk that does not fit stops it midway. */
    method EncodeDiffInto(m: DiffMessage) returns (ok: bool)
      modifies this
      ensures ok == DiffFits(m)
      ensures ok ==> data == old(data) + DiffWire(m)
      ensures old(data) <= data
    {
      hide Be32s;
      if !Fits32(m.totalLen) || |m.chunks| >= 0x1_0000 { return false; }
      Extend(DiffHeader(m));
      ghost var start := data;
      var i := 0;
      assert start + ChunksWire([]) == start && m.chunks[..0] == [];
      while i < |m.chunks|
        invariant 0 <= i <= |m.chunks| && ChunksFit(m.chunks[..i])
        invariant data == start + ChunksWire(m.chunks[..i])
      {
        var c := m.chunks[i];
        if !Fits32(c.offset) || !Fits32(c.length) { return false; }
        assert m.chunks[..i + 1] == m.chunks[..i] + [c];
        ChunksWireSnoc(m.chunks[..i], c);
        Assoc(start, ChunksWire(m.chunks[..i]), ChunkWire(c));
        Extend(ChunkWire(c));
        i := i + 1;
      }
      assert m.chunks[..i] == m.chunks;
      Assoc(old(data), DiffHeader(m), ChunksWire(m.chunks));
      ok := true;
    }

    method EncodePayloadInto(f: Frame) returns (ok: bool)
      modifies this
      ensures ok == PayloadFits(f)
      ensures ok ==> data == old(data) + Payload(f)
      ensures old(data) <= data
    {
      match f {
        case StreamData(conn, seqId, body) => ok := EncodeFields([conn, seqId], 0, body);
        case CompressedStreamData(conn, seqId, len, body) =>
          ok := Fits32(len);
          if ok { ok := EncodeFields([conn, seqId, len], len, body); }
        case CompressedIncrementalStreamData(conn, seqId, len, body) =>
          ok := Fits32(len);
          if ok { ok := EncodeFields([conn, seqId, len], len, body); }
        case IncrementalStreamData(m) => ok := EncodeDiffInto(m);
        case Control(_, json) =>
          Extend(json);
          ok := true;
        case Heartbeat => ok := true;
        case HeartbeatAck => ok := true;
      }
    }

    /** Appends one whole frame, or leaves the buffer as it was. */
    method EncodeInto(f: Frame) returns (ok: bool)
      modifies this
      ensures ok == Encodable(f)
      ensures data == if ok then old(data) + Encoding(f) else old(data)
    {
      hide Payload, PayloadFits, Header;
      if f.Control? && |f.json| > MAX_FRAME_SIZE {
        ControlPayload(f);
        return false;
      }
      var at := BeginHeader(Tag(f));
      ghost var head := data;
      ok := EncodePayloadInto(f);
      if !ok {
        Truncate(at);
        assert data == old(data);
        return;
      }
      if |data| - at - FRAME_HEADER_SIZE > MAX_FRAME_SIZE {
        Truncate(at);
        assert data == old(data);
        return false;
      }
      ghost var body := Payload(f);
      FinishHeader(at);
      PatchedHeader(old(data), Tag(f), body, |body|);
    }
  }

  lemma ControlPayload(f: Frame)
    requires f.Control?
    ensures PayloadFits(f) && Payload(f) == f.json
  {
  }

  lemma PatchedHeader(pre: Bytes, tag: u16, body: Bytes, len: nat)
    requires len == |body| < 0x1_0000_0000
    ensures var d := pre + Header(tag, 0) + body;
            d[..|pre| + 7] + Be32(len) + d[|pre| + FRAME_HEADER_SIZE..] == pre + (Header(tag, len) + body)
  {
    hide Be32, Be16;
    var d := pre + Header(tag, 0) + body;
    assert d[..|pre| + 7] == pre + (MAGIC + [WIRE_VERSION] + Be16(tag));
    assert d[|pre| + FRAME_HEADER_SIZE..] == body;
  }

  lemma {:induction false} ChunksWireSnoc(chunks: seq<Chunk>, c: Chunk)
    requires ChunksFit(chunks) && Fits32(c.offset) && Fits32(c.length)
    ensures ChunksFit(chunks + [c]) && ChunksWire(chunks + [c]) == ChunksWire(chunks) + ChunkWire(c)
  {
    hide ChunkWire;
    if chunks == [] {
      assert chunks + [c] == [c];
      assert ChunksWire([c]) == ChunkWire(c) + [];
    } else {
      ChunksWireSnoc(chunks[1..], c);
      assert (chunks + [c])[0] == chunks[0] && (chunks + [c])[1..] == chunks[1..] + [c];
      Assoc(ChunkWire(chunks[0]), ChunksWire(chunks[1..]), ChunkWire(c));
    }
  }

  // ------------------------------------------------------------ round trips

  /** What the type of a message guarantees, plus that the peer's JSON parser
      takes back what serialization produced. */
  ghost predicate WellFormed(json: JsonParser, f: Frame) {
    && (f.Control? ==> IsControlTag(f.tag) && json(f.tag, f.json))
    && (f.IncrementalStreamData? ==> Consistent(f.diff.chunks))
  }

  lemma PeekStable(data: Bytes, more: Bytes)
    requires |data| >= FRAME_HEADER_SIZE
    ensures Peek(data + more) == Peek(data)
  {
    hide Word;
    assert (data + more)[..4] == data[..4];
  }

  /** The header of an encoded frame announces exactly its length. */
  lemma PeekEncoding(f: Frame, post: Bytes)
    requires Encodable(f) && (f.Control? ==> IsControlTag(f.tag))
    ensures Peek(Encoding(f) + post) == Complete(Tag(f), |Encoding(f)|)
  {
    hide Payload, PayloadFits, U32At;
    var len: u32 := |Payload(f)|;
    var pre := MAGIC + [WIRE_VERSION] + Be16(Tag(f));
    var data := Encoding(f) + post;
    assert data == pre + Be32(len) + (Payload(f) + post);
    ReadBe32(Be32(len), 0, len);
    ReadInside(pre, Be32(len), Payload(f) + post, 0, true);
    assert data[..4] == MAGIC && data[4] == WIRE_VERSION;
    assert data[5] == Be16(Tag(f))[0] && data[6] == Be16(Tag(f))[1];
  }

  lemma FieldsRoundTrip(fields: seq<u32>, body: Bytes)
    ensures var p := Be32s(fields) + body;
            && p[4 * |fields|..] == body
            && forall k :: 0 <= k < |fields| ==> U32At(p, 4 * k, true) == fields[k]
  {
    hide U32At, Be32s;
    var p := Be32s(fields) + body;
    assert p == [] + Be32s(fields) + body;
    forall k: nat | k < |fields| ensures U32At(p, 4 * k, true) == fields[k] {
      ReadBe32s(fields, k);
      ReadInside([], Be32s(fields), body, 4 * k, true);
    }
  }

  lemma PayloadRoundTrip(json: JsonParser, f: Frame)
    requires PayloadFits(f) && WellFormed(json, f)
    ensures DecodePayload(json, Tag(f), Payload(f)) == Some(f)
  {
    hide U32At, Be32s, ParseDiff, DiffWire;
    match f {
      case StreamData(conn, seqId, data) =>
        FieldsRoundTrip([conn, seqId], data);
        assert U32At(Payload(f), 4 * 0, true) == [conn, seqId][0] && U32At(Payload(f), 4 * 1, true) == [conn, seqId][1];
      case CompressedStreamData(conn, seqId, len, data) =>
        ThreeFields(conn, seqId, len, data);
      case CompressedIncrementalStreamData(conn, seqId, len, data) =>
        ThreeFields(conn, seqId, len, data);
      case IncrementalStreamData(m) =>
        DiffWireRoundTrip(m, []);
        assert DiffWire(m) + [] == DiffWire(m);
      case _ =>
    }
  }

  lemma ThreeFields(a: u32, b: u32, c: u32, data: Bytes)
    ensures var p := Be32s([a, b, c]) + data;
            && p[12..] == data
            && U32At(p, 0, true) == a && U32At(p, 4, true) == b && U32At(p, 8, true) == c
  {
    hide U32At, Be32s;
    var fields: seq<u32> := [a, b, c];
    var p := Be32s(fields) + data;
    FieldsRoundTrip(fields, data);
    assert U32At(p, 4 * 0, true) == fields[0] && U32At(p, 4 * 1, true) == fields[1] && U32At(p, 4 * 2, true) == fields[2];
  }

  /** A well-formed frame followed by any bytes decodes to itself, consuming
      exactly its own encoding. */
  lemma FrameRoundTrip(json: JsonParser, f: Frame, post: Bytes)
    requires Encodable(f) && WellFormed(json, f)
    ensures DecodeFrame(json, Encoding(f) + post) == Decoded(f, |Encoding(f)|)
  {
    hide Payload, PayloadFits, DecodePayload, Peek, Header;
    PeekEncoding(f, post);
    PayloadRoundTrip(json, f);
    assert (Encoding(f) + post)[FRAME_HEADER_SIZE..|Encoding(f)|] == Payload(f);
  }

  /** Whatever payload is accepted under a known tag re-encodes to itself; only a
      diff may carry ignored bytes behind its last chunk. */
  lemma PayloadRewrite(json: JsonParser, tag: u16, payload: Bytes)
    requires |payload| <= MAX_FRAME_SIZE && DecodePayload(json, tag, payload).Some?
    ensures var f := DecodePayload(json, tag, payload).value;
            && Tag(f) == tag && PayloadFits(f) && WellFormed(json, f)
            && Payload(f) <= payload
            && (!f.IncrementalStreamData? ==> Payload(f) == payload)
  {
    hide U32At, Be32s, ParseDiff, DiffWire;
    var f := DecodePayload(json, tag, payload).value;
    if tag == 0x20 {
      WriteBe32s(payload, 0, [f.connectionId, f.sequenceId]);
      assert payload == payload[0..8] + payload[8..];
    } else if tag == 0x21 || tag == 0x23 {
      WriteBe32s(payload, 0, [f.connectionId, f.sequenceId, f.originalLen]);
      assert payload == payload[0..12] + payload[12..];
    } else if tag == 0x22 {
      DiffRewrite(payload);
    }
  }

  lemma PeekReads(data: Bytes)
    requires Peek(data).Complete?
    ensures |data| >= FRAME_HEADER_SIZE && data[..4] == MAGIC && data[4] == WIRE_VERSION
    ensures Peek(data).tag == U16At(data, 5, true) && Peek(data).total - FRAME_HEADER_SIZE == U32At(data, 7, true)
  {
  }

  lemma HeaderOf(data: Bytes, tag: u16, len: u32)
    requires |data| >= FRAME_HEADER_SIZE && data[..4] == MAGIC && data[4] == WIRE_VERSION
    requires data[5..7] == Be16(tag) && data[7..11] == Be32(len)
    ensures data[..FRAME_HEADER_SIZE] == Header(tag, len)
  {
    hide Be16, Be32;
    assert data[..FRAME_HEADER_SIZE] == data[..4] + [data[4]] + data[5..7] + data[7..11];
  }

  /** Whatever frame is accepted, the bytes consumed are its encoding; only a diff may
      have come with ignored bytes inside its payload. */
  lemma FrameRewrite(json: JsonParser, data: Bytes)
    requires DecodeFrame(json, data).Decoded?
    ensures var d := DecodeFrame(json, data);
            && WellFormed(json, d.frame) && Encodable(d.frame) && |Encoding(d.frame)| <= d.consumed <= |data|
            && (!d.frame.IncrementalStreamData? || |Encoding(d.frame)| == d.consumed ==>
                  data[..d.consumed] == Encoding(d.frame))
            && Payload(d.frame) <= data[FRAME_HEADER_SIZE..d.consumed]
  {
    hide Peek, DecodePayload, Payload, PayloadFits, Header, U16At, U32At, Be16, Be32;
    PeekReads(data);
    var p := Peek(data);
    WriteBe32(data, 7);
    Be16Reads(data, 5);
    HeaderOf(data, p.tag, p.total - FRAME_HEADER_SIZE);
    var payload := data[FRAME_HEADER_SIZE..p.total];
    PayloadRewrite(json, p.tag, payload);
    assert data[..p.total] == data[..FRAME_HEADER_SIZE] + payload;
  }

  lemma Be16Reads(data: Bytes, at: nat)
    requires at + 2 <= |data|
    ensures Be16(U16At(data, at, true)) == data[at..at + 2]
  {
  }
}
