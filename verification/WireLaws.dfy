/** What stands where on the wire, which tags there are, and how a stream ends or fails
    (crates/rx11-core/src/protocol/frame.rs, protocol/message_type.rs,
    protocol/binary.rs; crates/rx11-core/src/transport.rs). */
module WireLaws {
  import opened Bytes
  import opened Messages
  import opened BinaryCodec
  import opened FrameCodec
  import opened Transport

  /** The number in `n` octets, most significant first. */
  function BigEndian(b: Bytes, at: nat, n: nat): nat
    requires at + n <= |b|
  {
    if n == 0 then 0 else BigEndian(b, at, n - 1) * 0x100 + b[at + n - 1]
  }

  lemma FourOctets(b: Bytes, at: nat)
    requires at + 4 <= |b|
    ensures BigEndian(b, at, 4) == U32At(b, at, true)
  {
    assert BigEndian(b, at, 1) == b[at];
    assert BigEndian(b, at, 2) == b[at] as int * 0x100 + b[at + 1];
    assert BigEndian(b, at, 3) == (b[at] as int * 0x100 + b[at + 1]) * 0x100 + b[at + 2];
  }

  lemma TwoOctets(pre: Bytes, v: u16, post: Bytes)
    ensures BigEndian(pre + Be16(v) + post, |pre|, 2) == v
  {
    var b := pre + Be16(v) + post;
    assert b[|pre|] == v / 0x100 && b[|pre| + 1] == v % 0x100;
    assert BigEndian(b, |pre|, 1) == b[|pre|];
  }

  lemma FieldAt(pre: Bytes, fields: seq<u32>, post: Bytes, k: nat)
    requires k < |fields|
    ensures BigEndian(pre + Be32s(fields) + post, |pre| + 4 * k, 4) == fields[k]
  {
    hide U32At, BigEndian;
    FourOctets(pre + Be32s(fields) + post, |pre| + 4 * k);
    ReadInside(pre, Be32s(fields), post, 4 * k, true);
    ReadBe32s(fields, k);
  }

  /** The number of each kind of frame. */
  function Number(f: Frame): nat {
    match f
    case StreamData(_, _, _) => 0x20
    case CompressedStreamData(_, _, _, _) => 0x21
    case IncrementalStreamData(_) => 0x22
    case CompressedIncrementalStreamData(_, _, _, _) => 0x23
    case Control(tag, _) => tag
    case Heartbeat => 0x30
    case HeartbeatAck => 0x31
  }

  /** The header of a frame: "RX11", version 1, its number, the length behind it. */
  lemma HeaderLayout(f: Frame)
    requires Encodable(f)
    ensures var w := Encoding(f);
            && |w| >= 11 && w[..5] == [0x52, 0x58, 0x31, 0x31, 1]
            && BigEndian(w, 5, 2) == Number(f) && BigEndian(w, 7, 4) == |w| - 11 && w[11..] == Payload(f)
  {
    hide Payload, PayloadFits, BigEndian, Be16, Be32;
    var len: u32 := |Payload(f)|;
    var w, start := Encoding(f), [0x52, 0x58, 0x31, 0x31, 1];
    assert Be32s([len]) == Be32(len) by { assert Be32s([]) == []; assert Be32(len) + [] == Be32(len); }
    assert w == start + Be16(Tag(f)) + (Be32(len) + Payload(f));
    TwoOctets(start, Tag(f), Be32(len) + Payload(f));
    assert w == (start + Be16(Tag(f))) + Be32s([len]) + Payload(f);
    FieldAt(start + Be16(Tag(f)), [len], Payload(f), 0);
  }

  /** The payload of a data frame, field by field. */
  lemma DataLayout(f: Frame)
    requires PayloadFits(f)
    ensures var p := Payload(f);
            && (f.StreamData? ==>
                  |p| == 8 + |f.data| && BigEndian(p, 0, 4) == f.connectionId && BigEndian(p, 4, 4) == f.sequenceId && p[8..] == f.data)
            && (f.CompressedStreamData? || f.CompressedIncrementalStreamData? ==>
                  && |p| == 12 + |f.data| && BigEndian(p, 0, 4) == f.connectionId && BigEndian(p, 4, 4) == f.sequenceId
                  && BigEndian(p, 8, 4) == f.originalLen && p[12..] == f.data)
  {
    hide BigEndian, Be32s;
    if f.StreamData? {
      var fields: seq<u32> := [f.connectionId, f.sequenceId];
      assert Payload(f) == [] + Be32s(fields) + f.data;
      FieldAt([], fields, f.data, 0);
      FieldAt([], fields, f.data, 1);
    } else if f.CompressedStreamData? || f.CompressedIncrementalStreamData? {
      var fields: seq<u32> := [f.connectionId, f.sequenceId, f.originalLen];
      assert Payload(f) == [] + Be32s(fields) + f.data;
      FieldAt([], fields, f.data, 0);
      FieldAt([], fields, f.data, 1);
      FieldAt([], fields, f.data, 2);
    }
  }

  /** A diff: connection, number, base number, length, count, and behind them the chunks,
      each with its offset, its length and its octets. */
  lemma DiffLayout(m: DiffMessage)
    requires DiffFits(m)
    ensures var p := DiffWire(m);
            && |p| >= 18 && BigEndian(p, 0, 4) == m.connectionId && BigEndian(p, 4, 4) == m.sequenceId
            && BigEndian(p, 8, 4) == m.baseSequenceId && BigEndian(p, 12, 4) == m.totalLen
            && BigEndian(p, 16, 2) == |m.chunks| && p[18..] == ChunksWire(m.chunks)
  {
    hide BigEndian, Be32s, Be16, ChunksWire;
    var fields: seq<u32> := [m.connectionId, m.sequenceId, m.baseSequenceId, m.totalLen];
    var p, tail := DiffWire(m), Be16(|m.chunks|) + ChunksWire(m.chunks);
    assert p == [] + Be32s(fields) + tail;
    FieldAt([], fields, tail, 0);
    FieldAt([], fields, tail, 1);
    FieldAt([], fields, tail, 2);
    FieldAt([], fields, tail, 3);
    assert p == Be32s(fields) + Be16(|m.chunks|) + ChunksWire(m.chunks);
    TwoOctets(Be32s(fields), |m.chunks|, ChunksWire(m.chunks));
  }

  lemma ChunkLayout(c: Chunk, rest: seq<Chunk>)
    requires ChunksFit([c] + rest) && ChunksFit(rest) && Fits32(c.offset) && Fits32(c.length)
    ensures var w := ChunksWire([c] + rest);
            && |w| >= 8 + |c.data| && BigEndian(w, 0, 4) == c.offset && BigEndian(w, 4, 4) == c.length
            && w[8..] == c.data + ChunksWire(rest)
  {
    hide BigEndian, Be32s;
    var fields: seq<u32> := [c.offset, c.length];
    var tail := c.data + ChunksWire(rest);
    assert ([c] + rest)[1..] == rest;
    assert ChunksWire([c] + rest) == [] + Be32s(fields) + tail;
    FieldAt([], fields, tail, 0);
    FieldAt([], fields, tail, 1);
  }

  // -------------------------------------------------------------------- tags

  /** The control messages: handshake, sessions, channels, flow control and errors. */
  const CONTROL_NUMBERS: set<u16> :=
    {0x01, 0x02, 0x03, 0x04, 0x10, 0x11, 0x12, 0x13, 0x14, 0x18, 0x19, 0x1A, 0x40, 0xFF}

  /** Each of them, written octet by octet, is taken whole and as what it is, when its
      text parses; and a header with a number of no frame at all is refused. */
  lemma ControlCrosses(json: JsonParser, tag: u16, text: Bytes, post: Bytes)
    requires tag in CONTROL_NUMBERS && json(tag, text) && |text| <= MAX_FRAME_SIZE
    ensures var wire := [0x52, 0x58, 0x31, 0x31, 1, 0, tag] + Be32(|text|) + text;
            DecodeFrame(json, wire + post) == Decoded(Control(tag, text), |wire|)
  {
    hide DecodeFrame, Be32;
    var f := Control(tag, text);
    FrameRoundTrip(json, f, post);
    assert Be16(tag) == [0, tag];
    assert Encoding(f) == [0x52, 0x58, 0x31, 0x31, 1, 0, tag] + Be32(|text|) + text;
  }

  lemma OtherTagsRefused(json: JsonParser, data: Bytes)
    requires |data| >= 11
    requires var n := BigEndian(data, 5, 2); n !in CONTROL_NUMBERS && n !in {0x20, 0x21, 0x22, 0x23, 0x30, 0x31}
    ensures DecodeFrame(json, data) == Invalid
  {
    hide DecodePayload, U32At;
    assert BigEndian(data, 5, 1) == data[5];
  }

  // ------------------------------------------------------------ how it ends

  /** Nothing comes any more: no read is left, or an empty one is next. */
  predicate AtEnd(script: seq<Bytes>) { script == [] || script[0] == [] }

  /** When the stream ends within a frame, or between two, the receive says so and has
      read everything before the end. */
  lemma {:induction false} EndsClosed(json: JsonParser, buf: Bytes, script: seq<Bytes>, end: seq<Bytes>, f: Frame)
    requires Encodable(f) && WellFormed(json, f) && NonEmptyReads(script) && AtEnd(end)
    requires |buf + Flat(script)| < |Encoding(f)| && buf + Flat(script) <= Encoding(f)
    ensures Recv(json, buf, script + end) == Step(Closed, buf + Flat(script), end)
    decreases |script|
  {
    hide Peek, DecodePayload, Payload, PayloadFits, Header, ScanFrom, Encoding, WellFormed;
    var enc := Encoding(f);
    PeekEncoding(f, []) by { ControlTag(json, f); }
    EncodingLength(f);
    assert enc + [] == enc && enc == buf + enc[|buf|..];
    if |buf| >= FRAME_HEADER_SIZE {
      PeekStable(buf, enc[|buf|..]);
    } else {
      PeekShort(buf);
    }
    if script == [] {
      assert script + end == end && buf + Flat([]) == buf;
    } else {
      Assoc(buf, script[0], Flat(script[1..]));
      assert (script + end)[0] == script[0] && (script + end)[1..] == script[1..] + end;
      EndsClosed(json, buf + script[0], script[1..], end, f);
    }
  }

  /** Any list of frames, a piece of one more, and the end of the stream: the frames are
      received, and then the end is reported. */
  lemma ReassemblyEnds(json: JsonParser, fs: seq<Frame>, next: Frame, cut: nat, script: seq<Bytes>)
    requires forall i :: 0 <= i < |fs| ==> Encodable(fs[i]) && WellFormed(json, fs[i])
    requires Encodable(next) && WellFormed(json, next) && cut < |Encoding(next)|
    requires NonEmptyReads(script) && Flat(script) == Encodings(fs) + Encoding(next)[..cut]
    ensures var (outcomes, buf, rest) := RecvMany(json, [], script, |fs|);
            && |outcomes| == |fs| && (forall i :: 0 <= i < |fs| ==> outcomes[i] == Received(fs[i]))
            && Recv(json, buf, rest) == Step(Closed, Encoding(next)[..cut], [])
  {
    hide Recv, Encoding, Encodable, WellFormed, Encodings, RecvMany;
    assert [] + Flat(script) == Flat(script);
    Reassembly(json, fs, [], script, Encoding(next)[..cut]);
    RestNonEmpty(json, [], script, |fs|);
    var (outcomes, buf, rest) := RecvMany(json, [], script, |fs|);
    EndsClosed(json, buf, rest, [], next);
    assert rest + [] == rest;
  }

  lemma {:induction false} RecvRest(json: JsonParser, buf: Bytes, script: seq<Bytes>)
    requires NonEmptyReads(script)
    ensures NonEmptyReads(Recv(json, buf, script).script)
    decreases |script|, |buf|
  {
    hide Peek, DecodePayload;
    var p := Peek(buf);
    if p.Complete? && |buf| >= p.total {
    } else if p.Corrupt? {
      ScanFirst(buf, 1);
      if ScanFrom(buf, 1) != 0 { RecvRest(json, buf[ScanFrom(buf, 1)..], script); }
    } else if script != [] {
      RecvRest(json, buf + script[0], script[1..]);
    }
  }

  lemma {:induction false} RestNonEmpty(json: JsonParser, buf: Bytes, script: seq<Bytes>, n: nat)
    requires NonEmptyReads(script)
    ensures NonEmptyReads(RecvMany(json, buf, script, n).2)
    decreases n
  {
    hide Recv;
    if n > 0 {
      RecvRest(json, buf, script);
      RestNonEmpty(json, Recv(json, buf, script).buf, Recv(json, buf, script).script, n - 1);
    }
  }

  /** A frame with a sound header whose payload cannot be taken is reported once, and the
      stream goes on behind it, wherever the reads cut it. */
  lemma {:induction false} BadPayloadSkipped(json: JsonParser, tag: u16, payload: Bytes, buf: Bytes, script: seq<Bytes>, rest: Bytes)
    requires IsKnownTag(tag) && |payload| <= MAX_FRAME_SIZE && DecodePayload(json, tag, payload) == None
    requires NonEmptyReads(script) && buf + Flat(script) == Header(tag, |payload|) + payload + rest
    ensures var s := Recv(json, buf, script);
            s.outcome == BadPayload && s.buf + Flat(s.script) == rest
    decreases |script|
  {
    hide Peek, DecodePayload, Header, ScanFrom;
    var wire := Header(tag, |payload|) + payload;
    PeekHeader(tag, payload, rest);
    if |buf| >= FRAME_HEADER_SIZE {
      PeekStable(buf, Flat(script));
    } else {
      PeekShort(buf);
    }
    if |buf| >= |wire| {
      SplitAt(buf, Flat(script), wire, rest);
      assert buf[FRAME_HEADER_SIZE..|wire|] == buf[..|wire|][FRAME_HEADER_SIZE..] == payload;
    } else {
      assert |Flat(script)| > 0;
      Assoc(buf, script[0], Flat(script[1..]));
      BadPayloadSkipped(json, tag, payload, buf + script[0], script[1..], rest);
    }
  }

  lemma PeekHeader(tag: u16, payload: Bytes, post: Bytes)
    requires IsKnownTag(tag) && |payload| <= MAX_FRAME_SIZE
    ensures Peek(Header(tag, |payload|) + payload + post) == Complete(tag, FRAME_HEADER_SIZE + |payload|)
  {
    hide U32At;
    var len: u32 := |payload|;
    var pre := MAGIC + [WIRE_VERSION] + Be16(tag);
    var data := Header(tag, len) + payload + post;
    assert data == pre + Be32(len) + (payload + post);
    ReadBe32(Be32(len), 0, len);
    ReadInside(pre, Be32(len), payload + post, 0, true);
    assert data[..4] == MAGIC && data[4] == WIRE_VERSION;
    assert data[5] == Be16(tag)[0] && data[6] == Be16(tag)[1];
  }
}
