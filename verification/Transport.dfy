/** Receiving frames from a byte stream delivered in arbitrary reads, with
    resynchronisation on the magic bytes (crates/rx11-core/src/transport.rs). */
module Transport {
  import opened Bytes
  import opened Messages
  import opened BinaryCodec
  import opened FrameCodec

  const READ_BUF_HARD_LIMIT: nat := MAX_FRAME_SIZE + 256

  predicate MagicAt(data: Bytes, i: nat) {
    i + 4 <= |data| && data[i..i + 4] == MAGIC
  }

  /** The first magic at or after `i`, or 0. */
  function ScanFrom(data: Bytes, i: nat): nat
    decreases |data| - i
  {
    if i + 4 > |data| then 0
    else if MagicAt(data, i) then i
    else ScanFrom(data, i + 1)
  }

  method ScanForMagic(data: Bytes) returns (skipped: nat)
    ensures skipped == ScanFrom(data, 1)
  {
    if |data| <= 4 { return 0; }
    var i := 1;
    while i < |data| - 3
      invariant 1 <= i <= |data| - 3
      invariant ScanFrom(data, 1) == ScanFrom(data, i)
    {
      if data[i..i + 4] == MAGIC { return i; }
      i := i + 1;
    }
    return 0;
  }

  /** The scan skips to the first later magic and no further. */
  lemma {:induction false} ScanFirst(data: Bytes, i: nat)
    requires i > 0
    ensures var k := ScanFrom(data, i);
            if k == 0 then forall j :: i <= j ==> !MagicAt(data, j)
            else i <= k && MagicAt(data, k) && forall j :: i <= j < k ==> !MagicAt(data, j)
    decreases |data| - i
  {
    if i + 4 <= |data| && !MagicAt(data, i) {
      ScanFirst(data, i + 1);
    }
  }

  datatype Outcome = Received(frame: Frame) | BadPayload | NoRecovery | OverLimit | Closed

  datatype Step = Step(outcome: Outcome, buf: Bytes, script: seq<Bytes>)

  /** One receive: the outcome, the undecoded tail and the reads not yet done.
      An empty read, or none left, is the end of the stream. */
  function Recv(json: JsonParser, buf: Bytes, script: seq<Bytes>): Step
    decreases |script|, |buf|
  {
    var p := Peek(buf);
    if p.Complete? && |buf| >= p.total then
      match DecodePayload(json, p.tag, buf[FRAME_HEADER_SIZE..p.total])
      case None => Step(BadPayload, buf[p.total..], script)
      case Some(f) => Step(Received(f), buf[p.total..], script)
    else if p.Corrupt? then
      var skipped := ScanFrom(buf, 1);
      if skipped == 0 then Step(NoRecovery, buf, script)
      else
        ScanFirst(buf, 1);
        Recv(json, buf[skipped..], script)
    else if |buf| > READ_BUF_HARD_LIMIT then Step(OverLimit, buf, script)
    else if script == [] || script[0] == [] then Step(Closed, buf, script)
    else Recv(json, buf + script[0], script[1..])
  }

  class Rx11TransportReadHalf {
    var readBuf: Bytes
    /** What the stream will hand out, read by read. */
    var script: seq<Bytes>
    const json: JsonParser

    constructor (script: seq<Bytes>, json: JsonParser)
      ensures readBuf == [] && this.script == script && this.json == json
    {
      readBuf, this.script, this.json := [], script, json;
    }

    /** Every resynchronisation strictly shrinks the buffer, so the loop ends
        between any two reads. */
    method RecvFrame() returns (r: Outcome)
      modifies this
      ensures Step(r, readBuf, script) == Recv(json, old(readBuf), old(script))
    {
      while true
        invariant Recv(json, readBuf, script) == Recv(json, old(readBuf), old(script))
        decreases |script|, |readBuf|
      {
        hide DecodePayload, Peek;
        var p := Peek(readBuf);
        if p.Complete? && |readBuf| >= p.total {
          var payload := readBuf[FRAME_HEADER_SIZE..p.total];
          readBuf := readBuf[p.total..];
          match DecodePayload(json, p.tag, payload) {
            case None => return BadPayload;
            case Some(f) => return Received(f);
          }
        }
        if p.Corrupt? {
          var skipped := ScanForMagic(readBuf);
          if skipped == 0 { return NoRecovery; }
          ScanFirst(readBuf, 1);
          readBuf := readBuf[skipped..];
          continue;
        }
        if |readBuf| > READ_BUF_HARD_LIMIT { return OverLimit; }
        if script == [] || script[0] == [] { return Closed; }
        readBuf, script := readBuf + script[0], script[1..];
      }
    }
  }

  // -------------------------------------------------------------- reassembly

  predicate NonEmptyReads(script: seq<Bytes>) {
    forall i :: 0 <= i < |script| ==> script[i] != []
  }

  /** A well-formed frame at the front of the stream is received whole, and
      nothing behind it is lost, wherever the reads cut it. */
  lemma {:induction false} RecvOne(json: JsonParser, buf: Bytes, script: seq<Bytes>, f: Frame, rest: Bytes)
    requires Encodable(f) && WellFormed(json, f) && NonEmptyReads(script)
    requires buf + Flat(script) == Encoding(f) + rest
    ensures var s := Recv(json, buf, script);
            && s.outcome == Received(f) && s.buf + Flat(s.script) == rest && NonEmptyReads(s.script)
    decreases |script|
  {
    hide Peek, DecodePayload, Payload, PayloadFits, Header, ScanFrom, Encoding, WellFormed;
    var enc := Encoding(f);
    PeekEncoding(f, rest) by { ControlTag(json, f); }
    EncodingLength(f);
    if |buf| >= FRAME_HEADER_SIZE {
      PeekStable(buf, Flat(script));
    } else {
      PeekShort(buf);
    }
    if |buf| >= |enc| {
      SplitAt(buf, Flat(script), enc, rest);
      PayloadRoundTrip(json, f);
      EncodingPayload(f, buf);
    } else {
      assert |Flat(script)| > 0;
      Assoc(buf, script[0], Flat(script[1..]));
      RecvOne(json, buf + script[0], script[1..], f, rest);
    }
  }

  lemma ControlTag(json: JsonParser, f: Frame)
    requires WellFormed(json, f)
    ensures f.Control? ==> IsControlTag(f.tag)
  {
  }

  lemma PeekShort(buf: Bytes)
    ensures |buf| < FRAME_HEADER_SIZE ==> Peek(buf) == Short
  {
  }

  lemma EncodingLength(f: Frame)
    requires Encodable(f)
    ensures FRAME_HEADER_SIZE <= |Encoding(f)| <= FRAME_HEADER_SIZE + MAX_FRAME_SIZE
  {
  }

  lemma EncodingPayload(f: Frame, buf: Bytes)
    requires Encodable(f) && |buf| >= |Encoding(f)| && buf[..|Encoding(f)|] == Encoding(f)
    ensures |Encoding(f)| >= FRAME_HEADER_SIZE && buf[FRAME_HEADER_SIZE..|Encoding(f)|] == Payload(f)
  {
    hide Payload, Header;
    assert buf[FRAME_HEADER_SIZE..|Encoding(f)|] == buf[..|Encoding(f)|][FRAME_HEADER_SIZE..];
  }

  function Encodings(fs: seq<Frame>): Bytes
    requires forall i :: 0 <= i < |fs| ==> Encodable(fs[i])
  {
    if fs == [] then [] else Encoding(fs[0]) + Encodings(fs[1..])
  }

  /** Repeated receives. */
  function RecvMany(json: JsonParser, buf: Bytes, script: seq<Bytes>, n: nat): (seq<Outcome>, Bytes, seq<Bytes>)
    decreases n
  {
    if n == 0 then ([], buf, script)
    else
      var s := Recv(json, buf, script);
      var (outcomes, buf', script') := RecvMany(json, s.buf, s.script, n - 1);
      ([s.outcome] + outcomes, buf', script')
  }

  /** THE reassembly theorem. Any list of frames, concatenated and delivered by
      arbitrary non-empty reads, comes back as exactly that list in that order,
      and whatever follows it is still there. */
  lemma {:induction false} Reassembly(json: JsonParser, fs: seq<Frame>, buf: Bytes, script: seq<Bytes>, tail: Bytes)
    requires forall i :: 0 <= i < |fs| ==> Encodable(fs[i]) && WellFormed(json, fs[i])
    requires NonEmptyReads(script) && buf + Flat(script) == Encodings(fs) + tail
    ensures var (outcomes, buf', script') := RecvMany(json, buf, script, |fs|);
            && |outcomes| == |fs|
            && (forall i :: 0 <= i < |fs| ==> outcomes[i] == Received(fs[i]))
            && buf' + Flat(script') == tail
    decreases |fs|
  {
    hide Recv, Encoding, Encodable, WellFormed, Flat;
    if fs != [] {
      Assoc(Encoding(fs[0]), Encodings(fs[1..]), tail);
      RecvOne(json, buf, script, fs[0], Encodings(fs[1..]) + tail);
      var s := Recv(json, buf, script);
      Reassembly(json, fs[1..], s.buf, s.script, tail);
    }
  }

  // ---------------------------------------------------------- resynchronising

  /** The hard limit on the buffer can never be reached: whatever the peer sends,
      the loop either finds a frame that fits or a header to refuse first. */
  lemma {:induction false} HardLimitUnreachable(json: JsonParser, buf: Bytes, script: seq<Bytes>)
    ensures Recv(json, buf, script).outcome != OverLimit
    decreases |script|, |buf|
  {
    hide Peek, DecodePayload;
    PeekShortOnly(buf);
    var p := Peek(buf);
    if p.Complete? && |buf| >= p.total {
    } else if p.Corrupt? {
      if ScanFrom(buf, 1) != 0 {
        ScanFirst(buf, 1);
        HardLimitUnreachable(json, buf[ScanFrom(buf, 1)..], script);
      }
    } else if script != [] && script[0] != [] {
      HardLimitUnreachable(json, buf + script[0], script[1..]);
    }
  }

  lemma PeekShortOnly(buf: Bytes)
    ensures Peek(buf) == Short <==> |buf| < FRAME_HEADER_SIZE
  {
  }

  /** Garbage before a frame that holds no later magic, not even one that runs
      into the frame. */
  ghost predicate NoMagicInside(garbage: Bytes, stream: Bytes) {
    forall i :: 1 <= i < |garbage| ==> !MagicAt(stream, i)
  }

  /** THE resync law. With a corrupt header at the front of the buffer, the frame
      behind the garbage is recovered whole exactly when its magic has already
      been read; otherwise the connection fails. Nothing behind it is lost. */
  lemma Resync(json: JsonParser, garbage: Bytes, f: Frame, rest: Bytes, buf: Bytes, script: seq<Bytes>)
    requires Encodable(f) && WellFormed(json, f) && NonEmptyReads(script)
    requires garbage != [] && buf + Flat(script) == garbage + Encoding(f) + rest
    requires Peek(buf) == Corrupt && NoMagicInside(garbage, buf + Flat(script))
    ensures var s := Recv(json, buf, script);
            && (s.outcome == Received(f) <==> |buf| >= |garbage| + 4)
            && (s.outcome != Received(f) ==> s.outcome == NoRecovery)
            && (s.outcome == Received(f) ==> s.buf + Flat(s.script) == rest)
  {
    hide Peek, DecodePayload, Payload, PayloadFits, Encoding, WellFormed, ScanFrom, MagicAt, NoMagicInside;
    Assoc(garbage, Encoding(f), rest);
    ScanFirst(buf, 1);
    GarbageHidden(garbage, buf, Flat(script));
    if |buf| >= |garbage| + 4 {
      MagicRead(garbage, f, rest, buf, Flat(script));
      RecvOne(json, buf[|garbage|..], script, f, rest);
    }
  }

  lemma GarbageHidden(garbage: Bytes, buf: Bytes, more: Bytes)
    requires NoMagicInside(garbage, buf + more)
    ensures forall i :: 1 <= i < |garbage| ==> !MagicAt(buf, i)
    ensures forall i :: |garbage| <= i && |buf| < |garbage| + 4 ==> !MagicAt(buf, i)
  {
    forall i | 1 <= i < |garbage| ensures !MagicAt(buf, i) {
      assert !MagicAt(buf + more, i);
      if i + 4 <= |buf| { assert (buf + more)[i..i + 4] == buf[i..i + 4]; }
    }
  }

  lemma MagicRead(garbage: Bytes, f: Frame, rest: Bytes, buf: Bytes, more: Bytes)
    requires Encodable(f) && buf + more == garbage + (Encoding(f) + rest) && |buf| >= |garbage| + 4
    ensures MagicAt(buf, |garbage|) && buf[|garbage|..] + more == Encoding(f) + rest
  {
    hide Encoding;
    SplitAt(buf, more, garbage, Encoding(f) + rest);
    EncodingMagic(f);
    var tail := buf[|garbage|..];
    assert tail[..4] == (tail + more)[..4] == Encoding(f)[..4];
    assert buf[|garbage|..|garbage| + 4] == tail[..4];
  }

  lemma EncodingMagic(f: Frame)
    requires Encodable(f)
    ensures |Encoding(f)| >= 4 && Encoding(f)[..4] == MAGIC
  {
  }
}
