/** What the far end makes of the two-lane writer's output. */
module WriterProofs {
  import opened Bytes
  import opened Messages
  import opened BinaryCodec
  import opened FrameCodec
  import opened Transport
  import opened Writer
  import opened WriterCuts

  /** The bytes on the wire. */
  function OutputBytes(log: seq<Write>): Bytes
    requires forall i :: 0 <= i < |log| && log[i].PrioWrite? ==> Encodable(log[i].frame)
  {
    if log == [] then []
    else
      var w := log[|log| - 1];
      OutputBytes(log[..|log| - 1]) + if w.BulkChunk? then w.bytes else Encoding(w.frame)
  }

  /** A frame of the output with the lane it came from. */
  datatype Tagged = FromBulk(frame: Frame) | FromPrio(frame: Frame)

  function Strip(ts: seq<Tagged>): seq<Frame> {
    if ts == [] then [] else Strip(ts[..|ts| - 1]) + [ts[|ts| - 1].frame]
  }

  function BulkOf(ts: seq<Tagged>): seq<Frame> {
    if ts == [] then []
    else BulkOf(ts[..|ts| - 1]) + if ts[|ts| - 1].FromBulk? then [ts[|ts| - 1].frame] else []
  }

  function PrioOf(ts: seq<Tagged>): seq<Frame> {
    if ts == [] then []
    else PrioOf(ts[..|ts| - 1]) + if ts[|ts| - 1].FromPrio? then [ts[|ts| - 1].frame] else []
  }

  lemma TagSnoc(ts: seq<Tagged>, t: Tagged)
    ensures Strip(ts + [t]) == Strip(ts) + [t.frame]
    ensures BulkOf(ts + [t]) == if t.FromBulk? then BulkOf(ts) + [t.frame] else BulkOf(ts)
    ensures PrioOf(ts + [t]) == if t.FromPrio? then PrioOf(ts) + [t.frame] else PrioOf(ts)
  {
    assert (ts + [t])[..|ts|] == ts;
  }

  /** Appends a run of bulk frames to a tagged list. */
  lemma {:induction false} TagRun(ts: seq<Tagged>, fs: seq<Frame>) returns (r: seq<Tagged>)
    requires AllEncodable(Strip(ts)) && AllEncodable(fs)
    ensures BulkOf(r) == BulkOf(ts) + fs && PrioOf(r) == PrioOf(ts)
    ensures AllEncodable(Strip(r)) && Encodings(Strip(r)) == Encodings(Strip(ts)) + Encodings(fs)
    decreases |fs|
  {
    hide Encodable, Encoding, BulkOf, PrioOf, Strip;
    if fs == [] {
      r := ts;
      assert BulkOf(ts) + [] == BulkOf(ts);
      assert Encodings(Strip(ts)) + [] == Encodings(Strip(ts));
    } else {
      var next := ts + [FromBulk(fs[0])];
      TagSnoc(ts, FromBulk(fs[0]));
      EncodingsSnoc(Strip(ts), fs[0]);
      r := TagRun(next, fs[1..]);
      assert fs == [fs[0]] + fs[1..];
      Assoc(BulkOf(ts), [fs[0]], fs[1..]);
      Assoc(Encodings(Strip(ts)), Encoding(fs[0]), Encodings(fs[1..]));
    }
  }

  lemma FrontLonger(lane: seq<Frame>, j: nat, k: nat)
    requires AllEncodable(lane) && k < j <= |lane|
    requires AllEncodable(lane[..j]) && AllEncodable(lane[..k])
    ensures |Encodings(lane[..j])| > |Encodings(lane[..k])|
  {
    EncodingsSplit(lane[..j], k);
    assert lane[..j][..k] == lane[..k];
  }

  /** Two fronts of one lane: the shorter encoding is the shorter front, and the
      difference is the encoding of the frames between them. */
  lemma FrontGap(lane: seq<Frame>, j: nat, k: nat, tail: Bytes)
    requires AllEncodable(lane) && j <= |lane| && k <= |lane|
    requires AllEncodable(lane[..j]) && AllEncodable(lane[..k])
    requires Encodings(lane[..j]) + tail == Encodings(lane[..k])
    ensures j <= k && AllEncodable(lane[j..k]) && tail == Encodings(lane[j..k])
  {
    hide Encodable, Encodings;
    if j > k {
      FrontLonger(lane, j, k);
      assert false;
    }
    EncodingsSplit(lane[..k], j);
    assert lane[..k][..j] == lane[..j] && lane[..k][j..] == lane[j..k];
    SplitAt(Encodings(lane[..j]), tail, Encodings(lane[..j]), Encodings(lane[j..k]));
  }

  /** The output is an interleaving of the first `j` bulk frames with the priority
      frames so far, and then `tail`, which belongs to the bulk lane. */
  ghost predicate Interleaved(log: seq<Write>, lane: seq<Frame>, ts: seq<Tagged>, j: nat, tail: Bytes)
    requires LogOk(log)
  {
    && j <= |lane| && AllEncodable(lane[..j]) && AllEncodable(Strip(ts))
    && BulkOf(ts) == lane[..j] && PrioOf(ts) == PrioFrames(log)
    && OutputBytes(log) == Encodings(Strip(ts)) + tail
    && BulkBytes(log) == Encodings(lane[..j]) + tail
  }

  lemma {:induction false} InterleavesFront(log: seq<Write>, lane: seq<Frame>)
    returns (ts: seq<Tagged>, j: nat, tail: Bytes)
    requires LogOk(log) && AllOnBoundary(log, lane) && AllEncodable(lane)
    ensures Interleaved(log, lane, ts, j, tail)
    decreases |log|
  {
    hide Encodable, Encodings, Encoding, BulkOf, PrioOf, Strip;
    if log == [] {
      ts, j, tail := [], 0, [];
      EmptyTags();
      assert lane[..0] == [];
    } else {
      var front, w := log[..|log| - 1], log[|log| - 1];
      BoundaryFront(log, |log| - 1, lane);
      ts, j, tail := InterleavesFront(front, lane);
      assert BulkBytes(front) + [] == BulkBytes(front) && PrioFrames(front) + [] == PrioFrames(front);
      if w.BulkChunk? {
        Assoc(Encodings(Strip(ts)), tail, w.bytes);
        Assoc(Encodings(lane[..j]), tail, w.bytes);
        tail := tail + w.bytes;
      } else {
        assert log[..|log| - 1] == front && OnBoundary(front, lane);
        var done: seq<Frame> :| done <= lane && AllEncodable(done) && BulkBytes(front) == Encodings(done);
        var k := |done|;
        assert done == lane[..k];
        FrontGap(lane, j, k, tail);
        ghost var run := TagRun(ts, lane[j..k]);
        TagSnoc(run, FromPrio(w.frame));
        EncodingsSnoc(Strip(run), w.frame);
        assert lane[..k] == lane[..j] + lane[j..k];
        ts, j, tail := run + [FromPrio(w.frame)], k, [];
        assert Encodings(Strip(ts)) + [] == Encodings(Strip(ts)) && Encodings(lane[..k]) + [] == Encodings(lane[..k]);
      }
    }
  }

  lemma EmptyTags()
    ensures Strip([]) == [] && BulkOf([]) == [] && PrioOf([]) == [] && Encodings([]) == []
  {
  }

  /** When every priority frame stands between whole bulk frames, the output is the
      concatenated encodings of an interleaving of both lanes, each in order. */
  lemma Interleaves(log: seq<Write>, lane: seq<Frame>) returns (ts: seq<Tagged>)
    requires LogOk(log) && AllOnBoundary(log, lane)
    requires AllEncodable(lane) && BulkBytes(log) == Encodings(lane)
    ensures BulkOf(ts) == lane && PrioOf(ts) == PrioFrames(log)
    ensures AllEncodable(Strip(ts)) && OutputBytes(log) == Encodings(Strip(ts))
  {
    hide Encodable, Encodings, BulkOf, PrioOf, Strip, OutputBytes, AllOnBoundary, LogOk;
    var front, j, tail := InterleavesFront(log, lane);
    assert lane[..|lane|] == lane;
    FrontGap(lane, j, |lane|, tail);
    ts := TagRun(front, lane[j..|lane|]);
    assert lane == lane[..j] + lane[j..|lane|];
  }

  /** The output is the interleaving `ts` of the two lanes, and whoever reads it in these
      pieces receives that interleaving frame by frame. */
  ghost predicate CrossesAs(json: JsonParser, log: seq<Write>, lane: seq<Frame>, prioLane: seq<Frame>,
                            script: seq<Bytes>, ts: seq<Tagged>)
  {
    && LogOk(log) && BulkOf(ts) == lane && PrioOf(ts) == prioLane
    && AllEncodable(Strip(ts)) && OutputBytes(log) == Encodings(Strip(ts))
    && (NonEmptyReads(script) && Flat(script) == OutputBytes(log) ==>
          var outcomes := RecvMany(json, [], script, |Strip(ts)|).0;
          |outcomes| == |Strip(ts)| && forall i :: 0 <= i < |outcomes| ==> outcomes[i] == Received(Strip(ts)[i]))
  }

  /** THE delivery law of the writer. When every commit cut of every batch falls between
      frames, as it does where the frames that may share a batch fit one chunk: whatever
      arrives when, a writer that ends cleanly puts out an interleaving of both lanes, and
      the far end, however it reads, receives that interleaving frame by frame. */
  lemma InterleavingReceived(json: JsonParser, s: State, script: seq<Bytes>) returns (ts: seq<Tagged>)
    requires Fresh(s) && CutsClean(Lane(s)) && DriveStep(s).1
    requires forall f :: f in Lane(s) || f in PrioLane(s) ==> WellFormed(json, f)
    ensures CrossesAs(json, DriveStep(s).0.log, Lane(s), PrioLane(s), script, ts)
  {
    hide DriveStep, Lane, PrioLane, Encodable, Encodings, OutputBytes, Strip, BulkOf, PrioOf, SmallBatches, Aligned,
         NeverMidBatch, AllOnBoundary, CutsClean, RecvMany, Flat, WellFormed;
    DriveLaws(s);
    var log := DriveStep(s).0.log;
    CleanCutsPlace(s);
    ts := Interleaves(log, Lane(s));
    StripLanes(ts);
    if NonEmptyReads(script) && Flat(script) == OutputBytes(log) {
      assert [] + Flat(script) == Flat(script) && Encodings(Strip(ts)) + [] == Encodings(Strip(ts));
      Reassembly(json, Strip(ts), [], script, []);
    }
  }

  lemma {:induction false} StripLanes(ts: seq<Tagged>)
    ensures forall f :: f in Strip(ts) ==> f in BulkOf(ts) || f in PrioOf(ts)
  {
    if ts != [] {
      StripLanes(ts[..|ts| - 1]);
    }
  }

  // -------------------------------------------------- cuts inside a frame

  /** A frame whose first `cut` octets are out when something else is pushed in front
      of the others: the far end finds that very frame there exactly when what was
      pushed happens to repeat the octets it displaced. */
  lemma TornExact(json: JsonParser, b: Frame, cut: nat, pushed: Bytes)
    requires Encodable(b) && WellFormed(json, b) && cut <= |Encoding(b)| <= cut + |pushed|
    ensures var enc := Encoding(b);
            DecodeFrame(json, enc[..cut] + pushed) == Decoded(b, |enc|) <==> pushed[..|enc| - cut] == enc[cut..]
  {
    hide Payload, PayloadFits, Encoding, DecodeFrame, WellFormed;
    var enc := Encoding(b);
    var stream := enc[..cut] + pushed;
    var n := |enc| - cut;
    assert enc == enc[..cut] + enc[cut..];
    assert stream[..|enc|] == enc[..cut] + pushed[..n];
    SplitEqual(enc[..cut], pushed[..n], enc[..cut], enc[cut..]);
    if pushed[..n] == enc[cut..] {
      assert stream == enc + pushed[n..];
      FrameRoundTrip(json, b, pushed[n..]);
    }
    if DecodeFrame(json, stream) == Decoded(b, |enc|) {
      FrameRewrite(json, stream);
    }
  }

  /** In particular a frame whose four octets at the cut are not the magic never
      arrives as it was sent when a priority frame is written there. */
  lemma SpliceCorrupts(json: JsonParser, b: Frame, p: Frame, cut: nat, more: Bytes)
    requires Encodable(b) && WellFormed(json, b) && Encodable(p)
    requires cut + 4 <= |Encoding(b)| <= cut + |Encoding(p)| + |more|
    requires Encoding(b)[cut..cut + 4] != MAGIC
    ensures DecodeFrame(json, Encoding(b)[..cut] + (Encoding(p) + more)) != Decoded(b, |Encoding(b)|)
  {
    hide DecodeFrame, Encoding;
    var enc, pushed := Encoding(b), Encoding(p) + more;
    EncodingMagic(p);
    TornExact(json, b, cut, pushed);
    assert pushed[..|enc| - cut][..4] == Encoding(p)[..4];
    assert enc[cut..][..4] == enc[cut..cut + 4];
  }

  /** Behind the fixed fields of a data frame the damage goes unnoticed: the far end
      takes the same number of octets for a frame of the same connection. */
  lemma SpliceUnnoticed(json: JsonParser, b: Frame, cut: nat, pushed: Bytes)
    requires b.StreamData? && Encodable(b) && FRAME_HEADER_SIZE + 8 <= cut <= |Encoding(b)| <= cut + |pushed|
    ensures var enc := Encoding(b);
            var d := DecodeFrame(json, enc[..cut] + pushed);
            && d.Decoded? && d.consumed == |enc|
            && d.frame == StreamData(b.connectionId, b.sequenceId, enc[19..cut] + pushed[..|enc| - cut])
  {
    hide Peek, Payload, PayloadFits, Encoding, DecodePayload;
    var enc := Encoding(b);
    var stream := enc[..cut] + pushed;
    var seen := stream[..|enc|];
    EncodingLength(b);
    PeekEncoding(b, []);
    assert enc + [] == enc && enc == enc[..cut] + enc[cut..];
    PeekStable(enc[..cut], enc[cut..]);
    PeekStable(enc[..cut], pushed);
    assert seen == enc[..cut] + pushed[..|enc| - cut];
    StreamPayload(json, b, seen) by {
      assert seen[..19] == enc[..19] by { assert enc[..cut][..19] == enc[..19]; }
    }
    assert stream[FRAME_HEADER_SIZE..|enc|] == seen[FRAME_HEADER_SIZE..];
    assert seen[19..] == enc[19..cut] + pushed[..|enc| - cut];
  }

  /** A stream-data frame read from bytes that share its fixed fields. */
  lemma StreamPayload(json: JsonParser, b: Frame, bytes: Bytes)
    requires b.StreamData? && Encodable(b) && |bytes| == |Encoding(b)|
    requires 19 <= |bytes| && bytes[..19] == Encoding(b)[..19]
    ensures DecodePayload(json, 0x20, bytes[11..]) == Some(StreamData(b.connectionId, b.sequenceId, bytes[19..]))
    ensures Encoding(b)[19..] == b.data
  {
    hide U32At, Be32s, Header;
    var enc, body := Encoding(b), bytes[11..];
    var fields: seq<u32> := [b.connectionId, b.sequenceId];
    FieldsRoundTrip(fields, bytes[19..]);
    assert enc[11..] == Payload(b);
    assert bytes[11..19] == bytes[..19][11..] == enc[..19][11..] == enc[11..][..8] == Be32s(fields);
    assert body == Be32s(fields) + bytes[19..];
    assert U32At(body, 4 * 0, true) == fields[0] && U32At(body, 4 * 1, true) == fields[1];
    assert enc[19..] == enc[11..][8..];
  }

  // ---------------------------------------------- logs that cut inside a frame

  /** A front of a lane's bytes: whole frames and a front of the next. */
  ghost predicate SplitsAt(lane: seq<Frame>, bytes: Bytes, k: nat, cut: nat)
    requires AllEncodable(lane)
  {
    && k <= |lane| && AllEncodable(lane[..k])
    && (k == |lane| ==> cut == 0 && bytes == Encodings(lane[..k]))
    && (k < |lane| ==> cut < |Encoding(lane[k])| && bytes == Encodings(lane[..k]) + Encoding(lane[k])[..cut])
  }

  lemma {:induction false} FrontOf(lane: seq<Frame>, bytes: Bytes) returns (k: nat, cut: nat)
    requires AllEncodable(lane) && bytes <= Encodings(lane)
    ensures SplitsAt(lane, bytes, k, cut)
    decreases |lane|
  {
    hide Encodable, Encoding;
    if lane == [] {
      k, cut := 0, 0;
    } else {
      var e := Encoding(lane[0]);
      if |bytes| < |e| {
        k, cut := 0, |bytes|;
        assert bytes == e[..cut] && lane[..0] == [] && [] + bytes == bytes;
      } else {
        var rest := lane[1..];
        assert bytes[..|e|] == e && bytes[|e|..] <= Encodings(rest);
        k, cut := FrontOf(rest, bytes[|e|..]);
        assert lane[..k + 1] == [lane[0]] + rest[..k] && lane[..k + 1][1..] == rest[..k];
        assert bytes == e + bytes[|e|..];
        if k < |rest| {
          assert rest[k] == lane[k + 1];
          Assoc(e, Encodings(rest[..k]), Encoding(rest[k])[..cut]);
        }
        k := k + 1;
      }
    }
  }

  lemma {:induction false} BulkFront(log: seq<Write>, i: nat)
    requires i <= |log|
    ensures BulkBytes(log[..i]) <= BulkBytes(log)
    decreases |log|
  {
    if i == |log| {
      assert log[..i] == log;
    } else {
      BulkFront(log[..|log| - 1], i);
      assert log[..|log| - 1][..i] == log[..i];
    }
  }

  /** Write `i` comes in after `cut` octets of bulk frame `k`, behind whole frames. */
  ghost predicate CutsAt(log: seq<Write>, lane: seq<Frame>, i: nat, ts: seq<Tagged>, k: nat, cut: nat)
    requires LogOk(log) && AllEncodable(lane) && i < |log| && log[i].PrioWrite?
  {
    && k < |lane| && 0 < cut < |Encoding(lane[k])|
    && AllEncodable(Strip(ts)) && BulkOf(ts) == lane[..k] && PrioOf(ts) == PrioFrames(log[..i])
    && OutputBytes(log[..i + 1]) == Encodings(Strip(ts)) + Encoding(lane[k])[..cut] + Encoding(log[i].frame)
  }

  /** The first priority frame that is not between whole bulk frames: what is out before
      it is an interleaving of whole frames and a front of one bulk frame, and the
      priority frame comes in there. */
  lemma CutInside(log: seq<Write>, lane: seq<Frame>, i: nat) returns (ts: seq<Tagged>, k: nat, cut: nat)
    requires LogOk(log) && AllEncodable(lane) && BulkBytes(log) <= Encodings(lane)
    requires i < |log| && log[i].PrioWrite? && AllOnBoundary(log[..i], lane) && !OnBoundary(log[..i], lane)
    ensures CutsAt(log, lane, i, ts, k, cut)
  {
    hide Encodable, Encodings, Encoding, BulkOf, PrioOf, Strip;
    var front := log[..i];
    assert LogOk(front) by { LogFront(log, i); }
    var ts0, j, tail := InterleavesFront(front, lane);
    BulkFront(log, i);
    k, cut := FrontOf(lane, BulkBytes(front));
    if k == |lane| || cut == 0 {
      WholeFront(front, lane, k, if k < |lane| then Encoding(lane[k])[..cut] else []);
      assert false;
    }
    var torn := Encoding(lane[k])[..cut];
    TailOfGap(lane, j, tail, k, torn);
    ts := TagRun(ts0, lane[j..k]);
    assert lane[..k] == lane[..j] + lane[j..k];
    Assoc(Encodings(Strip(ts0)), Encodings(lane[j..k]), torn);
    assert log[..i + 1][..i] == front && log[..i + 1][i] == log[i];
  }

  lemma LogFront(log: seq<Write>, i: nat)
    requires i <= |log| && LogOk(log)
    ensures LogOk(log[..i])
  {
    hide Encodable;
  }

  lemma WholeFront(log: seq<Write>, lane: seq<Frame>, k: nat, torn: Bytes)
    requires k <= |lane| && AllEncodable(lane[..k]) && BulkBytes(log) == Encodings(lane[..k]) + torn && torn == []
    ensures OnBoundary(log, lane)
  {
    assert BulkBytes(log) == Encodings(lane[..k]) && lane[..k] <= lane;
  }

  lemma TailOfGap(lane: seq<Frame>, j: nat, tail: Bytes, k: nat, torn: Bytes)
    requires AllEncodable(lane) && j <= |lane| && k < |lane| && AllEncodable(lane[..j]) && AllEncodable(lane[..k])
    requires |torn| < |Encoding(lane[k])| && Encodings(lane[..j]) + tail == Encodings(lane[..k]) + torn
    ensures j <= k && AllEncodable(lane[j..k]) && tail == Encodings(lane[j..k]) + torn
  {
    hide Encodable, Encodings, Encoding;
    if j > k {
      EncodingsSplit(lane[..j], k + 1);
      assert lane[..j][..k + 1] == lane[..k] + [lane[k]];
      EncodingsSnoc(lane[..k], lane[k]);
      assert false;
    }
    EncodingsSplit(lane[..k], j);
    assert lane[..k][..j] == lane[..j] && lane[..k][j..] == lane[j..k];
    Assoc(Encodings(lane[..j]), Encodings(lane[j..k]), torn);
    SplitEqual(Encodings(lane[..j]), tail, Encodings(lane[..j]), Encodings(lane[j..k]) + torn);
  }

  /** The octets coming in the place of the displaced ones decide whether the cut frame
      is found. */
  ghost predicate FoundExactly(json: JsonParser, log: seq<Write>, lane: seq<Frame>, i: nat, more: Bytes,
                               ts: seq<Tagged>, k: nat, cut: nat)
    requires LogOk(log) && AllEncodable(lane) && i < |log| && log[i].PrioWrite? && CutsAt(log, lane, i, ts, k, cut)
  {
    var b, pushed := lane[k], Encoding(log[i].frame) + more;
    && OutputBytes(log[..i + 1]) + more == Encodings(Strip(ts)) + (Encoding(b)[..cut] + pushed)
    && (|Encoding(b)| <= cut + |pushed| ==>
          (DecodeFrame(json, Encoding(b)[..cut] + pushed) == Decoded(b, |Encoding(b)|)
           <==> pushed[..|Encoding(b)| - cut] == Encoding(b)[cut..]))
  }

  /** THE converse of the interleaving. In any output whose first misplaced priority
      frame is write `i`, the far end gets whole frames up to the bulk frame it cuts,
      and that bulk frame, whatever follows, exactly when the octets coming in its
      place repeat the ones displaced. */
  lemma MisplacedExact(json: JsonParser, log: seq<Write>, lane: seq<Frame>, i: nat, more: Bytes)
    returns (ts: seq<Tagged>, k: nat, cut: nat)
    requires LogOk(log) && AllEncodable(lane) && BulkBytes(log) <= Encodings(lane)
    requires i < |log| && log[i].PrioWrite? && AllOnBoundary(log[..i], lane) && !OnBoundary(log[..i], lane)
    requires forall f :: f in lane ==> WellFormed(json, f)
    ensures CutsAt(log, lane, i, ts, k, cut) && FoundExactly(json, log, lane, i, more, ts, k, cut)
  {
    hide Encodable, Encodings, Encoding, BulkOf, PrioOf, Strip, WellFormed, DecodeFrame, AllOnBoundary, OnBoundary;
    ts, k, cut := CutInside(log, lane, i);
    var b, pushed := lane[k], Encoding(log[i].frame) + more;
    assert lane[k] in lane;
    Assoc(Encoding(b)[..cut], Encoding(log[i].frame), more);
    Assoc(Encodings(Strip(ts)), Encoding(b)[..cut], Encoding(log[i].frame));
    Assoc(Encodings(Strip(ts)), Encoding(b)[..cut] + Encoding(log[i].frame), more);
    if |Encoding(b)| <= cut + |pushed| { TornExact(json, b, cut, pushed); }
  }

  // -------------------------------------------------- a run that makes the cut

  const NOBODY: Arrival := Arrival([], [], false)

  /** One bulk frame arrives, and a priority frame while its first chunk is written. */
  function CuttingArrivals(b: Frame, p: Frame): seq<Arrival> {
    [Arrival([b], [], false), NOBODY, NOBODY, NOBODY, NOBODY, Arrival([], [p], false)]
  }

  function CutLog(b: Frame, p: Frame): seq<Write>
    requires Encodable(b) && OUTBOUND_WRITE_CHUNK < |Encoding(b)|
  {
    var enc := Encoding(b);
    [BulkChunk(enc[0..OUTBOUND_WRITE_CHUNK]), PrioWrite(p, 0, true), BulkChunk(enc[OUTBOUND_WRITE_CHUNK..|enc|])]
  }

  lemma TickEmpty(s: State)
    requires s.future == [] || s.future[0] == NOBODY
    ensures TickStep(s) == (s.(future := if s.future == [] then [] else s.future[1..]), false)
  {
    assert s.bulk + [] == s.bulk && s.prio + [] == s.prio;
  }

  lemma PopEmpty(s: State)
    requires s.prio == [] && (s.future == [] || s.future[0] == NOBODY)
    ensures PopStep(s) == (s.(future := if s.future == [] then [] else s.future[1..]), None)
  {
    TickEmpty(s);
  }

  lemma TakesFirst(b: Frame, later: seq<Arrival>, writesLeft: nat)
    ensures AnyStep(Start([Arrival([b], [], false)] + later, writesLeft, 0))
         == (State([], [], later, [], 0, writesLeft, 0, Nothing, [b]), Bulk(b))
  {
    var start := Start([Arrival([b], [], false)] + later, writesLeft, 0);
    assert start.future[0] == Arrival([b], [], false) && start.future[1..] == later;
    assert TickStep(start).0 == start.(bulk := [b], future := later) by { assert [] + [b] == [b] && Stamp([], 0) == []; }
    assert [b][1..] == [] && [] + [b] == [b];
  }

  /** With nobody arriving a frame makes a batch alone. */
  lemma IdleBatch(s: State, b: Frame)
    requires s.bulk == [] && |s.future| >= 2 && s.future[0] == NOBODY && s.future[1] == NOBODY
    requires Encodable(b) && |Encoding(b)| < OUTBOUND_BATCH_BYTES
    ensures BatchStep(s, b) == (s.(future := s.future[2..]), Encoding(b), false)
  {
    hide Encoding, Encodable;
    TickEmpty(s);
    var v := s.(future := s.future[1..]);
    TickEmpty(v);
    assert s.future[1..][1..] == s.future[2..];
    assert TryRecvStep(v) == (s.(future := s.future[2..]), None);
  }

  lemma IdleDrain(s: State, midBatch: bool)
    requires s.prio == [] && s.future != [] && s.future[0] == NOBODY
    ensures DrainPrioStep(s, midBatch) == (s.(future := s.future[1..]), true)
  {
    PopEmpty(s);
  }

  lemma IdleBulk(s: State, chunk: Bytes)
    requires s.writesLeft > 0 && s.future != [] && s.future[0] == NOBODY
    ensures BulkStep(s, chunk)
         == (s.(future := s.future[1..], log := s.log + [BulkChunk(chunk)], writesLeft := s.writesLeft - 1,
                chunksWritten := s.chunksWritten + 1), true)
  {
    TickEmpty(s);
  }

  /** The second half: the priority frame goes out, then the rest of the bulk frame. */
  lemma CutSecondHalf(b: Frame, p: Frame, mid: State)
    requires Encodable(b) && Encodable(p) && OUTBOUND_WRITE_CHUNK < |Encoding(b)| <= 2 * OUTBOUND_WRITE_CHUNK
    requires var first := BulkChunk(Encoding(b)[0..OUTBOUND_WRITE_CHUNK]);
             mid == State([], [], [Arrival([], [p], false)], [first], 1, 2, 0, Nothing, [b])
    ensures CommitStep(mid, Encoding(b), false, OUTBOUND_WRITE_CHUNK)
         == (State([], [], [], CutLog(b, p), 2, 0, 0, Nothing, [b]), true)
  {
    hide Encoding, Encodable;
    var enc := Encoding(b);
    var got := mid.(future := [], prio := [Parked(p, 1)]);
    assert TickStep(mid).0 == got by { assert [] + Stamp([p], 1) == [Parked(p, 1)]; }
    assert PopStep(mid) == (got.(prio := []), Some(Parked(p, 1)));
    var sent := got.(prio := [], log := mid.log + [PrioWrite(p, 0, true)], writesLeft := 1);
    assert PrioStep(got.(prio := []), Parked(p, 1), true) == (sent, true);
    PopEmpty(sent);
    assert DrainPrioStep(mid, true) == (sent, true);
    var rest := enc[OUTBOUND_WRITE_CHUNK..|enc|];
    assert CutEnd(OUTBOUND_WRITE_CHUNK, |enc|) == |enc|;
    var last := sent.(log := sent.log + [BulkChunk(rest)], writesLeft := 0, chunksWritten := 2);
    TickEmpty(sent);
    assert BulkStep(sent, rest) == (last, true);
    assert last.log == CutLog(b, p);
  }

  /** A clean run of the writer that cuts inside a frame: a bulk frame of more than one
      commit chunk and at most two, met by a priority frame that arrives while its first
      chunk goes out. */
  lemma CuttingRun(b: Frame, p: Frame)
    requires Encodable(b) && Encodable(p) && OUTBOUND_WRITE_CHUNK < |Encoding(b)| <= 2 * OUTBOUND_WRITE_CHUNK
    ensures var (s, clean) := DriveStep(Start(CuttingArrivals(b, p), 3, 0));
            clean && s.log == CutLog(b, p) && s.taken == [b]
  {
    hide Encoding, Encodable, AnyStep, BatchStep, DrainPrioStep, BulkStep, CommitStep, DriveStep, TickStep, CutLog;
    var enc, chunk := Encoding(b), Encoding(b)[0..OUTBOUND_WRITE_CHUNK];
    var last := Arrival([], [p], false);
    var taken := State([], [], [NOBODY, NOBODY, NOBODY, NOBODY, last], [], 0, 3, 0, Nothing, [b]);
    assert CuttingArrivals(b, p) == [Arrival([b], [], false)] + taken.future;
    TakesFirst(b, taken.future, 3);
    IdleBatch(taken, b);
    var batched := taken.(future := [NOBODY, NOBODY, last]);
    assert taken.future[2..] == batched.future;
    IdleDrain(batched, false);
    var drained := taken.(future := [NOBODY, last]);
    assert batched.future[1..] == drained.future;
    IdleBulk(drained, chunk);
    var mid := State([], [], [last], [BulkChunk(chunk)], 1, 2, 0, Nothing, [b]);
    assert drained.future[1..] == [last] && [] + [BulkChunk(chunk)] == [BulkChunk(chunk)];
    assert CutEnd(0, |enc|) == OUTBOUND_WRITE_CHUNK;
    CommitChunk(batched, drained, enc, 0, mid);
    CutSecondHalf(b, p, mid);
    var end := State([], [], [], CutLog(b, p), 2, 0, 0, Nothing, [b]);
    DriveBulk(Start(CuttingArrivals(b, p), 3, 0), taken, b, batched, enc, end);
    Closed(end);
  }

  lemma CommitChunk(s: State, drained: State, committed: Bytes, off: nat, u: State)
    requires off < |committed| && DrainPrioStep(s, off > 0) == (drained, true)
    requires BulkStep(drained, committed[off..CutEnd(off, |committed|)]) == (u, true)
    ensures CommitStep(s, committed, false, off) == CommitStep(u, committed, false, CutEnd(off, |committed|))
  {
    hide DrainPrioStep, BulkStep;
  }

  lemma DriveBulk(s: State, taken: State, b: Frame, batched: State, enc: Bytes, end: State)
    requires AnyStep(s) == (taken, Bulk(b)) && BatchStep(taken, b) == (batched, enc, false)
    requires CommitStep(batched, enc, false, 0) == (end, true)
    ensures DriveStep(s) == DriveStep(end)
  {
    hide AnyStep, BatchStep, CommitStep;
  }

  lemma Closed(s: State)
    requires s.bulk == [] && s.prio == [] && s.future == []
    ensures DriveStep(s) == (s, true)
  {
    assert AnyStep(s) == (s, BulkClosed);
  }

  /** What the far end makes of that run: a data frame of the right length, connection
      and number, with other octets in it, unless the four at the cut are the magic. */
  lemma CuttingRunCorrupts(json: JsonParser, b: Frame, p: Frame)
    requires b.StreamData? && Encodable(b) && Encodable(p)
    requires OUTBOUND_WRITE_CHUNK + 4 <= |Encoding(b)| <= 2 * OUTBOUND_WRITE_CHUNK
    requires Encoding(b)[OUTBOUND_WRITE_CHUNK..OUTBOUND_WRITE_CHUNK + 4] != MAGIC
    ensures var (s, clean) := DriveStep(Start(CuttingArrivals(b, p), 3, 0));
            clean && LogOk(s.log) &&
            var d := DecodeFrame(json, OutputBytes(s.log));
            && d.Decoded? && d.consumed == |Encoding(b)| && d.frame != b && d.frame.StreamData?
            && d.frame.connectionId == b.connectionId && d.frame.sequenceId == b.sequenceId
  {
    hide Encoding, Encodable, DriveStep, DecodeFrame;
    CuttingRun(b, p);
    var enc := Encoding(b);
    var pushed := Encoding(p) + enc[OUTBOUND_WRITE_CHUNK..];
    CutOutput(b, p);
    SpliceUnnoticed(json, b, OUTBOUND_WRITE_CHUNK, pushed);
    SpliceCorrupts(json, b, p, OUTBOUND_WRITE_CHUNK, enc[OUTBOUND_WRITE_CHUNK..]) by { assert WellFormed(json, b); }
  }

  lemma CutOutput(b: Frame, p: Frame)
    requires Encodable(b) && Encodable(p) && OUTBOUND_WRITE_CHUNK < |Encoding(b)| <= 2 * OUTBOUND_WRITE_CHUNK
    ensures var enc, log := Encoding(b), CutLog(b, p);
            LogOk(log) && OutputBytes(log) == enc[..OUTBOUND_WRITE_CHUNK] + (Encoding(p) + enc[OUTBOUND_WRITE_CHUNK..])
  {
    hide Encoding, Encodable;
    var enc, log := Encoding(b), CutLog(b, p);
    var one, two := log[..1], log[..2];
    assert one[..0] == [] && two[..1] == one && log[..2] == two;
    assert enc[0..OUTBOUND_WRITE_CHUNK] == enc[..OUTBOUND_WRITE_CHUNK] && enc[OUTBOUND_WRITE_CHUNK..|enc|] == enc[OUTBOUND_WRITE_CHUNK..];
    assert OutputBytes(one) == [] + enc[..OUTBOUND_WRITE_CHUNK];
    assert OutputBytes(two) == OutputBytes(one) + Encoding(p);
  }
}
