/** The whole way down: an application's stream through the recoder, the data
    plane, the frame codec and a byte stream read in arbitrary pieces, and back
    (crates/rx11-server/src/x11_listener.rs sends one payload per unit;
    crates/rx11-client/src/proxy.rs expands one unit per payload). */
module Downlink {
  import opened Bytes
  import opened Messages
  import opened Incremental
  import opened FrameCodec
  import opened Transport
  import opened DataPlanes
  import opened DataPlaneRuns
  import opened FrameLimits
  import opened Writer
  import opened WriterCuts
  import opened WriterProofs
  import opened X11Recode
  import X11Frame
  import BinaryCodec
  import Recoder = X11RecodeProofs

  datatype Outgoing = Outgoing(conn: u32, seqId: u32, data: Bytes)

  const FRESH_END: End := End([], map[])

  /** The frames a plane builds for a list of payloads, and where it ends up. */
  function BuildAll(p: Policy, params: DiffParams, e: End, sends: seq<Outgoing>): (seq<Frame>, End)
    requires params.chunkSize > 0
  {
    if sends == [] then ([], e)
    else
      var (frames, e1) := BuildAll(p, params, e, sends[..|sends| - 1]);
      var s := sends[|sends| - 1];
      var (f, e2) := BuildFrame(p, params, e1, s.conn, s.seqId, s.data);
      (frames + [f], e2)
  }

  ghost predicate Delivered(sends: seq<Outgoing>, outs: seq<Inbound>) {
    |outs| == |sends| && forall i :: 0 <= i < |sends| ==> outs[i] == Payload(sends[i].conn, sends[i].data)
  }

  lemma {:induction false} FramesDeliver(sp: Policy, rp: Policy, params: DiffParams, sends: seq<Outgoing>)
    requires Matched(sp, rp) && params.chunkSize > 0
    requires forall i :: 0 <= i < |sends| ==> sends[i].data != []
    ensures var (frames, s) := BuildAll(sp, params, FRESH_END, sends);
            var (outs, r) := Drain(rp, FRESH_END, frames);
            |frames| == |sends| && Delivered(sends, outs) && Agree(s, r, {})
  {
    hide BuildFrame, ApplyInbound, Matched, Drain;
    if sends == [] {
      NothingDrained(rp);
    } else {
      var front, last := sends[..|sends| - 1], sends[|sends| - 1];
      FramesDeliver(sp, rp, params, front);
      var (frames, s) := BuildAll(sp, params, FRESH_END, front);
      var (outs, r) := Drain(rp, FRESH_END, frames);
      var f := BuildFrame(sp, params, s, last.conn, last.seqId, last.data).0;
      SendReceive(sp, rp, params, s, r, {}, last.conn, last.seqId, last.data);
      DrainSnoc(rp, FRESH_END, frames, f);
    }
  }

  lemma NothingDrained(rp: Policy)
    ensures Drain(rp, FRESH_END, []) == ([], FRESH_END)
  {
  }

  lemma {:induction false} AllWellFormed(p: Policy, params: DiffParams, json: JsonParser, e: End, sends: seq<Outgoing>)
    requires params.chunkSize > 0
    ensures var frames := BuildAll(p, params, e, sends).0;
            |frames| == |sends| && forall i :: 0 <= i < |frames| ==> WellFormed(json, frames[i])
  {
    hide BuildFrame, WellFormed;
    if sends != [] {
      var front, last := sends[..|sends| - 1], sends[|sends| - 1];
      AllWellFormed(p, params, json, e, front);
      BuildWellFormed(p, params, json, BuildAll(p, params, e, front).1, last.conn, last.seqId, last.data);
    }
  }

  function FramesOf(outcomes: seq<Outcome>): seq<Frame>
    requires forall i :: 0 <= i < |outcomes| ==> outcomes[i].Received?
  {
    seq(|outcomes|, i requires 0 <= i < |outcomes| => outcomes[i].frame)
  }

  lemma {:induction false} AllEncodable(p: Policy, params: DiffParams, worst: nat -> nat, e: End, sends: seq<Outgoing>)
    requires params.chunkSize > 0 && Expands(p.lib, worst)
    requires forall i :: 0 <= i < |sends| ==> Fits(p, params, worst, |sends[i].data|)
    ensures var frames := BuildAll(p, params, e, sends).0;
            |frames| == |sends| && forall i :: 0 <= i < |frames| ==> Encodable(frames[i])
  {
    hide BuildFrame, Encodable, Fits, Expands;
    if sends != [] {
      var front, last := sends[..|sends| - 1], sends[|sends| - 1];
      AllEncodable(p, params, worst, e, front);
      FitsEncodes(p, params, worst, BuildAll(p, params, e, front).1, last.conn, last.seqId, last.data);
    }
  }

  /** Frames that could be encoded, one after another and read in any pieces, are
      received one by one and answered with exactly the payloads they were built for. */
  lemma FramesCross(sp: Policy, rp: Policy, params: DiffParams, json: JsonParser,
                      sends: seq<Outgoing>, script: seq<Bytes>)
    requires Matched(sp, rp) && params.chunkSize > 0 && NonEmptyReads(script)
    requires forall i :: 0 <= i < |sends| ==> sends[i].data != []
    requires var frames := BuildAll(sp, params, FRESH_END, sends).0;
             (forall i :: 0 <= i < |frames| ==> Encodable(frames[i])) && Flat(script) == Encodings(frames)
    ensures var (outcomes, left, unread) := RecvMany(json, [], script, |sends|);
            && |outcomes| == |sends| && (forall i :: 0 <= i < |outcomes| ==> outcomes[i].Received?)
            && left + Flat(unread) == []
            && Delivered(sends, Drain(rp, FRESH_END, FramesOf(outcomes)).0)
  {
    hide BuildAll, Encodings, Encodable, WellFormed, Drain, RecvMany, Matched, Flat;
    var frames := BuildAll(sp, params, FRESH_END, sends).0;
    FramesDeliver(sp, rp, params, sends);
    AllWellFormed(sp, params, json, FRESH_END, sends);
    assert [] + Flat(script) == Flat(script) && Encodings(frames) + [] == Encodings(frames);
    Reassembly(json, frames, [], script, []);
    assert FramesOf(RecvMany(json, [], script, |sends|).0) == frames;
  }

  /** THE transport of payloads. Whatever the connections, the sequence numbers and
      the payloads, as long as each payload fits by its length, the frames built for
      them all encode, and their bytes, read in any pieces, are received one by one
      and answered with exactly the payloads, in order. */
  lemma PayloadsCross(sp: Policy, rp: Policy, params: DiffParams, worst: nat -> nat, json: JsonParser,
                      sends: seq<Outgoing>, script: seq<Bytes>)
    requires Matched(sp, rp) && params.chunkSize > 0 && Expands(sp.lib, worst) && NonEmptyReads(script)
    requires forall i :: 0 <= i < |sends| ==> sends[i].data != [] && Fits(sp, params, worst, |sends[i].data|)
    ensures var frames := BuildAll(sp, params, FRESH_END, sends).0;
            && (forall i :: 0 <= i < |frames| ==> Encodable(frames[i]))
            && (Flat(script) == Encodings(frames) ==>
                  var (outcomes, left, unread) := RecvMany(json, [], script, |sends|);
                  && |outcomes| == |sends| && (forall i :: 0 <= i < |outcomes| ==> outcomes[i].Received?)
                  && left + Flat(unread) == []
                  && Delivered(sends, Drain(rp, FRESH_END, FramesOf(outcomes)).0))
  {
    hide BuildAll, Encodings, Encodable, Drain, RecvMany, Matched, Flat, Fits, Expands;
    AllEncodable(sp, params, worst, FRESH_END, sends);
    if Flat(script) == Encodings(BuildAll(sp, params, FRESH_END, sends).0) {
      FramesCross(sp, rp, params, json, sends, script);
    }
  }

  // ------------------------------------------------------------ both lanes

  /** What the client does with a frame: data of an audio channel it owns goes straight
      to the player, control frames to their own handlers, other data to the plane. */
  datatype Handled = Answer(inbound: Inbound) | Played(channel: u32, data: Bytes) | Elsewhere

  predicate OutsidePlane(f: Frame, owned: set<u32>) {
    f.Control? || f.Heartbeat? || f.HeartbeatAck? || (f.StreamData? && f.connectionId in owned)
  }

  function Divert(f: Frame): Handled { if f.StreamData? then Played(f.connectionId, f.data) else Elsewhere }

  function Dispatch(rp: Policy, owned: set<u32>, e: End, f: Frame): (Handled, End) {
    if OutsidePlane(f, owned) then (Divert(f), e)
    else
      var (out, e1) := ApplyInbound(rp, e, f);
      (Answer(out), e1)
  }

  function DispatchAll(rp: Policy, owned: set<u32>, e: End, frames: seq<Frame>): (seq<Handled>, End) {
    if frames == [] then ([], e)
    else
      var (done, e1) := DispatchAll(rp, owned, e, frames[..|frames| - 1]);
      var (h, e2) := Dispatch(rp, owned, e1, frames[|frames| - 1]);
      (done + [h], e2)
  }

  lemma DispatchSnoc(rp: Policy, owned: set<u32>, e: End, frames: seq<Frame>, f: Frame)
    ensures var (done, e1) := DispatchAll(rp, owned, e, frames);
            var (h, e2) := Dispatch(rp, owned, e1, f);
            DispatchAll(rp, owned, e, frames + [f]) == (done + [h], e2)
  {
    assert (frames + [f])[..|frames|] == frames;
  }

  /** What was done with the bulk frames of an interleaving. */
  function BulkHandled(ts: seq<Tagged>, hs: seq<Handled>): seq<Handled>
    requires |hs| == |ts|
  {
    if ts == [] then []
    else
      var n := |ts| - 1;
      BulkHandled(ts[..n], hs[..n]) + if ts[n].FromBulk? then [hs[n]] else []
  }

  function Answers(outs: seq<Inbound>): seq<Handled> { seq(|outs|, i requires 0 <= i < |outs| => Answer(outs[i])) }

  /** Each priority frame went where it belongs, and the plane answered the bulk frames as
      if they had come alone. */
  ghost predicate Sorted(rp: Policy, owned: set<u32>, r: End, ts: seq<Tagged>) {
    var (hs, e) := DispatchAll(rp, owned, r, Strip(ts));
    var (outs, e') := Drain(rp, r, BulkOf(ts));
    && |hs| == |ts| && e == e'
    && (forall i :: 0 <= i < |ts| && ts[i].FromPrio? ==> hs[i] == Divert(ts[i].frame))
    && BulkHandled(ts, hs) == Answers(outs)
  }

  lemma {:induction false} DispatchSorts(rp: Policy, owned: set<u32>, r: End, ts: seq<Tagged>)
    requires forall t :: t in ts ==> (t.FromPrio? <==> OutsidePlane(t.frame, owned))
    ensures Sorted(rp, owned, r, ts)
  {
    hide ApplyInbound, Drain, Strip, BulkOf, PrioOf, Dispatch, DispatchAll, OutsidePlane, Divert;
    if ts == [] {
      assert Strip([]) == [] && BulkOf([]) == [] && Drain(rp, r, []) == ([], r) && DispatchAll(rp, owned, r, []) == ([], r)
        by { NoTags(rp, owned, r); }
    } else {
      var n := |ts| - 1;
      var front, t := ts[..n], ts[n];
      assert ts == front + [t];
      DispatchSorts(rp, owned, r, front);
      TagSnoc(front, t);
      var (hs, e) := DispatchAll(rp, owned, r, Strip(front));
      DispatchSnoc(rp, owned, r, Strip(front), t.frame);
      DispatchOne(rp, owned, e, t.frame);
      var all := hs + [Dispatch(rp, owned, e, t.frame).0];
      assert all[..n] == hs;
      if t.FromBulk? {
        DrainSnoc(rp, r, BulkOf(front), t.frame);
      } else {
        assert BulkHandled(front, hs) + [] == BulkHandled(front, hs);
      }
    }
  }

  lemma NoTags(rp: Policy, owned: set<u32>, r: End)
    ensures Strip([]) == [] && BulkOf([]) == [] && Drain(rp, r, []) == ([], r) && DispatchAll(rp, owned, r, []) == ([], r)
  {
  }

  lemma DispatchOne(rp: Policy, owned: set<u32>, e: End, f: Frame)
    ensures Dispatch(rp, owned, e, f) ==
            if OutsidePlane(f, owned) then (Divert(f), e) else (Answer(ApplyInbound(rp, e, f).0), ApplyInbound(rp, e, f).1)
  {
  }

  /** Where each frame goes: a plain data frame of an owned audio channel to its player, any
      other data frame to the plane, everything else to neither; only the plane changes. */
  lemma DispatchedExactly(rp: Policy, owned: set<u32>, e: End, f: Frame)
    ensures var (h, e') := Dispatch(rp, owned, e, f);
            && (f.StreamData? && f.connectionId in owned ==> h == Played(f.connectionId, f.data) && e' == e)
            && ((f.StreamData? && f.connectionId !in owned) || f.CompressedStreamData? || f.IncrementalStreamData?
                || f.CompressedIncrementalStreamData? ==>
                  h == Answer(ApplyInbound(rp, e, f).0) && e' == ApplyInbound(rp, e, f).1)
            && (f.Control? || f.Heartbeat? || f.HeartbeatAck? ==> h == Elsewhere && e' == e)
  {
    hide ApplyInbound;
  }

  /** A frame built for a connection that is no audio channel is for the plane. */
  lemma {:induction false} BuiltForPlane(p: Policy, params: DiffParams, e: End, sends: seq<Outgoing>, owned: set<u32>)
    requires params.chunkSize > 0 && forall i :: 0 <= i < |sends| ==> sends[i].conn !in owned
    ensures forall f :: f in BuildAll(p, params, e, sends).0 ==> !OutsidePlane(f, owned)
  {
    hide BuildFrame, OutsidePlane;
    if sends != [] {
      var front, last := sends[..|sends| - 1], sends[|sends| - 1];
      BuiltForPlane(p, params, e, front, owned);
      assert !OutsidePlane(BuildFrame(p, params, BuildAll(p, params, e, front).1, last.conn, last.seqId, last.data).0, owned)
        by { BuiltKind(p, params, BuildAll(p, params, e, front).1, last, owned); }
    }
  }

  lemma BuiltKind(p: Policy, params: DiffParams, e: End, s: Outgoing, owned: set<u32>)
    requires params.chunkSize > 0 && s.conn !in owned
    ensures !OutsidePlane(BuildFrame(p, params, e, s.conn, s.seqId, s.data).0, owned)
  {
    hide Compute, Compress;
  }

  /** What is answered to payloads that arrive as they were sent. */
  ghost predicate AnsweredInOrder(rp: Policy, owned: set<u32>, sends: seq<Outgoing>, ts: seq<Tagged>) {
    var hs := DispatchAll(rp, owned, FRESH_END, Strip(ts)).0;
    && |hs| == |ts|
    && (forall i :: 0 <= i < |ts| && ts[i].FromPrio? ==> hs[i] == Divert(ts[i].frame))
    && |BulkHandled(ts, hs)| == |sends|
    && forall i :: 0 <= i < |sends| ==> BulkHandled(ts, hs)[i] == Answer(Payload(sends[i].conn, sends[i].data))
  }

  /** THE transport of payloads beside the priority lane. Payloads that fit by their
      length, on a link whose commit cuts fall between frames, cross beside a priority lane of
      control frames and the sound of audio channels: whatever arrives when and however
      the far end reads, every frame of both lanes is received; the client plays the
      sound of the channels it owns, and answers the payloads in order. */
  lemma BothLanesCross(sp: Policy, rp: Policy, params: DiffParams, worst: nat -> nat, json: JsonParser, owned: set<u32>,
                       sends: seq<Outgoing>, link: State, script: seq<Bytes>) returns (ts: seq<Tagged>)
    requires Matched(sp, rp) && params.chunkSize > 0 && Expands(sp.lib, worst)
    requires forall i :: 0 <= i < |sends| ==>
               sends[i].data != [] && sends[i].conn !in owned && Fits(sp, params, worst, |sends[i].data|)
    requires Fresh(link) && Lane(link) == BuildAll(sp, params, FRESH_END, sends).0
    requires CutsClean(Lane(link)) && DriveStep(link).1
    requires forall f :: f in PrioLane(link) ==> OutsidePlane(f, owned) && WellFormed(json, f)
    ensures CrossesAs(json, DriveStep(link).0.log, Lane(link), PrioLane(link), script, ts)
    ensures AnsweredInOrder(rp, owned, sends, ts)
  {
    hide DriveStep, Lane, PrioLane, LogOk, Encodable, Encodings, OutputBytes, Strip, BulkOf, PrioOf, CutsClean,
         RecvMany, Flat, WellFormed, BuildAll, Drain, DispatchAll, Fits, Expands, Matched, OutsidePlane;
    AllWellFormed(sp, params, json, FRESH_END, sends);
    ts := InterleavingReceived(json, link, script);
    LaneTagged(ts);
    BuiltForPlane(sp, params, FRESH_END, sends, owned);
    FramesDeliver(sp, rp, params, sends);
    DispatchSorts(rp, owned, FRESH_END, ts);
  }

  lemma {:induction false} LaneTagged(ts: seq<Tagged>)
    ensures forall t :: t in ts ==> if t.FromPrio? then t.frame in PrioOf(ts) else t.frame in BulkOf(ts)
  {
    if ts != [] {
      var front, last := ts[..|ts| - 1], ts[|ts| - 1];
      LaneTagged(front);
      assert forall t :: t in ts ==> t in front || t == last;
    }
  }

  // -------------------------------------------------- an application's stream

  function UnitPayloads(conn: u32, seqIds: seq<u32>, units: seq<Unit>): seq<Outgoing>
    requires |seqIds| == |units|
  {
    seq(|units|, i requires 0 <= i < |units| => Outgoing(conn, seqIds[i], Wire(units[i])))
  }

  /** What the client writes to the local X server for the payloads it was given:
      nothing at all once one cannot be expanded. */
  function ExpandPayloads(lib: Imaging, outs: seq<Inbound>): Option<Bytes> {
    if outs == [] then Some([])
    else if !outs[0].Payload? then None
    else
      match Expand(lib, outs[0].data)
      case Expanded(d) =>
        (match ExpandPayloads(lib, outs[1..])
         case None => None
         case Some(more) => Some(d + more))
      case _ => None
  }

  lemma {:induction false} ExpandDelivered(lib: Imaging, units: seq<Unit>, outs: seq<Inbound>)
    requires |outs| == |units|
    requires forall i :: 0 <= i < |units| ==> outs[i].Payload? && outs[i].data == Wire(units[i])
    ensures ExpandPayloads(lib, outs) == ExpandAll(lib, units)
    decreases |units|
  {
    hide Expand, Wire;
    if units != [] {
      assert outs[0].data == Wire(units[0]);
      ExpandDelivered(lib, units[1..], outs[1..]);
    }
  }

  lemma {:induction false} UnitsBounded(spec: RecodeSpec, acc: Bytes, items: seq<Item>)
    requires Recoder.AllSound(spec, items)
    ensures forall u :: u in Emit(acc, items) ==> |Wire(u)| <= 1 + |acc| + |Recoder.Src(items)|
    decreases |items|
  {
    hide Recoder.Sound;
    if items != [] {
      var i, rest := items[0], items[1..];
      assert Recoder.AllSound(spec, rest);
      if i.Raw? {
        UnitsBounded(spec, acc + i.data, rest);
      } else {
        UnitsBounded(spec, [], rest);
        ContainerBounded(spec, i);
        assert forall u :: u in FlushRaw(acc) ==> |Wire(u)| == 1 + |acc|;
      }
    }
  }

  lemma ContainerBounded(spec: RecodeSpec, i: Item)
    requires i.Image? && Recoder.Sound(spec, i)
    ensures |Wire(ContainerUnit(i.body))| < |i.req|
  {
  }

  /** What the relay holds when it has made read number `i`: the unfinished request so
      far and the read. */
  function Buffered(spec: RecodeSpec, chunks: seq<Bytes>, i: nat): nat
    requires i < |chunks|
  {
    |Recoder.Run(spec, chunks[..i]).buf| + |chunks[i]|
  }

  /** No unit is longer than what was buffered when it was released, and its kind. */
  lemma {:induction false} RunUnitsBounded(spec: RecodeSpec, chunks: seq<Bytes>)
    requires !Recoder.Run(spec, chunks).crashed
    ensures forall u :: u in Recoder.RunUnits(spec, chunks) ==>
              exists i :: 0 <= i < |chunks| && |Wire(u)| <= 1 + Buffered(spec, chunks, i)
    decreases |chunks|
  {
    hide Push, Emit, Wire;
    if chunks != [] {
      var n := |chunks| - 1;
      var front, last := chunks[..n], chunks[n];
      var m := Recoder.Run(spec, front);
      var (m', items) := Push(spec, m, last);
      Recoder.RunConserves(spec, front);
      Recoder.PushOk(spec, m, last);
      RunUnitsBounded(spec, front);
      UnitsBounded(spec, [], items);
      forall u | u in Recoder.RunUnits(spec, chunks)
        ensures exists i :: 0 <= i < |chunks| && |Wire(u)| <= 1 + Buffered(spec, chunks, i)
      {
        if u in Recoder.RunUnits(spec, front) {
          var i :| 0 <= i < |front| && |Wire(u)| <= 1 + Buffered(spec, front, i);
          assert front[..i] == chunks[..i] && front[i] == chunks[i];
          assert |Wire(u)| <= 1 + Buffered(spec, chunks, i);
        } else {
          assert u in Emit([], items);
          assert |Wire(u)| <= 1 + Buffered(spec, chunks, n);
        }
      }
    }
  }

  /** THE end-to-end theorem for a codec that gives back what it is handed, PNG or JPEG.
      As long as what the relay buffers at
      each read fits a frame by its length: however the application's bytes are read
      on the relay, however the frames' bytes are read on the client, and whichever
      payloads go as diffs or compressed, every frame encodes, and the local X server
      is written exactly what the application sent, less the unfinished request the
      relay still withholds, if and only if every recoded request is restorable. */
  lemma StreamCrosses(spec: RecodeSpec, sp: Policy, rp: Policy, params: DiffParams, worst: nat -> nat, json: JsonParser,
                      chunks: seq<Bytes>, conn: u32, seqIds: seq<u32>, script: seq<Bytes>)
    requires X11Recode.Lawful(spec.lib) && Recoder.Exact(spec) && !Recoder.Run(spec, chunks).crashed
    requires Matched(sp, rp) && params.chunkSize > 0 && Expands(sp.lib, worst) && NonEmptyReads(script)
    requires forall i :: 0 <= i < |chunks| ==> Fits(sp, params, worst, 1 + Buffered(spec, chunks, i))
    requires |seqIds| == |Recoder.RunUnits(spec, chunks)|
    ensures var frames := BuildAll(sp, params, FRESH_END, UnitPayloads(conn, seqIds, Recoder.RunUnits(spec, chunks))).0;
            && (forall i :: 0 <= i < |frames| ==> Encodable(frames[i]))
            && (Flat(script) == Encodings(frames) ==>
                  var outcomes := RecvMany(json, [], script, |seqIds|).0;
                  && (forall i :: 0 <= i < |outcomes| ==> outcomes[i].Received?)
                  && var written := ExpandPayloads(spec.lib, Drain(rp, FRESH_END, FramesOf(outcomes)).0);
                     (written.Some? && written.value + Recoder.Run(spec, chunks).buf == Flat(chunks)
                      <==> Recoder.AllRestorable(spec, Recoder.RunItems(spec, chunks))))
  {
    hide BuildAll, Encodings, Encodable, Drain, RecvMany, Matched, Flat, ExpandPayloads, ExpandAll, Recoder.AllRestorable, Recoder.Exact, Fits, Expands, Buffered, Wire;
    var units := Recoder.RunUnits(spec, chunks);
    var sends := UnitPayloads(conn, seqIds, units);
    UnitsFit(spec, sp, params, worst, chunks, conn, seqIds);
    PayloadsCross(sp, rp, params, worst, json, sends, script);
    if Flat(script) == Encodings(BuildAll(sp, params, FRESH_END, sends).0) {
      ExpandDelivered(spec.lib, units, Drain(rp, FRESH_END, FramesOf(RecvMany(json, [], script, |seqIds|).0)).0);
      Recoder.ExactCodec(spec, chunks);
    }
  }

  lemma UnitsFit(spec: RecodeSpec, sp: Policy, params: DiffParams, worst: nat -> nat,
                 chunks: seq<Bytes>, conn: u32, seqIds: seq<u32>)
    requires !Recoder.Run(spec, chunks).crashed && params.chunkSize > 0 && Expands(sp.lib, worst)
    requires forall i :: 0 <= i < |chunks| ==> Fits(sp, params, worst, 1 + Buffered(spec, chunks, i))
    requires |seqIds| == |Recoder.RunUnits(spec, chunks)|
    ensures var sends := UnitPayloads(conn, seqIds, Recoder.RunUnits(spec, chunks));
            forall i :: 0 <= i < |sends| ==> sends[i].data != [] && Fits(sp, params, worst, |sends[i].data|)
  {
    hide Fits, Expands, Buffered, Wire, Recoder.Run, Recoder.RunUnits;
    var units := Recoder.RunUnits(spec, chunks);
    RunUnitsBounded(spec, chunks);
    forall k | 0 <= k < |units| ensures Wire(units[k]) != [] && Fits(sp, params, worst, |Wire(units[k])|) {
      assert units[k] in units;
      WireHasKind(units[k]);
      var i :| 0 <= i < |chunks| && |Wire(units[k])| <= 1 + Buffered(spec, chunks, i);
      FitsShorter(sp, params, worst, |Wire(units[k])|, 1 + Buffered(spec, chunks, i));
    }
  }

  lemma WireHasKind(u: Unit)
    ensures Wire(u) != []
  {
  }

  // ------------------------------------------------ several streams at once

  /** The payloads of one connection, in order. */
  function Of(sends: seq<Outgoing>, conn: u32): seq<Bytes> {
    if sends == [] then []
    else
      var s := sends[|sends| - 1];
      Of(sends[..|sends| - 1], conn) + if s.conn == conn then [s.data] else []
  }

  /** What the client routes to the local X server of one connection, in order. */
  function RoutedTo(outs: seq<Inbound>, conn: u32): seq<Inbound> {
    if outs == [] then []
    else
      var o := outs[|outs| - 1];
      RoutedTo(outs[..|outs| - 1], conn) + if o.Payload? && o.connectionId == conn then [o] else []
  }

  lemma {:induction false} RoutedIsSent(sends: seq<Outgoing>, outs: seq<Inbound>, conn: u32)
    requires Delivered(sends, outs)
    ensures var routed, sent := RoutedTo(outs, conn), Of(sends, conn);
            |routed| == |sent| && forall i :: 0 <= i < |sent| ==> routed[i] == Payload(conn, sent[i])
    decreases |sends|
  {
    if sends != [] {
      RoutedIsSent(sends[..|sends| - 1], outs[..|outs| - 1], conn);
    }
  }

  function Wires(units: seq<Unit>): seq<Bytes> { seq(|units|, i requires 0 <= i < |units| => Wire(units[i])) }

  /** THE end-to-end theorem for a whole session. The streams of any number of
      connections cross one link in any interleaving of their units, each unit fitting a
      frame by its length: every local X server is written exactly what its own
      application sent, less the unfinished request withheld, if and only if that
      stream's recoded requests are restorable, whatever the other streams do. */
  lemma StreamsCross(spec: RecodeSpec, sp: Policy, rp: Policy, params: DiffParams, worst: nat -> nat, json: JsonParser,
                     sends: seq<Outgoing>, conn: u32, chunks: seq<Bytes>, script: seq<Bytes>)
    requires X11Recode.Lawful(spec.lib) && Recoder.Exact(spec) && !Recoder.Run(spec, chunks).crashed
    requires Matched(sp, rp) && params.chunkSize > 0 && Expands(sp.lib, worst) && NonEmptyReads(script)
    requires forall i :: 0 <= i < |sends| ==> sends[i].data != [] && Fits(sp, params, worst, |sends[i].data|)
    requires Of(sends, conn) == Wires(Recoder.RunUnits(spec, chunks))
    ensures var frames := BuildAll(sp, params, FRESH_END, sends).0;
            && (forall i :: 0 <= i < |frames| ==> Encodable(frames[i]))
            && (Flat(script) == Encodings(frames) ==>
                  var outcomes := RecvMany(json, [], script, |sends|).0;
                  && (forall i :: 0 <= i < |outcomes| ==> outcomes[i].Received?)
                  && var written := ExpandPayloads(spec.lib, RoutedTo(Drain(rp, FRESH_END, FramesOf(outcomes)).0, conn));
                     (written.Some? && written.value + Recoder.Run(spec, chunks).buf == Flat(chunks)
                      <==> Recoder.AllRestorable(spec, Recoder.RunItems(spec, chunks))))
  {
    hide BuildAll, Encodings, Encodable, Drain, RecvMany, Matched, Flat, ExpandPayloads, ExpandAll, Recoder.AllRestorable, Recoder.Exact,
         Fits, Expands, Wire, Of, RoutedTo;
    PayloadsCross(sp, rp, params, worst, json, sends, script);
    if Flat(script) == Encodings(BuildAll(sp, params, FRESH_END, sends).0) {
      var outs := Drain(rp, FRESH_END, FramesOf(RecvMany(json, [], script, |sends|).0)).0;
      RoutedIsSent(sends, outs, conn);
      var units := Recoder.RunUnits(spec, chunks);
      assert forall i :: 0 <= i < |units| ==> Of(sends, conn)[i] == Wire(units[i]);
      ExpandDelivered(spec.lib, units, RoutedTo(outs, conn));
      Recoder.ExactCodec(spec, chunks);
    }
  }

  // -------------------------------------------- a request too long for a frame

  /** A verbatim unit travels plain exactly when its request leaves room for the
      unit kind, the connection and the sequence number. */
  lemma PlainUnitFits(conn: u32, seqId: u32, d: Bytes)
    ensures Encodable(StreamData(conn, seqId, Wire(RawUnit(d)))) <==> |d| + 9 <= BinaryCodec.MAX_FRAME_SIZE
  {
  }

  /** The recoder's request limit is above the frame limit: a whole request that is
      no image leaves as one unit, and past that limit no plain frame can carry it. */
  lemma OversizedRequest(spec: RecodeSpec, m: Machine, req: Bytes, conn: u32, seqId: u32)
    requires m.stage == InRequests && !m.disabled && !m.crashed && m.buf == []
    requires FrameNext(m.bigEndian, req) == Request(|req|) && req[0] != X11Frame.OP_PUT_IMAGE
    ensures Push(spec, m, req) == (m, [Raw(req)]) && Emit([], [Raw(req)]) == [RawUnit(req)]
    ensures Encodable(StreamData(conn, seqId, Wire(RawUnit(req)))) <==> |req| <= BinaryCodec.MAX_FRAME_SIZE - 9
  {
    hide FrameNext, Encodable;
    PlainUnitFits(conn, seqId, req);
    assert [] + req == req && req[..|req|] == req && req[|req|..] == [];
    EmitFirst([], Raw(req), []);
    RawRequest(spec, m.bigEndian, req);
  }

  lemma RawRequest(spec: RecodeSpec, bigEndian: bool, req: Bytes)
    requires FrameNext(bigEndian, req) == Request(|req|) && req[0] != X11Frame.OP_PUT_IMAGE
    ensures Requests(spec, bigEndian, req) == Walk([Raw(req)], [], Running)
  {
    assert req[..|req|] == req && req[|req|..] == [];
    assert FrameNext(bigEndian, []) == NeedMore;
    assert Requests(spec, bigEndian, []) == Walk([], [], Running);
  }

  /** Such a request exists under the 32-bit length form. */
  lemma OversizedExists() returns (req: Bytes)
    ensures FrameNext(true, req) == Request(|req|) && req[0] != X11Frame.OP_PUT_IMAGE
    ensures |req| > BinaryCodec.MAX_FRAME_SIZE - 9
  {
    var words: u32 := X11Frame.MAX_RECODE_REQUEST / 4;
    req := [1, 0, 0, 0] + Be32(words) + Zeros(X11Frame.MAX_RECODE_REQUEST - 8);
    assert req[4..8] == Be32(words);
    ReadBe32(req, 4, words);
    hide U32At;
  }
}
