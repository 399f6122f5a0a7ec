/** The two ends of the data plane over whole runs: a simulation between the
    sender's and the receiver's bases and codec histories. */
module DataPlaneRuns {
  import opened Bytes
  import opened Messages
  import opened Incremental
  import opened BinaryCodec
  import opened DataPlanes
  import opened Handshake
  import Caps = Capabilities
  import FrameCodec

  /** Two planes facing each other on one direction. */
  ghost predicate Matched(sender: Policy, receiver: Policy) {
    && sender.lib == receiver.lib && Lawful(sender.lib)
    && sender.compression == receiver.compression
    && MayDiffSend(sender) == MayDiffReceive(receiver)
  }

  /** The planes both ends build from their own handshake match in both directions,
      whatever the client offered. */
  lemma HandshakeMatches(lib: Library, hello: Hello, capabilities: seq<string>, clientThreshold: nat, serverThreshold: nat)
    requires Lawful(lib)
    ensures var (server, ack) := ServerSide(hello, capabilities);
            var client := ClientSide(hello, ack);
            var c := Policy(lib, Client, client.features, client.compression, clientThreshold);
            var s := Policy(lib, Relay, server.features, server.compression, serverThreshold);
            Matched(c, s) && Matched(s, c)
  {
    hide PickAlgo, Caps.Negotiate, Caps.ToList, Lawful;
    Caps.EchoAgrees(hello.capabilities, capabilities);
  }

  // ------------------------------------------------------------ one payload

  /** Same codec history, and the same base wherever both hold one; `lost` are
      the connections whose base the receiver may lack. */
  ghost predicate Agree(s: End, r: End, lost: set<u32>) {
    && s.history == r.history
    && (forall c :: c in s.base && c in r.base ==> s.base[c] == r.base[c])
    && (forall c :: c in s.base && c !in lost ==> c in r.base)
  }

  lemma CompressRoundTrip(sp: Policy, rp: Policy, h: History, data: Bytes)
    requires Matched(sp, rp) && data != []
    ensures var (c, h') := Compress(sp, h, data);
            && (c.None? ==> h' == h)
            && (c.Some? ==> rp.compression.Some? && Decompress(rp, h, c.value, |data|) == (Some(data), h'))
  {
  }

  lemma PlainDelivered(sp: Policy, rp: Policy, s: End, r: End, conn: u32, seqId: u32, data: Bytes)
    requires Matched(sp, rp) && data != [] && s.history == r.history
    ensures var (f, h) := PlainOrCompressed(sp, s.history, conn, seqId, data);
            ApplyInbound(rp, r, f) == (Payload(conn, data), End(h, KeepBase(rp, r.base, conn, seqId, data)))
  {
    hide Compress, Decompress, Matched, KeepBase;
    MatchedFacts(sp, rp);
    CompressRoundTrip(sp, rp, s.history, data);
    var (c, h) := Compress(sp, s.history, data);
    if c.Some? {
      assert Decompress(rp, r.history, c.value, |data|) == (Some(data), h);
    } else {
      assert h == r.history;
    }
  }

  lemma MatchedFacts(sp: Policy, rp: Policy)
    requires Matched(sp, rp)
    ensures sp.compression == rp.compression && MayDiffSend(sp) == MayDiffReceive(rp)
  {
  }

  /** A diff reaches the receiver's cache as it was made, compressed or not. */
  lemma DiffCarried(sp: Policy, rp: Policy, s: End, r: End, diff: DiffMessage, conn: u32, seqId: u32)
    requires Matched(sp, rp) && MayDiffReceive(rp) && s.history == r.history
    requires Consistent(diff.chunks)
    ensures var (f, h) := WrapDiff(sp, s.history, diff, conn, seqId);
            var (out, base) := ApplyDiff(r.base, diff);
            ApplyInbound(rp, r, f) == (out, End(h, base))
  {
    hide Compress, Decompress, Matched, DiffWire, ApplyDiff, ParseDiff;
    MatchedFacts(sp, rp);
    if EncodeDiff(diff).Some? {
      var bytes := EncodeDiff(diff).value;
      DiffWireLong(diff);
      CompressRoundTrip(sp, rp, s.history, bytes);
      DiffWireRoundTrip(diff, []);
      assert DiffWire(diff) + [] == DiffWire(diff);
      var (c, h) := Compress(sp, s.history, bytes);
      if c.Some? {
        assert Decompress(rp, r.history, c.value, |bytes|) == (Some(bytes), h);
        assert ParseDiff(bytes) == Some(diff);
      } else {
        assert h == r.history;
      }
    }
  }

  lemma DiffWireLong(diff: DiffMessage)
    requires DiffFits(diff)
    ensures DiffWire(diff) != []
  {
  }

  lemma TidyConsistent(new_: Bytes, chunks: seq<Chunk>)
    requires Tidy(new_, chunks, 0)
    ensures Consistent(chunks)
  {
  }

  /** THE step of the simulation. A non-empty payload is delivered unchanged, in
      whichever of the four shapes it travels, unless it travels as a diff and the
      receiver has lost the base: then a resync is asked for and nothing else
      changes. Histories stay equal either way. */
  lemma SendReceive(sp: Policy, rp: Policy, params: DiffParams, s: End, r: End, lost: set<u32>,
                    conn: u32, seqId: u32, data: Bytes)
    requires Matched(sp, rp) && params.chunkSize > 0 && data != [] && Agree(s, r, lost)
    ensures var (f, s') := BuildFrame(sp, params, s, conn, seqId, data);
            var (out, r') := ApplyInbound(rp, r, f);
            && Agree(s', r', lost)
            && (out == Payload(conn, data) || (out == ResyncRequired(conn) && conn in lost && r'.base == r.base))
            && (conn !in s.base ==> out == Payload(conn, data))
            && (out == Payload(conn, data) && MayDiffSend(sp) ==>
                  conn in r'.base && r'.base[conn] == s'.base[conn] == Cached(seqId, data))
  {
    hide PlainOrCompressed, WrapDiff, ApplyInbound, Compute, Matched, Apply, Tidy;
    MatchedFacts(sp, rp);
    var diff := Compute(params, s.base, conn, seqId, data);
    PlainDelivered(sp, rp, s, r, conn, seqId, data);
    if MayDiffSend(sp) && diff.Some? {
      DiffNeedsBase(params, s.base, conn, seqId, data);
      DiffRoundTrip(params, s.base, s.base, conn, seqId, data);
      TidyConsistent(data, diff.value.chunks);
      DiffCarried(sp, rp, s, r, diff.value, conn, seqId);
      if conn in r.base {
        DiffRoundTrip(params, s.base, r.base, conn, seqId, data);
      } else {
        NoBase(r.base, diff.value);
      }
    }
  }

  lemma DiffNeedsBase(params: DiffParams, base: Base, conn: u32, seqId: u32, data: Bytes)
    requires params.chunkSize > 0 && Compute(params, base, conn, seqId, data).Some?
    ensures conn in base
  {
  }

  lemma NoBase(base: Base, m: DiffMessage)
    requires m.connectionId !in base
    ensures Apply(base, m) == None
  {
  }

  /** Every frame a plane builds is well formed, so the wire hands it over as it
      is whenever the frame encoder takes it. */
  lemma BuildWellFormed(sp: Policy, params: DiffParams, json: FrameCodec.JsonParser, s: End,
                        conn: u32, seqId: u32, data: Bytes)
    requires params.chunkSize > 0
    ensures FrameCodec.WellFormed(json, BuildFrame(sp, params, s, conn, seqId, data).0)
  {
    hide Compress, Compute;
    var diff := Compute(params, s.base, conn, seqId, data);
    if diff.Some? {
      DiffNeedsBase(params, s.base, conn, seqId, data);
      DiffRoundTrip(params, s.base, s.base, conn, seqId, data);
      TidyConsistent(data, diff.value.chunks);
    }
  }

  // ------------------------------------------------------------------- runs

  /** A frame of the sender's, the payload it stands for, and whether its
      connection was undamaged from the send until the delivery. */
  datatype Sent = Sent(conn: u32, data: Bytes, safe: bool)

  datatype System = System(
    sender: End, receiver: End, wire: seq<Frame>,
    sent: seq<Sent>, outcomes: seq<Inbound>, lost: set<u32>)

  datatype Event =
    | Send(conn: u32, seqId: u32, data: Bytes)
    | SenderReset(conn: u32)
    | Deliver
    | ReceiverLoses(conn: u32)

  const START: System := System(End([], map[]), End([], map[]), [], [], [], {})

  /** The frames still on the wire that belong to the connection are damaged. */
  function Damage(sent: seq<Sent>, from: nat, conn: u32): (r: seq<Sent>)
    ensures |r| == |sent|
    ensures forall i :: 0 <= i < |sent| ==>
              r[i] == if i >= from && sent[i].conn == conn then sent[i].(safe := false) else sent[i]
  {
    seq(|sent|, i requires 0 <= i < |sent| =>
      if i >= from && sent[i].conn == conn then sent[i].(safe := false) else sent[i])
  }

  function Step(sp: Policy, rp: Policy, params: DiffParams, y: System, e: Event): System
    requires params.chunkSize > 0
  {
    match e
    case Send(conn, seqId, data) =>
      var (f, s) := BuildFrame(sp, params, y.sender, conn, seqId, data);
      y.(sender := s, wire := y.wire + [f], sent := y.sent + [Sent(conn, data, conn !in y.lost)])
    case SenderReset(conn) =>
      y.(sender := y.sender.(base := y.sender.base - {conn}), lost := y.lost - {conn})
    case Deliver =>
      if y.wire == [] then y
      else
        var (out, r) := ApplyInbound(rp, y.receiver, y.wire[0]);
        y.(receiver := r, wire := y.wire[1..], outcomes := y.outcomes + [out])
    case ReceiverLoses(conn) =>
      y.(receiver := y.receiver.(base := y.receiver.base - {conn}),
         lost := y.lost + {conn},
         sent := Damage(y.sent, |y.outcomes|, conn))
  }

  function Run(sp: Policy, rp: Policy, params: DiffParams, events: seq<Event>): System
    requires params.chunkSize > 0
  {
    if events == [] then START
    else Step(sp, rp, params, Run(sp, rp, params, events[..|events| - 1]), events[|events| - 1])
  }

  /** What the receiver will answer to everything on the wire, and where it will
      then stand. */
  function Drain(rp: Policy, r: End, wire: seq<Frame>): (seq<Inbound>, End) {
    if wire == [] then ([], r)
    else
      var (outs, r1) := Drain(rp, r, wire[..|wire| - 1]);
      var (out, r2) := ApplyInbound(rp, r1, wire[|wire| - 1]);
      (outs + [out], r2)
  }

  lemma DrainSnoc(rp: Policy, r: End, wire: seq<Frame>, f: Frame)
    ensures var (outs, r1) := Drain(rp, r, wire);
            var (out, r2) := ApplyInbound(rp, r1, f);
            Drain(rp, r, wire + [f]) == (outs + [out], r2)
  {
    assert (wire + [f])[..|wire|] == wire;
  }

  lemma {:induction false} DrainFirst(rp: Policy, r: End, wire: seq<Frame>)
    requires wire != []
    ensures var (out, r1) := ApplyInbound(rp, r, wire[0]);
            var (outs, r2) := Drain(rp, r1, wire[1..]);
            Drain(rp, r, wire) == ([out] + outs, r2)
    decreases |wire|
  {
    hide ApplyInbound;
    var front, last := wire[..|wire| - 1], wire[|wire| - 1];
    if front == [] {
      assert wire[1..] == [];
      assert Drain(rp, r, front) == ([], r);
      assert [] + [ApplyInbound(rp, r, wire[0]).0] == [ApplyInbound(rp, r, wire[0]).0] + [];
    } else {
      DrainFirst(rp, r, front);
      var (out, r1) := ApplyInbound(rp, r, wire[0]);
      var (outs, r2) := Drain(rp, r1, front[1..]);
      assert wire[1..] == front[1..] + [last];
      DrainSnoc(rp, r1, front[1..], last);
      Assoc([out], outs, [ApplyInbound(rp, r2, last).0]);
    }
  }

  /** A receiver that lacks some bases answers an honest frame as one that has
      them, or asks for a resync where a base is missing. */
  ghost predicate Lacks(weak: End, full: End, lost: set<u32>) {
    && weak.history == full.history
    && (forall c :: c in weak.base ==> c in full.base && weak.base[c] == full.base[c])
    && (forall c :: c in full.base && c !in lost ==> c in weak.base)
  }

  /** The answer of the weaker receiver. */
  ghost predicate SameOrResync(weak: Inbound, full: Inbound, lost: set<u32>) {
    || weak == full
    || (full.Payload? && full.connectionId in lost && weak == ResyncRequired(full.connectionId))
  }

  lemma ApplyDiffLacking(weak: Base, full: Base, lost: set<u32>, m: DiffMessage)
    requires Lacks(End([], weak), End([], full), lost)
    ensures var (o1, b1) := ApplyDiff(weak, m);
            var (o2, b2) := ApplyDiff(full, m);
            Lacks(End([], b1), End([], b2), lost) && SameOrResync(o1, o2, lost)
  {
    hide Overlay, Stretch;
  }

  lemma ApplyLacking(rp: Policy, weak: End, full: End, lost: set<u32>, f: Frame)
    requires Lacks(weak, full, lost)
    ensures var (o1, r1) := ApplyInbound(rp, weak, f);
            var (o2, r2) := ApplyInbound(rp, full, f);
            Lacks(r1, r2, lost) && SameOrResync(o1, o2, lost)
  {
    hide Decompress, ParseDiff, ApplyDiff;
    if f.IncrementalStreamData? {
      ApplyDiffLacking(weak.base, full.base, lost, f.diff);
    } else if f.CompressedIncrementalStreamData? {
      var x := Decompress(rp, weak.history, f.data, f.originalLen).0;
      if x.Some? && ParseDiff(x.value).Some? {
        ApplyDiffLacking(weak.base, full.base, lost, ParseDiff(x.value).value);
      }
    }
  }

  lemma {:induction false} DrainLacking(rp: Policy, weak: End, full: End, lost: set<u32>, wire: seq<Frame>)
    requires Lacks(weak, full, lost)
    ensures var (o1, r1) := Drain(rp, weak, wire);
            var (o2, r2) := Drain(rp, full, wire);
            && Lacks(r1, r2, lost) && |o1| == |o2| == |wire|
            && forall i :: 0 <= i < |wire| ==> SameOrResync(o1[i], o2[i], lost)
    decreases |wire|
  {
    hide ApplyInbound, Lacks, SameOrResync;
    if wire != [] {
      var front, last := wire[..|wire| - 1], wire[|wire| - 1];
      DrainLacking(rp, weak, full, lost, front);
      ApplyLacking(rp, Drain(rp, weak, front).1, Drain(rp, full, front).1, lost, last);
    }
  }

  /** What became, or will become, of a sent payload: delivered as it was, or for
      a damaged connection a resync request; never anything else. */
  ghost predicate Answered(s: Sent, out: Inbound) {
    || out == Payload(s.conn, s.data)
    || (!s.safe && out == ResyncRequired(s.conn))
  }

  ghost predicate AllAnswered(sent: seq<Sent>, outs: seq<Inbound>) {
    |sent| == |outs| && forall i :: 0 <= i < |sent| ==> Answered(sent[i], outs[i])
  }

  /** The invariant: once the wire is drained the two ends agree and every
      payload has its answer. */
  ghost predicate Synchronized(rp: Policy, y: System) {
    var (outs, r) := Drain(rp, y.receiver, y.wire);
    Agree(y.sender, r, y.lost) && AllAnswered(y.sent, y.outcomes + outs)
  }

  lemma StepSend(sp: Policy, rp: Policy, params: DiffParams, y: System, e: Event)
    requires Matched(sp, rp) && params.chunkSize > 0 && e.Send? && e.data != [] && Synchronized(rp, y)
    ensures Synchronized(rp, Step(sp, rp, params, y, e))
  {
    hide BuildFrame, ApplyInbound, Drain, Matched;
    var (outs, r) := Drain(rp, y.receiver, y.wire);
    var (f, s) := BuildFrame(sp, params, y.sender, e.conn, e.seqId, e.data);
    var (out, r') := ApplyInbound(rp, r, f);
    SendReceive(sp, rp, params, y.sender, r, y.lost, e.conn, e.seqId, e.data);
    DrainSnoc(rp, y.receiver, y.wire, f);
    Assoc(y.outcomes, outs, [out]);
    assert Answered(Sent(e.conn, e.data, e.conn !in y.lost), out);
  }

  lemma StepReset(sp: Policy, rp: Policy, params: DiffParams, y: System, conn: u32)
    requires params.chunkSize > 0 && Synchronized(rp, y)
    ensures Synchronized(rp, Step(sp, rp, params, y, SenderReset(conn)))
  {
  }

  lemma StepDeliver(sp: Policy, rp: Policy, params: DiffParams, y: System)
    requires params.chunkSize > 0 && Synchronized(rp, y)
    ensures Synchronized(rp, Step(sp, rp, params, y, Deliver))
  {
    hide ApplyInbound, Drain, Agree, AllAnswered;
    if y.wire != [] {
      DrainFirst(rp, y.receiver, y.wire);
      var (out, r) := ApplyInbound(rp, y.receiver, y.wire[0]);
      Assoc(y.outcomes, [out], Drain(rp, r, y.wire[1..]).0);
    }
  }

  lemma StepLose(sp: Policy, rp: Policy, params: DiffParams, y: System, conn: u32)
    requires params.chunkSize > 0 && Synchronized(rp, y)
    ensures Synchronized(rp, Step(sp, rp, params, y, ReceiverLoses(conn)))
  {
    hide Drain;
    var weak := y.receiver.(base := y.receiver.base - {conn});
    var (o2, r2) := Drain(rp, y.receiver, y.wire);
    var (o1, r1) := Drain(rp, weak, y.wire);
    DrainLacking(rp, weak, y.receiver, {conn}, y.wire);
    var n, sent := |y.outcomes|, Damage(y.sent, |y.outcomes|, conn);
    forall i | 0 <= i < |sent| ensures Answered(sent[i], (y.outcomes + o1)[i]) {
      assert Answered(y.sent[i], (y.outcomes + o2)[i]);
      if i >= n {
        assert SameOrResync(o1[i - n], o2[i - n], {conn});
      }
    }
  }

  lemma {:induction false} RunSynchronized(sp: Policy, rp: Policy, params: DiffParams, events: seq<Event>)
    requires Matched(sp, rp) && params.chunkSize > 0
    requires forall e :: e in events && e.Send? ==> e.data != []
    ensures Synchronized(rp, Run(sp, rp, params, events))
  {
    hide Synchronized, Step, Matched;
    if events == [] {
      StartSynchronized(rp);
    } else {
      var front, last := events[..|events| - 1], events[|events| - 1];
      RunSynchronized(sp, rp, params, front);
      var y := Run(sp, rp, params, front);
      match last {
        case Send(_, _, _) => StepSend(sp, rp, params, y, last);
        case SenderReset(conn) => StepReset(sp, rp, params, y, conn);
        case Deliver => StepDeliver(sp, rp, params, y);
        case ReceiverLoses(conn) => StepLose(sp, rp, params, y, conn);
      }
    }
  }

  lemma StartSynchronized(rp: Policy)
    ensures Synchronized(rp, START)
  {
  }

  /** THE data-plane theorem. Over every run of sends on any interleaving of
      connections, resets of the sender's base, losses of the receiver's base and
      in-order deliveries: the answers so far are, in order, the payloads sent;
      where one is not, its connection was damaged and the answer is a resync
      request. No honest frame is dropped or breaks the stream. Once the wire is
      empty the codec histories are equal, and so are the bases of every
      connection that is not damaged. */
  lemma RunDelivers(sp: Policy, rp: Policy, params: DiffParams, events: seq<Event>)
    requires Matched(sp, rp) && params.chunkSize > 0
    requires forall e :: e in events && e.Send? ==> e.data != []
    ensures var y := Run(sp, rp, params, events);
            && |y.outcomes| <= |y.sent|
            && (forall i :: 0 <= i < |y.outcomes| ==> Answered(y.sent[i], y.outcomes[i]))
            && (y.wire == [] ==>
                  && |y.outcomes| == |y.sent|
                  && y.sender.history == y.receiver.history
                  && (forall c :: c in y.sender.base && c !in y.lost ==>
                        c in y.receiver.base && y.receiver.base[c] == y.sender.base[c])
                  && (forall c :: c in y.sender.base && c in y.receiver.base ==>
                        y.receiver.base[c] == y.sender.base[c]))
  {
    RunSynchronized(sp, rp, params, events);
    var y := Run(sp, rp, params, events);
    var outs := Drain(rp, y.receiver, y.wire).0;
    assert forall i :: 0 <= i < |y.outcomes| ==> (y.outcomes + outs)[i] == y.outcomes[i];
  }

  /** Without losses nothing is ever damaged: every payload is delivered exactly
      once, in order, unchanged. */
  lemma {:induction false} NoLossAllSafe(sp: Policy, rp: Policy, params: DiffParams, events: seq<Event>)
    requires params.chunkSize > 0
    requires forall e :: e in events ==> !e.ReceiverLoses?
    ensures var y := Run(sp, rp, params, events);
            y.lost == {} && forall i :: 0 <= i < |y.sent| ==> y.sent[i].safe
  {
    hide BuildFrame, ApplyInbound;
    if events != [] {
      NoLossAllSafe(sp, rp, params, events[..|events| - 1]);
    }
  }

  /** The payloads of a run's sends, in order. */
  function Sends(events: seq<Event>): seq<(u32, Bytes)> {
    if events == [] then []
    else
      var e := events[|events| - 1];
      Sends(events[..|events| - 1]) + if e.Send? then [(e.conn, e.data)] else []
  }

  /** The record of what was sent is what the run sent. */
  lemma {:induction false} SentIsSends(sp: Policy, rp: Policy, params: DiffParams, events: seq<Event>)
    requires params.chunkSize > 0
    ensures var sent, sends := Run(sp, rp, params, events).sent, Sends(events);
            |sent| == |sends| && forall i :: 0 <= i < |sent| ==> (sent[i].conn, sent[i].data) == sends[i]
  {
    hide BuildFrame, ApplyInbound;
    if events != [] {
      SentIsSends(sp, rp, params, events[..|events| - 1]);
    }
  }

  /** THE lossless corollary, stated on the run itself: with the wire drained and
      no base lost, the receiver's outcomes are the payloads sent, one for one. */
  lemma DeliveredExactly(sp: Policy, rp: Policy, params: DiffParams, events: seq<Event>)
    requires Matched(sp, rp) && params.chunkSize > 0
    requires forall e :: e in events ==> !e.ReceiverLoses? && (e.Send? ==> e.data != [])
    ensures var y, sends := Run(sp, rp, params, events), Sends(events);
            && |y.outcomes| <= |sends|
            && (forall i :: 0 <= i < |y.outcomes| ==> y.outcomes[i] == Payload(sends[i].0, sends[i].1))
            && (y.wire == [] ==> |y.outcomes| == |sends| && y.sender.history == y.receiver.history)
  {
    hide Run, Sends, Matched;
    RunDelivers(sp, rp, params, events);
    NoLossAllSafe(sp, rp, params, events);
    SentIsSends(sp, rp, params, events);
  }

  /** After a reset of the sender's base for a connection, nothing sent on it is
      damaged until the receiver loses the base again. */
  lemma SafeAfterReset(sp: Policy, rp: Policy, params: DiffParams, before: seq<Event>, conn: u32, after: seq<Event>)
    requires params.chunkSize > 0
    requires forall e :: e in after ==> e != ReceiverLoses(conn)
    ensures var y0 := Run(sp, rp, params, before + [SenderReset(conn)]);
            var y := Run(sp, rp, params, before + [SenderReset(conn)] + after);
            && conn !in y.lost && |y.sent| >= |y0.sent|
            && forall i :: |y0.sent| <= i < |y.sent| && y.sent[i].conn == conn ==> y.sent[i].safe
    decreases |after|
  {
    hide BuildFrame, ApplyInbound;
    var base := before + [SenderReset(conn)];
    assert base[..|base| - 1] == before;
    if after == [] {
      assert base + after == base;
    } else {
      var front, last := after[..|after| - 1], after[|after| - 1];
      assert forall e :: e in front ==> e in after;
      assert last in after;
      SafeAfterReset(sp, rp, params, before, conn, front);
      var events := base + after;
      assert events[..|events| - 1] == base + front && events[|events| - 1] == last;
    }
  }

  /** THE recovery law. Whatever went wrong before, once the sender's base for a
      connection is reset every payload sent on it from then on is answered with
      exactly that payload, until the receiver loses the base again. */
  lemma ResetHeals(sp: Policy, rp: Policy, params: DiffParams, before: seq<Event>, conn: u32, after: seq<Event>)
    requires Matched(sp, rp) && params.chunkSize > 0
    requires forall e :: e in before + after && e.Send? ==> e.data != []
    requires forall e :: e in after ==> e != ReceiverLoses(conn)
    ensures var y0 := Run(sp, rp, params, before + [SenderReset(conn)]);
            var y := Run(sp, rp, params, before + [SenderReset(conn)] + after);
            forall i :: |y0.sent| <= i < |y.outcomes| && i < |y.sent| && y.sent[i].conn == conn ==>
              y.outcomes[i] == Payload(conn, y.sent[i].data)
  {
    hide Run, Matched;
    var events := before + [SenderReset(conn)] + after;
    assert forall e :: e in events ==> e in before + after || e == SenderReset(conn);
    SafeAfterReset(sp, rp, params, before, conn, after);
    RunDelivers(sp, rp, params, events);
  }
}
