/** Several pumps of one session share one stream encoder, and building a frame and
    putting it into the queue are two steps
    (crates/rx11-client/src/proxy.rs, the uplink pump; crates/rx11-core/src/dataplane.rs). */
module Pumps {
  import opened Bytes
  import opened Messages
  import opened Incremental
  import opened Handshake
  import opened DataPlanes
  import opened DataPlaneRuns
  import BinaryCodec

  /** A frame its pump has built and not enqueued yet. */
  datatype Built = Built(conn: u32, data: Bytes, frame: Frame)

  /** `pending` in the order of building, `wire` in the order of enqueueing; `sent` are the
      payloads of the wire's frames. */
  datatype Session = Session(sender: End, pending: seq<Built>, wire: seq<Frame>, sent: seq<(u32, Bytes)>)

  datatype Step = Build(conn: u32, seqId: u32, data: Bytes) | Enqueue(k: nat)

  const START: Session := Session(End([], map[]), [], [], [])

  /** The frame was made by the streaming encoder, so it moved its history. */
  predicate Moving(p: Policy, f: Frame) {
    (f.CompressedStreamData? || f.CompressedIncrementalStreamData?) && p.compression == Some(ZstdStream)
  }

  /** A pump builds its next frame only when the last one is in the queue. */
  predicate Enabled(y: Session, s: Step) {
    match s
    case Build(conn, _, _) => forall i :: 0 <= i < |y.pending| ==> y.pending[i].conn != conn
    case Enqueue(k) => k < |y.pending|
  }

  function Take(p: Policy, params: DiffParams, y: Session, s: Step): Session
    requires params.chunkSize > 0 && Enabled(y, s)
  {
    match s
    case Build(conn, seqId, data) =>
      var (f, e) := BuildFrame(p, params, y.sender, conn, seqId, data);
      y.(sender := e, pending := y.pending + [Built(conn, data, f)])
    case Enqueue(k) =>
      var b := y.pending[k];
      y.(pending := y.pending[..k] + y.pending[k + 1..], wire := y.wire + [b.frame], sent := y.sent + [(b.conn, b.data)])
  }

  /** No history-moving frame overtakes one built before it. */
  predicate Orderly(p: Policy, y: Session, s: Step) {
    s.Enqueue? && s.k < |y.pending| && Moving(p, y.pending[s.k].frame) ==>
      forall i :: 0 <= i < s.k ==> !Moving(p, y.pending[i].frame)
  }

  /** Runs every step that is enabled and skips the others. */
  function Run(p: Policy, params: DiffParams, steps: seq<Step>): Session
    requires params.chunkSize > 0
  {
    if steps == [] then START
    else
      var y, s := Run(p, params, steps[..|steps| - 1]), steps[|steps| - 1];
      if Enabled(y, s) then Take(p, params, y, s) else y
  }

  ghost predicate OrderlyRun(p: Policy, params: DiffParams, steps: seq<Step>)
    requires params.chunkSize > 0
  {
    forall n :: 0 <= n < |steps| ==> Orderly(p, Run(p, params, steps[..n]), steps[n])
  }

  // ------------------------------------------------------- frames that commute

  /** The two ends look the same to a frame of this connection. */
  ghost predicate SameFor(p: Policy, a: End, b: End, f: Frame, conn: u32) {
    && (Moving(p, f) ==> a.history == b.history)
    && (conn in a.base <==> conn in b.base) && (conn in a.base ==> a.base[conn] == b.base[conn])
  }

  /** A frame that is answered with a payload of its connection touches that
      connection's base only, and the history only when it is a moving one. */
  lemma LocalEffect(p: Policy, a: End, b: End, f: Frame, conn: u32)
    requires SameFor(p, a, b, f, conn)
    requires ApplyInbound(p, a, f).0.Payload? && ApplyInbound(p, a, f).0.connectionId == conn
    ensures var (out, a1) := ApplyInbound(p, a, f);
            var (out', b1) := ApplyInbound(p, b, f);
            && out' == out && SameFor(p, a1, b1, f, conn)
            && a1.base - {conn} == a.base - {conn} && b1.base - {conn} == b.base - {conn}
            && (!Moving(p, f) ==> a1.history == a.history && b1.history == b.history)
  {
    hide Overlay, Stretch, BinaryCodec.ParseDiff;
  }

  /** Frames of different connections, at most one of them moving, commute. */
  lemma Commute(p: Policy, r: End, y: Frame, a: u32, x: Frame, b: u32)
    requires a != b && !(Moving(p, y) && Moving(p, x))
    requires var (oy, r1) := ApplyInbound(p, r, y);
             var ox := ApplyInbound(p, r1, x).0;
             oy.Payload? && oy.connectionId == a && ox.Payload? && ox.connectionId == b
    ensures var (oy, r1) := ApplyInbound(p, r, y);
            var (ox, r2) := ApplyInbound(p, r1, x);
            var (ox', s1) := ApplyInbound(p, r, x);
            ox' == ox && ApplyInbound(p, s1, y) == (oy, r2)
  {
    hide ApplyInbound;
    LocalEffect(p, r, r, y, a);
    var r1 := ApplyInbound(p, r, y).1;
    assert b in r.base <==> b in r.base - {a};
    assert b in r1.base <==> b in r1.base - {a};
    assert b in r.base ==> r.base[b] == (r.base - {a})[b] == r1.base[b];
    LocalEffect(p, r1, r, x, b);
    var s1 := ApplyInbound(p, r, x).1;
    assert a in r.base <==> a in r.base - {b};
    assert a in s1.base <==> a in s1.base - {b};
    assert a in r.base ==> r.base[a] == (r.base - {b})[a] == s1.base[a];
    LocalEffect(p, r, s1, y, a);
    var r2, s2 := ApplyInbound(p, r1, x).1, ApplyInbound(p, s1, y).1;
    SameBases(r.base, r1.base, r2.base, s1.base, s2.base, a, b);
  }

  lemma SameBases(r: Base, r1: Base, r2: Base, s1: Base, s2: Base, a: u32, b: u32)
    requires a != b && r1 - {a} == r - {a} && r2 - {b} == r1 - {b} && s1 - {b} == r - {b} && s2 - {a} == s1 - {a}
    requires (b in r2 <==> b in s1) && (b in r2 ==> r2[b] == s1[b])
    requires (a in r1 <==> a in s2) && (a in r1 ==> r1[a] == s2[a])
    ensures r2 == s2
  {
    forall c: u32 ensures (c in r2 <==> c in s2) && (c in r2 ==> r2[c] == s2[c]) {
      assert c != a ==> (c in r1 <==> c in r1 - {a}) && (c in r <==> c in r - {a}) && (c in s2 <==> c in s2 - {a}) && (c in s1 <==> c in s1 - {a});
      assert c != b ==> (c in r2 <==> c in r2 - {b}) && (c in r1 <==> c in r1 - {b}) && (c in s1 <==> c in s1 - {b}) && (c in r <==> c in r - {b});
      assert c != a && c in r1 ==> r1[c] == (r1 - {a})[c] == (r - {a})[c] == r[c];
      assert c != a && c in s2 ==> s2[c] == (s2 - {a})[c] == (s1 - {a})[c] == s1[c];
      assert c != b && c in r2 ==> r2[c] == (r2 - {b})[c] == (r1 - {b})[c] == r1[c];
      assert c != b && c in s1 ==> s1[c] == (s1 - {b})[c] == (r - {b})[c] == r[c];
    }
  }

  // ------------------------------------------------------------ pending frames

  function Frames(pending: seq<Built>): seq<Frame> { seq(|pending|, i requires 0 <= i < |pending| => pending[i].frame) }

  /** The pending frames, taken in order from `r` on, are all answered with their
      payloads and lead to `last`. */
  ghost predicate Leads(p: Policy, r: End, pending: seq<Built>, last: End)
    decreases |pending|
  {
    if pending == [] then r == last
    else
      var (out, r1) := ApplyInbound(p, r, pending[0].frame);
      out == Payload(pending[0].conn, pending[0].data) && Leads(p, r1, pending[1..], last)
  }

  lemma {:induction false} LeadsAppend(p: Policy, r: End, a: seq<Built>, mid: End, b: seq<Built>, last: End)
    requires Leads(p, r, a, mid)
    ensures Leads(p, r, a + b, last) <==> Leads(p, mid, b, last)
    decreases |a|
  {
    hide ApplyInbound;
    if a == [] {
      assert a + b == b;
    } else {
      assert (a + b)[0] == a[0] && (a + b)[1..] == a[1..] + b;
      LeadsAppend(p, ApplyInbound(p, r, a[0].frame).1, a[1..], mid, b, last);
    }
  }

  /** A frame may be taken before those built earlier when it is of another connection
      than any of them and overtakes no moving frame as a moving one. */
  lemma {:induction false} TakenFirst(p: Policy, r: End, front: seq<Built>, x: Built, back: seq<Built>, last: End)
    requires Leads(p, r, front + [x] + back, last)
    requires forall i :: 0 <= i < |front| ==>
               front[i].conn != x.conn && !(Moving(p, x.frame) && Moving(p, front[i].frame))
    ensures var (out, r1) := ApplyInbound(p, r, x.frame);
            out == Payload(x.conn, x.data) && Leads(p, r1, front + back, last)
    decreases |front|
  {
    hide ApplyInbound, Moving;
    var all := front + [x] + back;
    if front == [] {
      assert all[0] == x && all[1..] == back && front + back == back;
    } else {
      var y, others := front[0], front[1..];
      assert all[0] == y && all[1..] == others + [x] + back;
      var r1 := ApplyInbound(p, r, y.frame).1;
      TakenFirst(p, r1, others, x, back, last);
      Commute(p, r, y.frame, y.conn, x.frame, x.conn);
      assert (front + back)[0] == y && (front + back)[1..] == others + back;
    }
  }

  /** The wire is answered as sent, and what is pending, taken in the order of building,
      brings the receiver to the sender. */
  ghost predicate InStep(rp: Policy, y: Session) {
    var (outs, r) := Drain(rp, End([], map[]), y.wire);
    && |outs| == |y.sent| && (forall i :: 0 <= i < |outs| ==> outs[i] == Payload(y.sent[i].0, y.sent[i].1))
    && (forall i, k :: 0 <= i < k < |y.pending| ==> y.pending[i].conn != y.pending[k].conn)
    && exists last :: Leads(rp, r, y.pending, last) && Agree(y.sender, last, {})
  }

  lemma BuildKeeps(sp: Policy, rp: Policy, params: DiffParams, y: Session, s: Step)
    requires Matched(sp, rp) && params.chunkSize > 0 && s.Build? && s.data != [] && Enabled(y, s) && InStep(rp, y)
    ensures InStep(rp, Take(sp, params, y, s))
  {
    hide BuildFrame, ApplyInbound, Drain, Agree, Matched, Leads;
    var r := Drain(rp, End([], map[]), y.wire).1;
    var last :| Leads(rp, r, y.pending, last) && Agree(y.sender, last, {});
    var (f, e) := BuildFrame(sp, params, y.sender, s.conn, s.seqId, s.data);
    SendReceive(sp, rp, params, y.sender, last, {}, s.conn, s.seqId, s.data);
    var next := ApplyInbound(rp, last, f).1;
    var b := Built(s.conn, s.data, f);
    LeadsAppend(rp, r, y.pending, last, [b], next);
    LeadsOne(rp, last, b);
  }

  lemma LeadsOne(p: Policy, r: End, b: Built)
    requires ApplyInbound(p, r, b.frame).0 == Payload(b.conn, b.data)
    ensures Leads(p, r, [b], ApplyInbound(p, r, b.frame).1)
  {
    hide ApplyInbound;
    assert [b][1..] == [];
  }

  lemma EnqueueKeeps(sp: Policy, rp: Policy, params: DiffParams, y: Session, k: nat)
    requires sp.compression == rp.compression && params.chunkSize > 0 && k < |y.pending| && InStep(rp, y)
    requires Orderly(sp, y, Enqueue(k))
    ensures InStep(rp, Take(sp, params, y, Enqueue(k)))
  {
    hide ApplyInbound, Drain, Agree, Leads;
    var (outs, r) := Drain(rp, End([], map[]), y.wire);
    var last :| Leads(rp, r, y.pending, last) && Agree(y.sender, last, {});
    var front, x, back := y.pending[..k], y.pending[k], y.pending[k + 1..];
    assert y.pending == front + [x] + back;
    TakenFirst(rp, r, front, x, back, last);
    DrainSnoc(rp, End([], map[]), y.wire, x.frame);
    var y' := Take(sp, params, y, Enqueue(k));
    assert forall i :: 0 <= i < |y'.pending| ==> y'.pending[i] == y.pending[if i < k then i else i + 1];
  }

  lemma {:induction false} OrderlyInStep(sp: Policy, rp: Policy, params: DiffParams, steps: seq<Step>)
    requires Matched(sp, rp) && params.chunkSize > 0 && OrderlyRun(sp, params, steps)
    requires forall s :: s in steps && s.Build? ==> s.data != []
    ensures InStep(rp, Run(sp, params, steps))
    decreases |steps|
  {
    hide InStep, Take, Matched, Orderly, Enabled;
    if steps == [] {
      assert InStep(rp, START) by { NothingBuilt(rp); }
    } else {
      var front, s := steps[..|steps| - 1], steps[|steps| - 1];
      assert forall n :: 0 <= n < |front| ==> front[..n] == steps[..n] && front[n] == steps[n];
      OrderlyInStep(sp, rp, params, front);
      var y := Run(sp, params, front);
      if Enabled(y, s) {
        EnabledIndex(y, s);
        MatchedCompression(sp, rp);
        if s.Build? { BuildKeeps(sp, rp, params, y, s); } else { EnqueueKeeps(sp, rp, params, y, s.k); }
      }
    }
  }

  lemma NothingBuilt(rp: Policy)
    ensures InStep(rp, START)
  {
    assert Leads(rp, End([], map[]), [], End([], map[]));
  }

  lemma EnabledIndex(y: Session, s: Step)
    requires Enabled(y, s)
    ensures s.Enqueue? ==> s.k < |y.pending|
  {
  }

  lemma MatchedCompression(sp: Policy, rp: Policy)
    requires Matched(sp, rp)
    ensures sp.compression == rp.compression
  {
  }

  /** THE sharing law. However the pumps of a session interleave building and enqueueing,
      as long as no frame of the stream encoder overtakes an earlier one on the way to
      the queue, every frame on the wire is answered with exactly its payload, in the
      order of the queue, and once nothing is pending the ends agree. */
  lemma OrderlyDelivers(sp: Policy, rp: Policy, params: DiffParams, steps: seq<Step>)
    requires Matched(sp, rp) && params.chunkSize > 0 && OrderlyRun(sp, params, steps)
    requires forall s :: s in steps && s.Build? ==> s.data != []
    ensures var y := Run(sp, params, steps);
            var (outs, r) := Drain(rp, End([], map[]), y.wire);
            && |outs| == |y.sent| && (forall i :: 0 <= i < |outs| ==> outs[i] == Payload(y.sent[i].0, y.sent[i].1))
            && (y.pending == [] ==> Agree(y.sender, r, {}))
  {
    hide Run, Drain, Agree, ApplyInbound, Matched;
    OrderlyInStep(sp, rp, params, steps);
  }

  // ------------------------------------------------------------- out of order

  /** A lawful library whose stream codec counts what it has been fed. */
  const COUNTING: Library :=
    Library((a, x) => None, (a, x, n) => None,
            (h, x) => [|h| % 256] + x,
            (h, c, n) => if |c| == n + 1 && c[0] == |h| % 256 then Some(c[1..]) else None)

  const PLAIN: Policy := Policy(COUNTING, Client, {}, Some(ZstdStream), 0)
  const PARAMS: DiffParams := DiffParams(4096, 1024, (base, saved) => false)

  lemma CountingLawful()
    ensures Matched(PLAIN, PLAIN)
  {
    forall h: History, x: Bytes | x != [] ensures COUNTING.streamDec(h, COUNTING.streamEnc(h, x), |x|) == Some(x) {
      assert ([|h| % 256] + x)[1..] == x;
    }
  }

  lemma CountingBuilds(h: History, conn: u32)
    ensures BuildFrame(PLAIN, PARAMS, End(h, map[]), conn, 1, [7])
         == (CompressedStreamData(conn, 1, 1, [|h| % 256] + [7]), End(h + [[7]], map[]))
  {
  }

  function Second(): Frame { CompressedStreamData(2, 1, 1, [1] + [7]) }

  lemma SecondBreaks()
    ensures ApplyInbound(PLAIN, End([], map[]), Second()).0 == StreamBroken
  {
  }

  /** The premise is needed: two pumps build one after the other and enqueue the other
      way round, and the first frame on the wire breaks the stream. */
  lemma OvertakingBreaks()
    ensures Matched(PLAIN, PLAIN)
    ensures var steps := [Build(1, 1, [7]), Build(2, 1, [7]), Enqueue(1), Enqueue(0)];
            var y := Run(PLAIN, PARAMS, steps);
            |y.wire| == 2 && |Drain(PLAIN, End([], map[]), y.wire).0| == 2
            && Drain(PLAIN, End([], map[]), y.wire).0[0] == StreamBroken
  {
    hide Run, BuildFrame, ApplyInbound, Drain, Matched;
    CountingLawful();
    var a, b, c, d := Build(1, 1, [7]), Build(2, 1, [7]), Enqueue(1), Enqueue(0);
    var f1, f2 := CompressedStreamData(1, 1, 1, [0] + [7]), Second();
    var b1, b2 := Built(1, [7], f1), Built(2, [7], f2);
    CountingBuilds([], 1);
    CountingBuilds([[7]], 2);
    RunEmpty();
    assert [] + [[7]] == [[7]] && [] + [b1] == [b1] && [b1] + [b2] == [b1, b2];
    var y1 := Session(End([[7]], map[]), [b1], [], []);
    RunStep([], a, y1);
    assert [] + [a] == [a];
    var y2 := Session(End([[7]] + [[7]], map[]), [b1, b2], [], []);
    RunStep([a], b, y2);
    assert [a] + [b] == [a, b];
    assert y2.pending[..1] + y2.pending[2..] == [b1];
    var y3 := Session(y2.sender, [b1], [] + [f2], [] + [(2, [7])]);
    RunStep([a, b], c, y3);
    assert [a, b] + [c] == [a, b, c];
    assert y3.pending[..0] + y3.pending[1..] == [];
    var y4 := Session(y2.sender, [], y3.wire + [f1], y3.sent + [(1, [7])]);
    RunStep([a, b, c], d, y4);
    assert [a, b, c] + [d] == [a, b, c, d];
    assert y4.wire[0] == f2;
    SecondBreaks();
    DrainFirst(PLAIN, End([], map[]), y4.wire);
    DrainLength(End([], map[]), y4.wire);
  }

  lemma RunEmpty()
    ensures Run(PLAIN, PARAMS, []) == START
  {
  }

  lemma {:induction false} DrainLength(r: End, wire: seq<Frame>)
    ensures |Drain(PLAIN, r, wire).0| == |wire|
  {
    if wire != [] { DrainLength(r, wire[..|wire| - 1]); }
  }

  lemma RunStep(steps: seq<Step>, s: Step, next: Session)
    requires Enabled(Run(PLAIN, PARAMS, steps), s) && Take(PLAIN, PARAMS, Run(PLAIN, PARAMS, steps), s) == next
    ensures Run(PLAIN, PARAMS, steps + [s]) == next
  {
    assert (steps + [s])[..|steps|] == steps;
  }
}
