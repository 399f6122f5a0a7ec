/** The advertiser, a first-in first-out lane that may drop any frame, and the
    gates at the far end, as one step system
    (crates/rx11-core/src/flow.rs, crates/rx11-client/src/serve/mod.rs). */
module AdvertiserRuns {
  import opened Bytes
  import opened Advertisers

  /** A frame in the lane. `epoch` is a history tag: how many transitions the
      channel had made in the table when the frame was emitted. */
  datatype Sent = Sent(edge: Edge, epoch: nat)

  /** `last`, `epochs` and `heard` are history: the last frame emitted for a channel
      since it was forgotten, the transitions it made, and the channels whose gate,
      as it is now, has applied a frame emitted since the last transition. */
  datatype World = World(
    table: Table, lane: seq<Sent>, gates: map<u32, bool>,
    last: map<u32, Action>, epochs: map<u32, nat>, heard: set<u32>)

  datatype Step =
    | Report(edge: Edge)
    | Tick(ready: set<u32>, stale: seq<u32>, due: seq<Edge>)
    | Close(id: u32)
    | Drop(k: nat)
    | Deliver
    | OpenGate(id: u32)
    | CloseGate(id: u32)

  function Start(): World { World(Table({}, map[]), [], map[], map[], map[], {}) }

  function Epoch(w: World, id: u32): nat { if id in w.epochs then w.epochs[id] else 0 }

  function Emit(w: World, e: Edge): World {
    w.(lane := w.lane + [Sent(e, Epoch(w, e.id))], last := w.last[e.id := e.action])
  }

  /** A transition of the table starts a new epoch of the channel. */
  function Transition(w: World, id: u32, t: Table): World {
    w.(table := t, epochs := w.epochs[id := Epoch(w, id) + 1], heard := w.heard - {id})
  }

  function TakeReport(w: World, e: Edge): World {
    var (t, mustSend) := Record(w.table, e);
    if mustSend then Emit(Transition(w, e.id, t), e) else w.(table := t)
  }

  function ReportAll(w: World, stale: seq<u32>): World
    decreases |stale|
  {
    if stale == [] then w else ReportAll(TakeReport(w, Edge(stale[0], Resume)), stale[1..])
  }

  function EmitAll(w: World, due: seq<Edge>): World
    decreases |due|
  {
    if due == [] then w else EmitAll(Emit(w, due[0]), due[1..])
  }

  function TakeTick(w: World, stale: seq<u32>, due: seq<Edge>): World {
    var v := ReportAll(w, stale);
    EmitAll(v.(table := Aged(v.table)), due)
  }

  function TakeClose(w: World, id: u32): World {
    var v := Transition(w, id, Forgotten(w.table, id));
    v.(last := v.last - {id})
  }

  /** The far end sets the gate of a channel it has, and ignores any other frame. */
  function TakeDeliver(w: World): World
    requires w.lane != []
  {
    var f := w.lane[0];
    var v := w.(lane := w.lane[1..]);
    if f.edge.id !in w.gates then v
    else v.(gates := w.gates[f.edge.id := f.edge.action == Pause],
            heard := if f.epoch == Epoch(w, f.edge.id) then w.heard + {f.edge.id} else w.heard)
  }

  ghost predicate Enabled(w: World, s: Step) {
    match s
    case Report(_) => true
    case Tick(ready, stale, due) =>
      Enumerates(stale, w.table.paused * ready) && DueList(due, Reconciled(w.table, ready))
    case Close(_) => true
    case Drop(k) => k < |w.lane|
    case Deliver => w.lane != []
    case OpenGate(id) => id !in w.gates
    case CloseGate(id) => id in w.gates
  }

  ghost function Take(w: World, s: Step): World
    requires Enabled(w, s)
  {
    match s
    case Report(edge) => TakeReport(w, edge)
    case Tick(_, stale, due) => TakeTick(w, stale, due)
    case Close(id) => TakeClose(w, id)
    case Drop(k) => w.(lane := w.lane[..k] + w.lane[k + 1..])
    case Deliver => TakeDeliver(w)
    case OpenGate(id) => w.(gates := w.gates[id := false], heard := w.heard - {id})
    case CloseGate(id) => w.(gates := w.gates - {id}, heard := w.heard - {id})
  }

  /** Runs every step that is enabled and skips the others. */
  ghost function Run(steps: seq<Step>): World
    decreases |steps|
  {
    if steps == [] then Start()
    else
      var w, s := Run(steps[..|steps| - 1]), steps[|steps| - 1];
      if Enabled(w, s) then Take(w, s) else w
  }

  // -------------------------------------------------------------- invariant

  /** The table agrees with the last frame emitted, channel by channel. */
  ghost predicate Honest(w: World) {
    && Sane(w.table)
    && forall id :: id in w.table.paused <==> id in w.last && w.last[id] == Pause
  }

  /** A frame of the current epoch states what the table states. */
  predicate Current(w: World, f: Sent) {
    && f.epoch <= Epoch(w, f.edge.id)
    && (f.epoch == Epoch(w, f.edge.id) ==> (f.edge.action == Pause <==> f.edge.id in w.table.paused))
  }

  ghost predicate Ordered(lane: seq<Sent>) {
    forall i, k :: 0 <= i < k < |lane| && lane[i].edge.id == lane[k].edge.id ==> lane[i].epoch <= lane[k].epoch
  }

  ghost predicate Heard(w: World, id: u32) {
    && id in w.gates
    && (w.gates[id] <==> id in w.table.paused)
    && forall k :: 0 <= k < |w.lane| && w.lane[k].edge.id == id ==> w.lane[k].epoch == Epoch(w, id)
  }

  ghost predicate Inv(w: World) {
    && Honest(w)
    && (forall k :: 0 <= k < |w.lane| ==> Current(w, w.lane[k]))
    && Ordered(w.lane)
    && (forall id :: id in w.heard ==> Heard(w, id))
  }

  lemma EmitKeeps(w: World, e: Edge)
    requires Inv(w) && (e.action == Pause <==> e.id in w.table.paused)
    ensures Inv(Emit(w, e)) && Emit(w, e).table == w.table
  {
    var v := Emit(w, e);
    forall k | 0 <= k < |v.lane| ensures Current(v, v.lane[k]) {
      if k < |w.lane| { assert Current(w, w.lane[k]); }
    }
    forall i, k | 0 <= i < k < |v.lane| && v.lane[i].edge.id == v.lane[k].edge.id ensures v.lane[i].epoch <= v.lane[k].epoch {
      assert Current(w, w.lane[i]);
    }
    forall id | id in v.heard ensures Heard(v, id) {
      assert Heard(w, id);
    }
  }

  /** A transition and the frame announcing it keep the invariant together. */
  lemma AnnounceKeeps(w: World, e: Edge)
    requires Inv(w) && Record(w.table, e).1
    ensures Inv(TakeReport(w, e))
  {
    var v := TakeReport(w, e);
    forall k | 0 <= k < |v.lane| ensures Current(v, v.lane[k]) {
      if k < |w.lane| { assert Current(w, w.lane[k]); }
    }
    forall i, k | 0 <= i < k < |v.lane| && v.lane[i].edge.id == v.lane[k].edge.id ensures v.lane[i].epoch <= v.lane[k].epoch {
      assert Current(w, w.lane[i]);
    }
    forall id | id in v.heard ensures Heard(v, id) {
      assert Heard(w, id);
    }
  }

  /** Ageing, and dropping a redundant budget, leave the pauses alone. */
  lemma SamePausesKeep(w: World, t: Table)
    requires Inv(w) && Sane(t) && t.paused == w.table.paused
    ensures Inv(w.(table := t))
  {
    var v := w.(table := t);
    forall k | 0 <= k < |v.lane| ensures Current(v, v.lane[k]) {
      assert Current(w, w.lane[k]);
    }
    forall id | id in v.heard ensures Heard(v, id) {
      assert Heard(w, id);
    }
  }

  lemma ReportKeeps(w: World, e: Edge)
    requires Inv(w)
    ensures Inv(TakeReport(w, e)) && TakeReport(w, e).table == Record(w.table, e).0
  {
    if Record(w.table, e).1 { AnnounceKeeps(w, e); } else { SamePausesKeep(w, Record(w.table, e).0); }
  }

  lemma CloseKeeps(w: World, id: u32)
    requires Inv(w)
    ensures Inv(TakeClose(w, id))
  {
    var v := TakeClose(w, id);
    forall k | 0 <= k < |v.lane| ensures Current(v, v.lane[k]) {
      assert Current(w, w.lane[k]);
    }
    forall i | i in v.heard ensures Heard(v, i) {
      assert Heard(w, i);
    }
  }

  lemma DropKeeps(w: World, k: nat)
    requires Inv(w) && k < |w.lane|
    ensures Inv(w.(lane := w.lane[..k] + w.lane[k + 1..]))
  {
    var v := w.(lane := w.lane[..k] + w.lane[k + 1..]);
    assert forall i :: 0 <= i < |v.lane| ==> v.lane[i] == w.lane[if i < k then i else i + 1];
    forall i | 0 <= i < |v.lane| ensures Current(v, v.lane[i]) {
      assert Current(w, w.lane[if i < k then i else i + 1]);
    }
    forall id | id in v.heard ensures Heard(v, id) {
      assert Heard(w, id);
    }
  }

  lemma DeliverKeeps(w: World)
    requires Inv(w) && w.lane != []
    ensures Inv(TakeDeliver(w))
  {
    var v, f := TakeDeliver(w), w.lane[0];
    assert forall i :: 0 <= i < |v.lane| ==> v.lane[i] == w.lane[i + 1];
    assert Current(w, f);
    forall i | 0 <= i < |v.lane| ensures Current(v, v.lane[i]) {
      assert Current(w, w.lane[i + 1]);
    }
    forall id | id in v.heard ensures Heard(v, id) {
      if id != f.edge.id || id in w.heard { assert Heard(w, id); }
      forall i | 0 <= i < |v.lane| && v.lane[i].edge.id == id ensures v.lane[i].epoch == Epoch(v, id) {
        assert Current(w, w.lane[i + 1]);
      }
    }
  }

  lemma GateKeeps(w: World, id: u32, gates: map<u32, bool>)
    requires Inv(w) && gates - {id} == w.gates - {id}
    ensures Inv(w.(gates := gates, heard := w.heard - {id}))
  {
    var v := w.(gates := gates, heard := w.heard - {id});
    forall k | 0 <= k < |v.lane| ensures Current(v, v.lane[k]) {
      assert Current(w, w.lane[k]);
    }
    forall i | i in v.heard ensures Heard(v, i) {
      assert Heard(w, i) && i in w.gates - {id} && (w.gates - {id})[i] == w.gates[i];
      assert i in gates - {id} && (gates - {id})[i] == gates[i];
    }
  }

  // ------------------------------------------------------------------ ticks

  function Edges(lane: seq<Sent>): seq<Edge> { seq(|lane|, k requires 0 <= k < |lane| => lane[k].edge) }

  lemma EmitSays(w: World, e: Edge)
    ensures Edges(Emit(w, e).lane) == Edges(w.lane) + [e]
  {
  }

  lemma {:induction false} EmitAllKeeps(w: World, due: seq<Edge>)
    requires Inv(w)
    requires forall k :: 0 <= k < |due| ==> (due[k].action == Pause <==> due[k].id in w.table.paused)
    ensures Inv(EmitAll(w, due)) && EmitAll(w, due).table == w.table
    ensures Edges(EmitAll(w, due).lane) == Edges(w.lane) + due
    decreases |due|
  {
    hide Inv, Emit, Edges;
    if due != [] {
      EmitKeeps(w, due[0]);
      EmitSays(w, due[0]);
      EmitAllKeeps(Emit(w, due[0]), due[1..]);
      assert due == [due[0]] + due[1..];
      Assoc(Edges(w.lane), [due[0]], due[1..]);
    }
  }

  function Ids(list: seq<u32>): set<u32> { set k | 0 <= k < |list| :: list[k] }

  lemma ReportOne(w: World, t: Table, done: set<u32>, id: u32)
    requires Inv(w) && Sane(t) && w.table == Reconciled(t, done) && id in t.paused && id !in done
    ensures var v := TakeReport(w, Edge(id, Resume));
            Inv(v) && v.table == Reconciled(t, done + {id}) && Edges(v.lane) == Edges(w.lane) + [Edge(id, Resume)]
  {
    ReconcileOne(t, done, id);
    ReportKeeps(w, Edge(id, Resume));
    assert Record(w.table, Edge(id, Resume)).1;
    EmitSays(Transition(w, id, Record(w.table, Edge(id, Resume)).0), Edge(id, Resume));
  }

  lemma ResumeEdgesFirst(stale: seq<u32>)
    requires stale != []
    ensures ResumeEdges(stale) == [Edge(stale[0], Resume)] + ResumeEdges(stale[1..])
    ensures Ids(stale) == {stale[0]} + Ids(stale[1..])
  {
    assert stale == [stale[0]] + stale[1..];
    forall id | id in Ids(stale) ensures id in {stale[0]} + Ids(stale[1..]) {
      var k :| 0 <= k < |stale| && stale[k] == id;
      if k > 0 { assert stale[1..][k - 1] == id; }
    }
  }

  lemma {:induction false} ReportAllKeeps(w: World, t: Table, done: set<u32>, stale: seq<u32>)
    requires Inv(w) && Sane(t) && w.table == Reconciled(t, done)
    requires forall k :: 0 <= k < |stale| ==> stale[k] in t.paused && stale[k] !in done
    requires forall i, k :: 0 <= i < k < |stale| ==> stale[i] != stale[k]
    ensures var v := ReportAll(w, stale);
            Inv(v) && v.table == Reconciled(t, done + Ids(stale)) && Edges(v.lane) == Edges(w.lane) + ResumeEdges(stale)
    decreases |stale|
  {
    hide Inv, Sane, Reconciled, TakeReport, Edges, ResumeEdges, Ids;
    if stale == [] {
      NoIds();
      assert done + Ids(stale) == done;
    } else {
      ReportOne(w, t, done, stale[0]);
      ReportAllKeeps(TakeReport(w, Edge(stale[0], Resume)), t, done + {stale[0]}, stale[1..]);
      ResumeEdgesFirst(stale);
      assert done + {stale[0]} + Ids(stale[1..]) == done + Ids(stale);
      Assoc(Edges(w.lane), [Edge(stale[0], Resume)], ResumeEdges(stale[1..]));
    }
  }

  lemma NoIds()
    ensures Ids([]) == {} && ResumeEdges([]) == []
  {
  }

  lemma AgedKeeps(w: World)
    requires Inv(w)
    ensures Inv(w.(table := Aged(w.table)))
  {
    SamePausesKeep(w, Aged(w.table));
  }

  lemma SaneDue(due: seq<Edge>, t: Table)
    requires Sane(t) && DueList(due, t)
    ensures forall k :: 0 <= k < |due| ==> (due[k].action == Pause <==> due[k].id in Aged(t).paused)
  {
  }

  /** What one tick does: the table is reconciled and aged, and the lane gets a
      Resume for each ended pause and then everything due. */
  lemma TickDoes(w: World, ready: set<u32>, stale: seq<u32>, due: seq<Edge>)
    requires Inv(w) && Enabled(w, Tick(ready, stale, due))
    ensures var v := TakeTick(w, stale, due);
            Inv(v) && v.table == Aged(Reconciled(w.table, ready)) && Edges(v.lane) == Edges(w.lane) + ResumeEdges(stale) + due
  {
    hide Reconciled, Aged, DueList, Edges, ResumeEdges, Current, Ordered, Heard;
    var u := ReportAll(w, stale);
    NoneReconciled(w.table);
    ReportAllKeeps(w, w.table, {}, stale);
    assert {} + Ids(stale) == w.table.paused * ready;
    ReconcileHeld(w.table, ready);
    AgedKeeps(u);
    SaneDue(due, u.table);
    EmitAllKeeps(u.(table := Aged(u.table)), due);
  }

  // -------------------------------------------------------------- every run

  lemma StepKeeps(w: World, s: Step)
    requires Inv(w) && Enabled(w, s)
    ensures Inv(Take(w, s))
  {
    hide Inv, TakeReport, TakeTick, TakeClose, TakeDeliver, DueList, Enumerates;
    match s
    case Report(edge) => ReportKeeps(w, edge);
    case Tick(ready, stale, due) => TickDoes(w, ready, stale, due);
    case Close(id) => CloseKeeps(w, id);
    case Drop(k) => DropKeeps(w, k);
    case Deliver => DeliverKeeps(w);
    case OpenGate(id) =>
      assert w.gates[id := false] - {id} == w.gates - {id};
      GateKeeps(w, id, w.gates[id := false]);
    case CloseGate(id) =>
      assert w.gates - {id} - {id} == w.gates - {id};
      GateKeeps(w, id, w.gates - {id});
  }

  lemma {:induction false} RunKeeps(steps: seq<Step>)
    ensures Inv(Run(steps))
    decreases |steps|
  {
    if steps != [] {
      hide Inv, Enabled, Take;
      var w, s := Run(steps[..|steps| - 1]), steps[|steps| - 1];
      RunKeeps(steps[..|steps| - 1]);
      if Enabled(w, s) { StepKeeps(w, s); }
    }
  }

  /** THE table law: over every run of edges, ticks, closes, losses and deliveries
      a channel is held paused exactly when the last frame emitted for it, since it
      was last forgotten, was a Pause. */
  lemma PausedIffLastPause(steps: seq<Step>, id: u32)
    ensures var w := Run(steps); id in w.table.paused <==> id in w.last && w.last[id] == Pause
  {
    RunKeeps(steps);
  }

  /** A tick ends the pause of every live channel whose meter is not latched, and
      of no other: its Resume is emitted twice at once and seven repeats are left.
      Every pause that stays held is stated again. */
  lemma TickReconciles(steps: seq<Step>, ready: set<u32>, stale: seq<u32>, due: seq<Edge>)
    requires Enabled(Run(steps), Tick(ready, stale, due))
    ensures var w, v := Run(steps), Take(Run(steps), Tick(ready, stale, due));
            && v.table.paused == w.table.paused - ready
            && Edges(v.lane) == Edges(w.lane) + ResumeEdges(stale) + due
            && (forall id :: id in w.table.paused * ready ==>
                  && id in stale && Edge(id, Resume) in due
                  && id in v.table.resuming && v.table.resuming[id] == RESUME_RETRANSMITS - 1)
            && (forall id :: id in w.table.paused - ready ==> Edge(id, Pause) in due)
  {
    hide Run, Inv, TakeTick, Edges, ResumeEdges;
    RunKeeps(steps);
    TickDoes(Run(steps), ready, stale, due);
  }

  // ---------------------------------------------------- agreement at the gate

  /** Nothing happens to the channel or its gate: no edge of it, no tick that finds
      its meter unlatched, no close or open. Losses and deliveries are free. */
  ghost predicate Settled(steps: seq<Step>, id: u32) {
    forall k :: 0 <= k < |steps| ==> SettledStep(steps[k], id)
  }

  predicate SettledStep(s: Step, id: u32) {
    match s
    case Report(edge) => edge.id != id
    case Tick(ready, _, _) => id !in ready
    case Close(i) => i != id
    case OpenGate(i) => i != id
    case CloseGate(i) => i != id
    case _ => true
  }

  lemma {:induction false} EmitAllHeard(w: World, due: seq<Edge>)
    ensures EmitAll(w, due).heard == w.heard && EmitAll(w, due).epochs == w.epochs && EmitAll(w, due).table == w.table
    decreases |due|
  {
    if due != [] { EmitAllHeard(Emit(w, due[0]), due[1..]); }
  }

  lemma {:induction false} ReportAllHeard(w: World, stale: seq<u32>, id: u32)
    requires id !in stale
    ensures id in ReportAll(w, stale).heard <==> id in w.heard
    decreases |stale|
  {
    if stale != [] { ReportAllHeard(TakeReport(w, Edge(stale[0], Resume)), stale[1..], id); }
  }

  lemma SettledKeepsHeard(w: World, s: Step, id: u32)
    requires Enabled(w, s) && SettledStep(s, id) && id in w.heard
    ensures id in Take(w, s).heard
  {
    match s
    case Tick(ready, stale, due) =>
      ReportAllHeard(w, stale, id);
      var v := ReportAll(w, stale);
      EmitAllHeard(v.(table := Aged(v.table)), due);
    case _ =>
  }

  lemma {:induction false} StaysHeard(steps: seq<Step>, more: seq<Step>, id: u32)
    requires Settled(more, id) && id in Run(steps).heard
    ensures id in Run(steps + more).heard
    decreases |more|
  {
    hide Run, Take, Enabled;
    if more == [] {
      assert steps + more == steps;
    } else {
      var s, most := more[|more| - 1], more[..|more| - 1];
      StaysHeard(steps, most, id);
      RunLast(steps + most, s);
      assert steps + more == steps + most + [s];
      assert SettledStep(more[|more| - 1], id);
      if Enabled(Run(steps + most), s) { SettledKeepsHeard(Run(steps + most), s, id); }
    }
  }

  lemma RunLast(steps: seq<Step>, s: Step)
    ensures Run(steps + [s]) == if Enabled(Run(steps), s) then Take(Run(steps), s) else Run(steps)
  {
    var all := steps + [s];
    assert all[..|all| - 1] == steps && all[|all| - 1] == s;
  }

  /** THE agreement law. Once the far end has applied any one frame emitted since
      the channel's last transition, its gate agrees with the table and goes on
      agreeing, whatever else is lost, delivered or reported for other channels,
      until the channel or the gate itself changes. */
  lemma GateAgrees(steps: seq<Step>, more: seq<Step>, id: u32)
    requires var w := Run(steps);
             && w.lane != [] && w.lane[0].edge.id == id && w.lane[0].epoch == Epoch(w, id) && id in w.gates
    requires Settled(more, id)
    ensures var v := Run(steps + [Deliver] + more);
            id in v.gates && (v.gates[id] <==> id in v.table.paused)
  {
    hide Run, Inv;
    RunLast(steps, Deliver);
    StaysHeard(steps + [Deliver], more, id);
    RunKeeps(steps + [Deliver] + more);
    HeardAgrees(Run(steps + [Deliver] + more), id);
  }

  lemma HeardAgrees(w: World, id: u32)
    requires Inv(w) && id in w.heard
    ensures id in w.gates && (w.gates[id] <==> id in w.table.paused)
  {
    assert Heard(w, id);
  }

  ghost predicate Shut(w: World, id: u32) { id in w.gates && w.gates[id] }

  ghost predicate Open(w: World, id: u32) { id in w.gates && !w.gates[id] }

  ghost predicate ResumeWaits(w: World, id: u32) {
    exists k :: 0 <= k < |w.lane| && w.lane[k].edge == Edge(id, Resume)
  }

  /** The gate is shut, nothing holds it shut, and nothing is left to say so. */
  ghost predicate Stuck(w: World, id: u32) {
    Shut(w, id) && id !in w.table.paused && id !in w.table.resuming && !ResumeWaits(w, id)
  }

  lemma StuckStep(w: World, s: Step, id: u32)
    requires Sane(w.table) && Stuck(w, id) && Enabled(w, s) && SettledStep(s, id)
    ensures Stuck(Take(w, s), id)
  {
    match s
    case Tick(ready, stale, due) =>
      ReportOthers(w, stale, id);
      var v := ReportAll(w, stale);
      EmitOthers(v.(table := Aged(v.table)), due, id);
    case Deliver => assert w.lane[0].edge.id == id ==> w.lane[0].edge.action == Pause by { assert w.lane[0].edge != Edge(id, Resume); }
    case Drop(k) =>
    case _ =>
  }

  lemma {:induction false} ReportOthers(w: World, stale: seq<u32>, id: u32)
    requires Stuck(w, id) && id !in stale
    ensures Stuck(ReportAll(w, stale), id)
    decreases |stale|
  {
    if stale != [] {
      assert Stuck(TakeReport(w, Edge(stale[0], Resume)), id);
      ReportOthers(TakeReport(w, Edge(stale[0], Resume)), stale[1..], id);
    }
  }

  lemma {:induction false} EmitOthers(w: World, due: seq<Edge>, id: u32)
    requires Stuck(w, id) && forall k :: 0 <= k < |due| ==> due[k].id != id
    ensures Stuck(EmitAll(w, due), id)
    decreases |due|
  {
    if due != [] {
      assert Stuck(Emit(w, due[0]), id);
      EmitOthers(Emit(w, due[0]), due[1..], id);
    }
  }

  lemma {:induction false} StuckStays(steps: seq<Step>, more: seq<Step>, id: u32)
    requires Stuck(Run(steps), id) && Settled(more, id)
    ensures Stuck(Run(steps + more), id)
    decreases |more|
  {
    hide Run, Take, Enabled, Stuck;
    if more == [] {
      assert steps + more == steps;
    } else {
      var s, most := more[|more| - 1], more[..|more| - 1];
      StuckStays(steps, most, id);
      RunLast(steps + most, s);
      assert steps + more == steps + most + [s];
      assert SettledStep(more[|more| - 1], id);
      SaneRun(steps + most);
      if Enabled(Run(steps + most), s) { StuckStep(Run(steps + most), s, id); }
    }
  }

  /** A Resume in the lane opens the gate as soon as it is delivered. */
  lemma {:induction false} OpensByDelivery(steps: seq<Step>, id: u32, k: nat) returns (more: seq<Step>)
    requires var w := Run(steps); id in w.gates && k < |w.lane| && w.lane[k].edge == Edge(id, Resume)
    ensures Settled(more, id) && Open(Run(steps + more), id)
    decreases k
  {
    hide Run;
    RunLast(steps, Deliver);
    if k == 0 {
      more := [Deliver];
    } else {
      var most := OpensByDelivery(steps + [Deliver], id, k - 1);
      more := [Deliver] + most;
      Assoc(steps, [Deliver], most);
      SettledFirst(Deliver, most, id);
    }
  }

  lemma SettledFirst(s: Step, more: seq<Step>, id: u32)
    requires SettledStep(s, id) && Settled(more, id)
    ensures Settled([s] + more, id)
  {
    var all := [s] + more;
    forall k | 0 <= k < |all| ensures SettledStep(all[k], id) {
      if k > 0 { assert all[k] == more[k - 1]; }
    }
  }

  lemma {:induction false} ListOf(ids: set<u32>) returns (list: seq<u32>)
    ensures Enumerates(list, ids)
    decreases |ids|
  {
    list := [];
    if ids != {} {
      var id: u32 :| id in ids;
      var others := ListOf(ids - {id});
      list := others + [id];
      assert ids == (ids - {id}) + {id};
    }
  }

  lemma DueOf(t: Table) returns (due: seq<Edge>)
    ensures DueList(due, t)
  {
    var held := ListOf(t.paused);
    var said := ListOf(t.resuming.Keys);
    var pauses := seq(|held|, k requires 0 <= k < |held| => Edge(held[k], Pause));
    due := pauses + ResumeEdges(said);
    forall id | id in t.paused ensures Edge(id, Pause) in due {
      var k :| 0 <= k < |held| && held[k] == id;
      assert due[k] == Edge(id, Pause);
    }
    forall id | id in t.resuming ensures Edge(id, Resume) in due {
      var k :| 0 <= k < |said| && said[k] == id;
      assert due[|held| + k] == Edge(id, Resume);
    }
  }

  /** A tick puts a Resume into the lane for every channel whose budget is not spent. */
  lemma OpensByTick(steps: seq<Step>, id: u32) returns (more: seq<Step>)
    requires var w := Run(steps); id in w.gates && id in w.table.resuming
    ensures Settled(more, id) && Open(Run(steps + more), id)
  {
    hide Run, Inv, TakeTick, Aged, ResumeEdges, DueList;
    var w := Run(steps);
    var due := DueOf(w.table);
    NoneReconciled(w.table);
    assert w.table.paused * {} == {};
    var tick := Tick({}, [], due);
    assert Enabled(w, tick);
    RunKeeps(steps);
    TickDoes(w, {}, [], due);
    TickGates(w, [], due);
    RunLast(steps, tick);
    var v := Take(w, tick);
    var k := SaidBy(v.lane, Edges(w.lane) + ResumeEdges([]), due, Edge(id, Resume));
    var most := OpensByDelivery(steps + [tick], id, k);
    more := [tick] + most;
    Assoc(steps, [tick], most);
    SettledFirst(tick, most, id);
  }

  lemma SaidBy(lane: seq<Sent>, before: seq<Edge>, due: seq<Edge>, e: Edge) returns (k: nat)
    requires Edges(lane) == before + due && e in due
    ensures k < |lane| && lane[k].edge == e
  {
    var i :| 0 <= i < |due| && due[i] == e;
    k := |before| + i;
    assert Edges(lane)[k] == e;
  }

  lemma TickGates(w: World, stale: seq<u32>, due: seq<Edge>)
    ensures TakeTick(w, stale, due).gates == w.gates
  {
    ReportAllGates(w, stale);
    var v := ReportAll(w, stale);
    EmitAllGates(v.(table := Aged(v.table)), due);
  }

  lemma {:induction false} ReportAllGates(w: World, stale: seq<u32>)
    ensures ReportAll(w, stale).gates == w.gates
    decreases |stale|
  {
    if stale != [] { ReportAllGates(TakeReport(w, Edge(stale[0], Resume)), stale[1..]); }
  }

  lemma {:induction false} EmitAllGates(w: World, due: seq<Edge>)
    ensures EmitAll(w, due).gates == w.gates
    decreases |due|
  {
    if due != [] { EmitAllGates(Emit(w, due[0]), due[1..]); }
  }

  /** THE reopening law. A shut gate of a channel that is not held can still come open
      without a new edge, close or open of it exactly when its Resume is still being
      repeated or one is in the lane. Otherwise it stays shut whatever is delivered,
      lost or ticked, stale Pauses in the lane included. */
  lemma ReopensExactly(steps: seq<Step>, id: u32)
    requires var w := Run(steps); Shut(w, id) && id !in w.table.paused
    ensures var w := Run(steps);
            (exists more: seq<Step> :: Settled(more, id) && Open(Run(steps + more), id))
            <==> id in w.table.resuming || ResumeWaits(w, id)
  {
    hide Run, Settled;
    var w := Run(steps);
    if id in w.table.resuming {
      var more := OpensByTick(steps, id);
    } else if ResumeWaits(w, id) {
      var k :| 0 <= k < |w.lane| && w.lane[k].edge == Edge(id, Resume);
      var more := OpensByDelivery(steps, id, k);
    } else {
      forall more: seq<Step> | Settled(more, id) ensures !Open(Run(steps + more), id) {
        StuckStays(steps, more, id);
      }
    }
  }

  /** The edge frame of a Resume is lost and a redundant Resume follows it: this gets
      the gate stuck from every state where the channel is held at both ends and no
      stale Resume is in the lane. */
  lemma RedundantResumeSticks(w: World, id: u32)
    requires id in w.table.paused && Shut(w, id) && !ResumeWaits(w, id)
    ensures var lost := Take(w, Report(Edge(id, Resume)));
            Enabled(lost, Drop(|w.lane|)) && Stuck(Take(Take(lost, Drop(|w.lane|)), Report(Edge(id, Resume))), id)
  {
    var lost := TakeReport(w, Edge(id, Resume));
    assert |lost.lane| == |w.lane| + 1;
    var dropped := Take(lost, Drop(|w.lane|));
    assert dropped.lane == w.lane;
    assert id !in dropped.table.paused;
  }

  /** THE gap in the retransmission scheme: any run that leaves the channel held at
      both ends extends by a loss and a redundant Resume to one where the gate stays
      shut, whatever comes after, until the channel itself changes again. */
  lemma StrandedForEver(steps: seq<Step>, more: seq<Step>, id: u32)
    requires var w := Run(steps); id in w.table.paused && Shut(w, id) && !ResumeWaits(w, id)
    requires Settled(more, id)
    ensures var lose := [Report(Edge(id, Resume)), Drop(|Run(steps).lane|), Report(Edge(id, Resume))];
            Stuck(Run(steps + lose + more), id)
  {
    hide Run, Take, Enabled, Stuck, ResumeWaits;
    var w := Run(steps);
    var a, b := Report(Edge(id, Resume)), Drop(|w.lane|);
    AlwaysEnabled(w, Edge(id, Resume));
    RedundantResumeSticks(w, id);
    AlwaysEnabled(Take(Take(w, a), b), Edge(id, Resume));
    Three(steps, a, b, a);
    StuckStays(steps + [a, b, a], more, id);
  }

  /** The everyday way into that gap: a tick finds the meter unlatched and ends the pause,
      both its Resume frames are lost, and then the pump's own report of the same edge
      arrives and cancels the repeats. */
  lemma LateReportSticks(id: u32, more: seq<Step>)
    requires Settled(more, id)
    ensures var held := [OpenGate(id), Report(Edge(id, Pause)), Deliver];
            var tick := Tick({id}, [id], [Edge(id, Resume)]);
            Stuck(Run(held + [tick, Drop(0), Drop(0)] + [Report(Edge(id, Resume))] + more), id)
  {
    hide Run, Stuck;
    var held := [OpenGate(id), Report(Edge(id, Pause)), Deliver];
    var tick, late := Tick({id}, [id], [Edge(id, Resume)]), Report(Edge(id, Resume));
    RunHeld(id);
    var w := Run(held);
    var v := Take(w, tick);
    TickEndsHeld(w, id);
    Three(held, tick, Drop(0), Drop(0));
    var steps := held + [tick, Drop(0), Drop(0)];
    RunLast(steps, late);
    assert Stuck(Run(steps + [late]), id) by { StuckNow(Run(steps), id); }
    StuckStays(steps + [late], more, id);
  }

  lemma RunHeld(id: u32)
    ensures var w := Run([OpenGate(id), Report(Edge(id, Pause)), Deliver]);
            w.table == Table({id}, map[]) && w.lane == [] && Shut(w, id)
  {
    var a, b, c := OpenGate(id), Report(Edge(id, Pause)), Deliver;
    assert Run([]) == Start();
    Three([], a, b, c);
    assert [] + [a, b, c] == [a, b, c];
  }

  lemma TickEndsHeld(w: World, id: u32)
    requires w.table == Table({id}, map[]) && w.lane == [] && Shut(w, id)
    ensures var tick := Tick({id}, [id], [Edge(id, Resume)]);
            Enabled(w, tick) &&
            var v := Take(w, tick);
            Enabled(v, Drop(0)) && Enabled(Take(v, Drop(0)), Drop(0)) &&
            var u := Take(Take(v, Drop(0)), Drop(0));
            u.lane == [] && Shut(u, id) && id !in u.table.paused
  {
    var due := [Edge(id, Resume)];
    var v0 := TakeReport(w, Edge(id, Resume));
    assert [id][1..] == [] && ReportAll(w, [id]) == v0;
    var v1 := v0.(table := Aged(v0.table));
    assert due[1..] == [] && EmitAll(v1, due) == Emit(v1, due[0]);
    var v := Emit(v1, due[0]);
    assert |v.lane| == 2 && Shut(v, id) && id !in v.table.paused;
  }

  lemma StuckNow(w: World, id: u32)
    requires w.lane == [] && Shut(w, id) && id !in w.table.paused
    ensures Stuck(Take(w, Report(Edge(id, Resume))), id)
  {
  }

  lemma SaneRun(steps: seq<Step>)
    ensures Sane(Run(steps).table)
  {
    RunKeeps(steps);
  }

  lemma AlwaysEnabled(w: World, e: Edge)
    ensures Enabled(w, Report(e))
  {
  }

  lemma Three(steps: seq<Step>, a: Step, b: Step, c: Step)
    requires Enabled(Run(steps), a) && Enabled(Take(Run(steps), a), b) && Enabled(Take(Take(Run(steps), a), b), c)
    ensures Run(steps + [a, b, c]) == Take(Take(Take(Run(steps), a), b), c)
  {
    hide Run, Take, Enabled;
    RunLast(steps, a);
    RunLast(steps + [a], b);
    RunLast(steps + [a] + [b], c);
    assert steps + [a] + [b] + [c] == steps + [a, b, c];
  }

  /** The premise is reachable: one pause, delivered to an open gate. */
  lemma HeldAtBothEnds(id: u32)
    ensures var w := Run([OpenGate(id), Report(Edge(id, Pause)), Deliver]);
            id in w.table.paused && Shut(w, id) && !ResumeWaits(w, id)
  {
    RunHeld(id);
  }
}
