/** Keeping the peer informed of flow state over a lane that may drop frames
    (crates/rx11-core/src/flow.rs, `Advertiser` and `EgressGate`;
    crates/rx11-client/src/serve/mod.rs, advertise, re-advertise and the
    FlowControl handler). */
module Advertisers {
  import opened Bytes

  const RESUME_RETRANSMITS: nat := 8

  datatype Action = Pause | Resume

  datatype Edge = Edge(id: u32, action: Action)

  // ------------------------------------------------------------- the tables

  /** The channels advertised as paused, and those whose Resume is still being
      repeated with what is left of their budget. */
  datatype Table = Table(paused: set<u32>, resuming: map<u32, nat>)

  /** The table after an edge, and whether a frame must go out for it. */
  function Record(t: Table, e: Edge): (Table, bool) {
    match e.action
    case Pause => (Table(t.paused + {e.id}, t.resuming - {e.id}), e.id !in t.paused)
    case Resume =>
      if e.id in t.paused
      then (Table(t.paused - {e.id}, t.resuming[e.id := RESUME_RETRANSMITS]), true)
      else (Table(t.paused, t.resuming - {e.id}), false)
  }

  function Aged(t: Table): Table {
    Table(t.paused, map id | id in t.resuming && t.resuming[id] > 1 :: t.resuming[id] - 1)
  }

  function Forgotten(t: Table, id: u32): Table { Table(t.paused - {id}, t.resuming - {id}) }

  /** What one tick owes: each held Pause and each repeated Resume, once, in any order. */
  ghost predicate DueList(due: seq<Edge>, t: Table) {
    && (forall k :: 0 <= k < |due| ==>
          if due[k].action == Pause then due[k].id in t.paused else due[k].id in t.resuming)
    && (forall i, k :: 0 <= i < k < |due| ==> due[i] != due[k])
    && (forall id :: id in t.paused ==> Edge(id, Pause) in due)
    && (forall id :: id in t.resuming ==> Edge(id, Resume) in due)
  }

  class Advertiser {
    var paused: set<u32>
    var resuming: map<u32, nat>

    constructor ()
      ensures View() == Table({}, map[])
    {
      paused, resuming := {}, map[];
    }

    ghost function View(): Table
      reads this
    {
      Table(paused, resuming)
    }

    method RecordEdge(e: Edge) returns (mustSend: bool)
      modifies this
      ensures (View(), mustSend) == Record(old(View()), e)
    {
      match e.action
      case Pause =>
        resuming := resuming - {e.id};
        mustSend := e.id !in paused;
        paused := paused + {e.id};
      case Resume =>
        if e.id in paused {
          paused := paused - {e.id};
          resuming := resuming[e.id := RESUME_RETRANSMITS];
          mustSend := true;
        } else {
          resuming := resuming - {e.id};
          mustSend := false;
        }
    }

    method Due() returns (due: seq<Edge>)
      modifies this`resuming
      ensures View() == Aged(old(View())) && DueList(due, old(View()))
    {
      due := [];
      var todo := paused;
      while todo != {}
        invariant todo <= paused
        invariant forall k :: 0 <= k < |due| ==> due[k].action == Pause && due[k].id in paused - todo
        invariant forall i, k :: 0 <= i < k < |due| ==> due[i] != due[k]
        invariant forall id :: id in paused - todo ==> Edge(id, Pause) in due
      {
        var id: u32 :| id in todo;
        due, todo := due + [Edge(id, Pause)], todo - {id};
      }
      var keep: map<u32, nat> := map[];
      var left := resuming.Keys;
      while left != {}
        invariant left <= resuming.Keys
        invariant forall k :: 0 <= k < |due| ==>
                    if due[k].action == Pause then due[k].id in paused else due[k].id in resuming.Keys - left
        invariant forall i, k :: 0 <= i < k < |due| ==> due[i] != due[k]
        invariant forall id :: id in paused ==> Edge(id, Pause) in due
        invariant forall id :: id in resuming.Keys - left ==> Edge(id, Resume) in due
        invariant forall id :: id in keep <==> id in resuming.Keys - left && resuming[id] > 1
        invariant forall id :: id in keep ==> keep[id] == resuming[id] - 1
      {
        var id: u32 :| id in left;
        due, left := due + [Edge(id, Resume)], left - {id};
        if resuming[id] > 1 { keep := keep[id := resuming[id] - 1]; }
      }
      resuming := keep;
    }

    method Forget(id: u32)
      modifies this
      ensures View() == Forgotten(old(View()), id)
    {
      paused := paused - {id};
      resuming := resuming - {id};
    }
  }

  /** The sender-side latch the peer's frames set. */
  class EgressGate {
    var paused: bool

    constructor ()
      ensures !paused
    {
      paused := false;
    }

    method Set(to: bool) returns (changed: bool)
      modifies this
      ensures paused == to && (changed <==> old(paused) != to)
    {
      changed := paused != to;
      paused := to;
    }
  }

  ghost predicate Enumerates(list: seq<u32>, ids: set<u32>) {
    && (forall k :: 0 <= k < |list| ==> list[k] in ids)
    && (forall i, k :: 0 <= i < k < |list| ==> list[i] != list[k])
    && (forall id :: id in ids ==> id in list)
  }

  function ResumeEdges(list: seq<u32>): seq<Edge> { seq(|list|, k requires 0 <= k < |list| => Edge(list[k], Resume)) }

  /** What reconciling against the live, unlatched meters leaves of the table. */
  function Reconciled(t: Table, ready: set<u32>): Table {
    Table(t.paused - ready, map id | id in t.resuming.Keys + t.paused * ready ::
      if id in t.paused && id in ready then RESUME_RETRANSMITS else t.resuming[id])
  }

  lemma ReconcileOne(t: Table, done: set<u32>, id: u32)
    requires t.paused !! t.resuming.Keys && id in t.paused && id !in done
    ensures Record(Reconciled(t, done), Edge(id, Resume)) == (Reconciled(t, done + {id}), true)
  {
    var was, now := Reconciled(t, done), Reconciled(t, done + {id});
    assert was.paused - {id} == now.paused;
    assert was.resuming[id := RESUME_RETRANSMITS] == now.resuming;
  }

  lemma EnumerateOne(list: seq<u32>, ids: set<u32>, id: u32)
    requires Enumerates(list, ids) && id !in ids
    ensures Enumerates(list + [id], ids + {id}) && ResumeEdges(list + [id]) == ResumeEdges(list) + [Edge(id, Resume)]
  {
  }

  /** One tick: every advertised pause of a live, unlatched meter is ended by an
      edge, and then everything due is stated again. */
  method ReAdvertise(a: Advertiser, ready: set<u32>) returns (sent: seq<Edge>, ghost stale: seq<u32>, ghost due: seq<Edge>)
    requires a.View().paused !! a.View().resuming.Keys
    modifies a
    ensures a.View() == Aged(Reconciled(old(a.View()), ready))
    ensures Enumerates(stale, old(a.paused) * ready)
    ensures DueList(due, Reconciled(old(a.View()), ready))
    ensures sent == ResumeEdges(stale) + due
  {
    hide Enumerates, DueList, Reconciled, Record, Aged, ResumeEdges;
    sent, stale := EndStale(a, ready);
    var owed := a.Due();
    due := owed;
    sent := sent + owed;
  }

  method EndStale(a: Advertiser, ready: set<u32>) returns (sent: seq<Edge>, ghost stale: seq<u32>)
    requires a.View().paused !! a.View().resuming.Keys
    modifies a
    ensures a.View() == Reconciled(old(a.View()), ready)
    ensures Enumerates(stale, old(a.paused) * ready)
    ensures sent == ResumeEdges(stale)
  {
    hide Enumerates, Reconciled, Record, ResumeEdges;
    ghost var t := a.View();
    sent, stale := [], [];
    var todo := a.paused * ready;
    ghost var done: set<u32> := {};
    NoneReconciled(t);
    while todo != {}
      invariant t == old(a.View())
      invariant done !! todo && done + todo == t.paused * ready
      invariant Enumerates(stale, done)
      invariant sent == ResumeEdges(stale)
      invariant a.View() == Reconciled(t, done)
    {
      var id: u32 :| id in todo;
      ReconcileOne(t, done, id);
      EnumerateOne(stale, done, id);
      var go := a.RecordEdge(Edge(id, Resume));
      if go { sent := sent + [Edge(id, Resume)]; }
      stale, todo, done := stale + [id], todo - {id}, done + {id};
    }
    assert done == t.paused * ready;
    ReconcileHeld(t, ready);
  }

  lemma NoneReconciled(t: Table)
    ensures Reconciled(t, {}) == t && Enumerates([], {}) && ResumeEdges([]) == []
  {
  }

  lemma ReconcileHeld(t: Table, ready: set<u32>)
    ensures Reconciled(t, t.paused * ready) == Reconciled(t, ready)
  {
  }

  // ------------------------------------------------- how often a Resume is said

  datatype TableEvent = Reported(edge: Edge) | TickOver(ready: set<u32>) | Closed(id: u32)

  function After(t: Table, e: TableEvent): Table {
    match e
    case Reported(edge) => Record(t, edge).0
    case TickOver(ready) => Aged(Reconciled(t, ready))
    case Closed(id) => Forgotten(t, id)
  }

  /** The frames stating `action` for `id` that one event sends. */
  function FramesOf(t: Table, e: TableEvent, id: u32, action: Action): nat {
    match e
    case Reported(edge) => if edge == Edge(id, action) && Record(t, edge).1 then 1 else 0
    case TickOver(ready) =>
      var held := Reconciled(t, ready);
      if action == Pause then if id in held.paused then 1 else 0
      else (if id in t.paused && id in ready then 1 else 0) + (if id in held.resuming then 1 else 0)
    case Closed(_) => 0
  }

  function Frames(t: Table, events: seq<TableEvent>, id: u32, action: Action): nat
    decreases |events|
  {
    if events == [] then 0 else FramesOf(t, events[0], id, action) + Frames(After(t, events[0]), events[1..], id, action)
  }

  function AfterAll(t: Table, events: seq<TableEvent>): Table
    decreases |events|
  {
    if events == [] then t else AfterAll(After(t, events[0]), events[1..])
  }

  function Ticks(events: seq<TableEvent>): nat {
    if events == [] then 0 else (if events[0].TickOver? then 1 else 0) + Ticks(events[1..])
  }

  /** No edge and no close for `id`: other channels may do what they like. */
  ghost predicate Undisturbed(events: seq<TableEvent>, id: u32) {
    forall k :: 0 <= k < |events| ==>
      && (events[k].Reported? ==> events[k].edge.id != id)
      && (events[k].Closed? ==> events[k].id != id)
  }

  function Budget(t: Table, id: u32): nat { if id in t.resuming then t.resuming[id] else 0 }

  function Min(a: nat, b: nat): nat { if a < b then a else b }

  predicate Sane(t: Table) {
    forall id :: id in t.resuming ==> id !in t.paused && 1 <= t.resuming[id] <= RESUME_RETRANSMITS
  }

  lemma OneEvent(t: Table, e: TableEvent, id: u32)
    requires Sane(t) && Undisturbed([e], id)
    ensures Sane(After(t, e))
    ensures id !in t.paused ==>
              && id !in After(t, e).paused
              && FramesOf(t, e, id, Pause) == 0
              && FramesOf(t, e, id, Resume) == (if e.TickOver? then Min(1, Budget(t, id)) else 0)
              && Budget(After(t, e), id) == (if e.TickOver? && Budget(t, id) > 0 then Budget(t, id) - 1 else Budget(t, id))
  {
    assert [e][0] == e;
  }

  /** However other channels behave, an open channel's Resume is said on every
      tick until its budget is spent, and never again after that. */
  lemma {:induction false} SpendsBudget(t: Table, events: seq<TableEvent>, id: u32)
    requires Sane(t) && id !in t.paused && Undisturbed(events, id)
    ensures Frames(t, events, id, Resume) == Min(Budget(t, id), Ticks(events)) && Frames(t, events, id, Pause) == 0
    ensures Budget(AfterAll(t, events), id) == Budget(t, id) - Min(Budget(t, id), Ticks(events))
    decreases |events|
  {
    if events != [] {
      assert [events[0]][0] == events[0] && Undisturbed([events[0]], id);
      OneEvent(t, events[0], id);
      SpendsBudget(After(t, events[0]), events[1..], id);
    }
  }

  /** THE retransmission law: the edge that ends a pause is sent once and then
      repeated on exactly the next eight ticks. */
  lemma ResumeRepeats(t: Table, events: seq<TableEvent>, id: u32)
    requires Sane(t) && id in t.paused && Undisturbed(events, id)
    ensures Frames(t, [Reported(Edge(id, Resume))] + events, id, Resume) == 1 + Min(8, Ticks(events))
  {
    var first := Reported(Edge(id, Resume));
    var all := [first] + events;
    assert all[0] == first && all[1..] == events;
    SpendsBudget(After(t, first), events, id);
  }

  /** A held Pause is stated again on every tick for as long as it is held. */
  lemma {:induction false} PauseRepeats(t: Table, events: seq<TableEvent>, id: u32)
    requires Sane(t) && id in t.paused && Undisturbed(events, id)
    requires forall k :: 0 <= k < |events| && events[k].TickOver? ==> id !in events[k].ready
    ensures Frames(t, events, id, Pause) == Ticks(events) && Frames(t, events, id, Resume) == 0
    ensures id in AfterAll(t, events).paused
    decreases |events|
  {
    if events != [] {
      assert [events[0]][0] == events[0] && Undisturbed([events[0]], id);
      OneEvent(t, events[0], id);
      PauseRepeats(After(t, events[0]), events[1..], id);
    }
  }

  /** A Resume for a channel that is not held sends nothing, and cancels whatever
      was left to repeat: from then on nothing at all is said about the channel. */
  lemma RedundantResumeCancels(t: Table, events: seq<TableEvent>, id: u32)
    requires Sane(t) && id !in t.paused && Undisturbed(events, id)
    ensures Frames(t, [Reported(Edge(id, Resume))] + events, id, Resume) == 0
    ensures Frames(t, [Reported(Edge(id, Resume))] + events, id, Pause) == 0
  {
    var first := Reported(Edge(id, Resume));
    var all := [first] + events;
    assert all[0] == first && all[1..] == events;
    SpendsBudget(After(t, first), events, id);
  }

  /** A channel about which nothing is kept stays silent until its next edge, whatever is
      closed in between. */
  lemma {:induction false} NothingKept(t: Table, events: seq<TableEvent>, id: u32, action: Action)
    requires id !in t.paused && id !in t.resuming
    requires forall k :: 0 <= k < |events| && events[k].Reported? ==> events[k].edge.id != id
    ensures Frames(t, events, id, action) == 0 && id !in AfterAll(t, events).paused
    decreases |events|
  {
    if events != [] { NothingKept(After(t, events[0]), events[1..], id, action); }
  }

  /** THE closing law: once a channel is closed nothing at all is said about it until its
      next edge, however much of a Pause or of its repeated Resume was left. */
  lemma CloseSilences(t: Table, events: seq<TableEvent>, id: u32, action: Action)
    requires forall k :: 0 <= k < |events| && events[k].Reported? ==> events[k].edge.id != id
    ensures Frames(t, [Closed(id)] + events, id, action) == 0
  {
    var all := [Closed(id)] + events;
    assert all[0] == Closed(id) && all[1..] == events;
    NothingKept(After(t, Closed(id)), events, id, action);
  }
}
