/** The receiver's congestion gauge (crates/rx11-core/src/flow.rs, `FlowMeter`):
    first as interleaved atomic sub-steps, then with whole calls. */
module FlowMeters {

  datatype Edge = Pause | Resume

  datatype Marks = Marks(high: nat, low: nat)

  /** The construction clamps the watermarks into a sane band. */
  function Clamp(high: nat, low: nat): (m: Marks)
    ensures m.low <= m.high && m.high >= 1
  {
    Marks(if high == 0 then 1 else high, if low < high then low else high)
  }

  /** Sane watermarks are kept as they are, and only what is not sane is moved. */
  lemma ClampExactly(high: nat, low: nat)
    ensures Clamp(high, low).high == (if high == 0 then 1 else high)
    ensures low <= high ==> Clamp(high, low).low == low
    ensures low > high ==> Clamp(high, low).low == high
  {
  }

  function MonusNat(a: nat, b: nat): nat { if a < b then 0 else a - b }

  // --------------------------------------------------- interleaved sub-steps

  /** Where one task stands inside `charge` or `discharge`. */
  datatype Task = Idle | Added(after: nat) | Subtracted(after: nat) | SawLatch

  /** `charged` and `discharged` count what the counter operations were asked for;
      `lost` what saturating discharges could not take off. `edges` lists the
      edges reported since the last reset. */
  datatype Fine = Fine(
    pending: nat, latched: bool, tasks: seq<Task>, edges: seq<Edge>,
    charged: nat, discharged: nat, lost: nat)

  datatype FineStep =
    | Add(i: nat, n: nat)          // fetch_add
    | TryLatch(i: nat)             // compare_exchange false -> true
    | Subtract(i: nat, n: nat)     // saturating fetch_update
    | LoadLatch(i: nat)            // load of the latch
    | TryUnlatch(i: nat)           // compare_exchange true -> false
    | Reset

  predicate FineEnabled(f: Fine, s: FineStep) {
    match s
    case Add(i, _) => i < |f.tasks| && f.tasks[i] == Idle
    case TryLatch(i) => i < |f.tasks| && f.tasks[i].Added?
    case Subtract(i, _) => i < |f.tasks| && f.tasks[i] == Idle
    case LoadLatch(i) => i < |f.tasks| && f.tasks[i].Subtracted?
    case TryUnlatch(i) => i < |f.tasks| && f.tasks[i] == SawLatch
    case Reset => true
  }

  function FineTake(m: Marks, f: Fine, s: FineStep): Fine
    requires FineEnabled(f, s)
  {
    match s
    case Add(i, n) =>
      f.(pending := f.pending + n, charged := f.charged + n, tasks := f.tasks[i := Added(f.pending + n)])
    case TryLatch(i) =>
      var g := f.(tasks := f.tasks[i := Idle]);
      if f.tasks[i].after >= m.high && !f.latched then g.(latched := true, edges := f.edges + [Pause]) else g
    case Subtract(i, n) =>
      var after := MonusNat(f.pending, n);
      f.(pending := after, discharged := f.discharged + n, lost := f.lost + MonusNat(n, f.pending),
         tasks := f.tasks[i := Subtracted(after)])
    case LoadLatch(i) =>
      f.(tasks := f.tasks[i := if f.latched && f.tasks[i].after <= m.low then SawLatch else Idle])
    case TryUnlatch(i) =>
      var g := f.(tasks := f.tasks[i := Idle]);
      if f.latched then g.(latched := false, edges := f.edges + [Resume]) else g
    case Reset => f.(latched := false, edges := [])
  }

  /** Runs every step that is enabled and skips the others. */
  function FineRun(m: Marks, n: nat, steps: seq<FineStep>): Fine {
    if steps == [] then Fine(0, false, seq(n, _ => Idle), [], 0, 0, 0)
    else
      var f, s := FineRun(m, n, steps[..|steps| - 1]), steps[|steps| - 1];
      if FineEnabled(f, s) then FineTake(m, f, s) else f
  }

  ghost predicate FineInv(f: Fine) {
    && (forall k :: 0 <= k < |f.edges| ==> f.edges[k] == if k % 2 == 0 then Pause else Resume)
    && (f.latched <==> |f.edges| % 2 == 1)
    && f.pending + f.discharged == f.charged + f.lost
  }

  lemma FineStepKeeps(m: Marks, f: Fine, s: FineStep)
    requires FineInv(f) && FineEnabled(f, s)
    ensures FineInv(FineTake(m, f, s))
  {
  }

  /** THE edge law. Under every interleaving of any number of charges and
      discharges the reported edges strictly alternate Pause, Resume between
      resets, and the latch is up exactly after a Pause. The gauge is what was
      charged less what was discharged, plus what saturation lost: never less. */
  lemma {:induction false} EdgesAlternate(m: Marks, n: nat, steps: seq<FineStep>)
    ensures var f := FineRun(m, n, steps);
            && (forall k :: 0 <= k < |f.edges| ==> f.edges[k] == if k % 2 == 0 then Pause else Resume)
            && (f.latched <==> |f.edges| % 2 == 1)
            && f.pending + f.discharged == f.charged + f.lost
            && f.pending >= f.charged - f.discharged
  {
    hide FineTake, FineEnabled;
    if steps != [] {
      var f, s := FineRun(m, n, steps[..|steps| - 1]), steps[|steps| - 1];
      EdgesAlternate(m, n, steps[..|steps| - 1]);
      if FineEnabled(f, s) { FineStepKeeps(m, f, s); }
    }
  }

  // ------------------------------------------------------------- whole calls

  /** `sinceEdge`: bytes moved against the latch since its last edge, that is
      discharged while latched and charged while not. */
  datatype Gauge = Gauge(pending: nat, latched: bool, sinceEdge: nat, everLatched: bool)

  datatype Call = Charge(n: nat) | Discharge(n: nat)

  function Apply(m: Marks, g: Gauge, c: Call): (Gauge, bool) {
    match c
    case Charge(n) =>
      var after := g.pending + n;
      if after >= m.high && !g.latched then (Gauge(after, true, 0, true), true)
      else (g.(pending := after, sinceEdge := if g.latched then g.sinceEdge else g.sinceEdge + n), false)
    case Discharge(n) =>
      var after := MonusNat(g.pending, n);
      if g.latched && after <= m.low then (Gauge(after, false, 0, true), true)
      else (g.(pending := after, sinceEdge := if g.latched then g.sinceEdge + n else g.sinceEdge), false)
  }

  class FlowMeter {
    var pending: nat
    var latched: bool
    const marks: Marks
    ghost var sinceEdge: nat
    ghost var everLatched: bool

    constructor (high: nat, low: nat)
      ensures marks == Clamp(high, low) && View() == Gauge(0, false, 0, false)
    {
      marks := Clamp(high, low);
      pending, latched, sinceEdge, everLatched := 0, false, 0, false;
    }

    ghost function View(): Gauge
      reads this
    {
      Gauge(pending, latched, sinceEdge, everLatched)
    }

    method ChargeBytes(n: nat) returns (edge: bool)
      modifies this
      ensures (View(), edge) == Apply(marks, old(View()), Charge(n))
    {
      pending := pending + n;
      edge := pending >= marks.high && !latched;
      sinceEdge := if edge then 0 else if latched then sinceEdge else sinceEdge + n;
      if edge { latched, everLatched := true, true; }
    }

    method DischargeBytes(n: nat) returns (edge: bool)
      modifies this
      ensures (View(), edge) == Apply(marks, old(View()), Discharge(n))
    {
      pending := MonusNat(pending, n);
      edge := latched && pending <= marks.low;
      sinceEdge := if edge then 0 else if latched then sinceEdge + n else sinceEdge;
      if edge { latched, everLatched := false, true; }
    }

    /** A session that re-attaches drops the latch and keeps the backlog. */
    method Reset()
      modifies this`latched
      ensures !latched && pending == old(pending)
    {
      latched := false;
    }
  }

  function RunCalls(m: Marks, calls: seq<Call>): Gauge {
    if calls == [] then Gauge(0, false, 0, false)
    else Apply(m, RunCalls(m, calls[..|calls| - 1]), calls[|calls| - 1]).0
  }

  ghost predicate Hysteresis(m: Marks, g: Gauge) {
    (g.latched ==> g.pending > m.low) && (!g.latched ==> g.pending < m.high)
  }

  lemma {:induction false} GaugeBand(m: Marks, calls: seq<Call>)
    requires m.low <= m.high && m.high >= 1
    ensures var g := RunCalls(m, calls);
            && (m.low < m.high ==> Hysteresis(m, g))
            && (g.latched ==> g.pending + g.sinceEdge >= m.high)
            && (!g.latched && g.everLatched ==> g.pending <= m.low + g.sinceEdge)
            && (g.latched ==> g.everLatched)
  {
    if calls != [] {
      GaugeBand(m, calls[..|calls| - 1]);
    }
  }

  /** With whole calls the latch separates the two sides of the band over every
      run exactly when the band is not empty: equal watermarks break it. */
  lemma HysteresisExact(m: Marks)
    requires m.low <= m.high && m.high >= 1
    ensures (forall calls: seq<Call> :: Hysteresis(m, RunCalls(m, calls))) <==> m.low < m.high
  {
    if m.low < m.high {
      forall calls: seq<Call> ensures Hysteresis(m, RunCalls(m, calls)) {
        GaugeBand(m, calls);
      }
    } else {
      var calls := [Charge(m.high)];
      assert calls[..0] == [] && RunCalls(m, []) == Gauge(0, false, 0, false);
      assert RunCalls(m, calls) == Gauge(m.high, true, 0, true);
      assert !Hysteresis(m, RunCalls(m, calls));
    }
  }

  /** THE spacing law: between two opposite edges at least high - low bytes were
      moved, discharged before a Resume and charged before the next Pause. */
  lemma EdgeSpacing(m: Marks, calls: seq<Call>, c: Call)
    requires m.low <= m.high && m.high >= 1
    ensures var g := RunCalls(m, calls);
            var (g', edge) := Apply(m, g, c);
            && (edge <==> g'.latched != g.latched)
            && (edge && g.everLatched ==> g.sinceEdge + c.n >= m.high - m.low)
  {
    GaugeBand(m, calls);
  }

  // ------------------------------------------------------ when the latch is up

  /** What was charged less what was discharged, never below nothing. */
  function Backlog(calls: seq<Call>): nat {
    if calls == [] then 0
    else
      var before, last := Backlog(calls[..|calls| - 1]), calls[|calls| - 1];
      if last.Charge? then before + last.n else MonusNat(before, last.n)
  }

  ghost predicate Raised(m: Marks, calls: seq<Call>, k: nat)
    requires k < |calls|
  {
    calls[k].Charge? && Backlog(calls[..k + 1]) >= m.high
  }

  ghost predicate Lowered(m: Marks, calls: seq<Call>, k: nat)
    requires k < |calls|
  {
    calls[k].Discharge? && Backlog(calls[..k + 1]) <= m.low
  }

  /** Call `k` brought the backlog up to the high mark, and no discharge after it brought it
      down to the low one. */
  ghost predicate StillHigh(m: Marks, calls: seq<Call>, k: nat) {
    k < |calls| && Raised(m, calls, k) && forall j :: k < j < |calls| ==> !Lowered(m, calls, j)
  }

  lemma StillHighLonger(m: Marks, calls: seq<Call>, c: Call, k: nat)
    requires k < |calls|
    ensures StillHigh(m, calls + [c], k) <==> StillHigh(m, calls, k) && !Lowered(m, calls + [c], |calls|)
  {
    hide Raised, Lowered;
    var all := calls + [c];
    forall j: nat | j < |calls|
      ensures (Raised(m, all, j) <==> Raised(m, calls, j)) && (Lowered(m, all, j) <==> Lowered(m, calls, j))
    {
      SameCall(m, calls, c, j);
    }
  }

  lemma SameCall(m: Marks, calls: seq<Call>, c: Call, j: nat)
    requires j < |calls|
    ensures Raised(m, calls + [c], j) <==> Raised(m, calls, j)
    ensures Lowered(m, calls + [c], j) <==> Lowered(m, calls, j)
  {
    hide Backlog;
    assert (calls + [c])[..j + 1] == calls[..j + 1];
  }

  lemma LastCall(m: Marks, calls: seq<Call>, c: Call)
    ensures var all := calls + [c];
            && (Raised(m, all, |calls|) <==> c.Charge? && Backlog(all) >= m.high)
            && (Lowered(m, all, |calls|) <==> c.Discharge? && Backlog(all) <= m.low)
            && (StillHigh(m, all, |calls|) <==> Raised(m, all, |calls|))
            && Backlog(all) == if c.Charge? then Backlog(calls) + c.n else MonusNat(Backlog(calls), c.n)
  {
    var all := calls + [c];
    assert all[..|calls|] == calls && all[..|calls| + 1] == all;
  }

  /** THE latching law. Over every run of calls the meter is latched exactly when some
      charge has brought the backlog up to the high mark and no discharge since has brought
      it down to the low one. */
  lemma {:induction false} LatchedExactly(m: Marks, calls: seq<Call>)
    ensures RunCalls(m, calls).pending == Backlog(calls)
    ensures RunCalls(m, calls).latched <==> exists k :: StillHigh(m, calls, k)
  {
    hide Backlog, StillHigh, Raised, Lowered;
    if calls == [] {
      NeverHigh(m);
    } else {
      var front, c := calls[..|calls| - 1], calls[|calls| - 1];
      assert calls == front + [c];
      LatchedExactly(m, front);
      LastCall(m, front, c);
      forall k: nat | k < |front|
        ensures StillHigh(m, calls, k) <==> StillHigh(m, front, k) && !Lowered(m, calls, |front|)
      {
        StillHighLonger(m, front, c, k);
      }
      forall k: nat ensures StillHigh(m, front, k) ==> k < |front| { HighInside(m, front, k); }
      forall k: nat ensures StillHigh(m, calls, k) ==> k < |calls| { HighInside(m, calls, k); }
    }
  }

  lemma HighInside(m: Marks, calls: seq<Call>, k: nat)
    ensures StillHigh(m, calls, k) ==> k < |calls|
  {
  }

  lemma NeverHigh(m: Marks)
    ensures Backlog([]) == 0 && forall k :: !StillHigh(m, [], k)
  {
  }

  /** A task whose sub-steps nobody comes between makes just the whole call: the same
      backlog and latch, and its edge when there is one. */
  lemma UninterruptedCharge(m: Marks, f: Fine, i: nat, n: nat, g: Gauge)
    requires i < |f.tasks| && f.tasks[i] == Idle && g.pending == f.pending && g.latched == f.latched
    ensures var added := FineTake(m, f, Add(i, n));
            FineEnabled(added, TryLatch(i)) &&
            var (done, (g', edge)) := (FineTake(m, added, TryLatch(i)), Apply(m, g, Charge(n)));
            && done.pending == g'.pending && done.latched == g'.latched && done.tasks == f.tasks
            && done.edges == if edge then f.edges + [Pause] else f.edges
  {
  }

  lemma UninterruptedDischarge(m: Marks, f: Fine, i: nat, n: nat, g: Gauge)
    requires i < |f.tasks| && f.tasks[i] == Idle && g.pending == f.pending && g.latched == f.latched
    ensures var taken := FineTake(m, f, Subtract(i, n));
            FineEnabled(taken, LoadLatch(i)) &&
            var (loaded, (g', edge)) := (FineTake(m, taken, LoadLatch(i)), Apply(m, g, Discharge(n)));
            var done := if loaded.tasks[i] == SawLatch then FineTake(m, loaded, TryUnlatch(i)) else loaded;
            && done.pending == g'.pending && done.latched == g'.latched && done.tasks == f.tasks
            && done.edges == if edge then f.edges + [Resume] else f.edges
  {
  }
}
