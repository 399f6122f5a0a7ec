/** The byte-budgeted outbound queue as a concurrent step system
    (crates/rx11-core/src/queue.rs). A sender checks the counter, publishes its
    frame and only then charges it; the receiver pops and only then releases. */
module Queues {
  import opened Bytes

  /** What one sender clone is in the middle of. */
  datatype Phase = Idle | Checked(size: nat) | Published(size: nat)

  datatype Config = Config(budget: nat, capacity: nat, maxFrame: nat)

  /** `leaked` is a history variable: what saturating releases failed to take off
      the counter. `popped` is the frame taken but not released yet. */
  datatype Queue = Queue(inflight: nat, queued: seq<nat>, senders: seq<Phase>, popped: Option<nat>, leaked: nat)

  datatype Step = Check(i: nat, size: nat) | Publish(i: nat) | Charge(i: nat) | Pop | Release

  predicate Room(c: Config, inflight: nat, size: nat) {
    inflight == 0 || inflight + size <= c.budget
  }

  predicate Enabled(c: Config, q: Queue, s: Step) {
    match s
    case Check(i, size) => i < |q.senders| && q.senders[i] == Idle && 0 < size <= c.maxFrame && Room(c, q.inflight, size)
    case Publish(i) => i < |q.senders| && q.senders[i].Checked?
    case Charge(i) => i < |q.senders| && q.senders[i].Published?
    case Pop => q.queued != [] && q.popped == None
    case Release => q.popped.Some?
  }

  function Take(q: Queue, c: Config, s: Step): Queue
    requires Enabled(c, q, s)
  {
    match s
    case Check(i, size) => q.(senders := q.senders[i := Checked(size)])
    case Publish(i) =>
      var size := q.senders[i].size;
      if |q.queued| < c.capacity
      then q.(queued := q.queued + [size], senders := q.senders[i := Published(size)])
      else q.(senders := q.senders[i := Idle])
    case Charge(i) => q.(inflight := q.inflight + q.senders[i].size, senders := q.senders[i := Idle])
    case Pop => q.(queued := q.queued[1..], popped := Some(q.queued[0]))
    case Release =>
      var size := q.popped.value;
      if q.inflight < size then q.(inflight := 0, popped := None, leaked := q.leaked + size - q.inflight)
      else q.(inflight := q.inflight - size, popped := None)
  }

  function Start(n: nat): Queue { Queue(0, [], seq(n, _ => Idle), None, 0) }

  /** Some run of the steps, in order, leads from the empty queue to `q`. */
  ghost predicate Reaches(c: Config, n: nat, steps: seq<Step>, q: Queue)
    decreases |steps|
  {
    if steps == [] then q == Start(n)
    else
      var last := steps[|steps| - 1];
      exists p: Queue :: Reaches(c, n, steps[..|steps| - 1], p) && Enabled(c, p, last) && Take(p, c, last) == q
  }

  // ------------------------------------------------------------------- sums

  function Sum(ns: seq<nat>): nat {
    if ns == [] then 0 else Sum(ns[..|ns| - 1]) + ns[|ns| - 1]
  }

  lemma SumSnoc(ns: seq<nat>, x: nat)
    ensures Sum(ns + [x]) == Sum(ns) + x
  {
    assert (ns + [x])[..|ns|] == ns;
  }

  lemma {:induction false} SumFirst(ns: seq<nat>)
    requires ns != []
    ensures Sum(ns) == ns[0] + Sum(ns[1..])
    decreases |ns|
  {
    var front, last := ns[..|ns| - 1], ns[|ns| - 1];
    if front != [] {
      SumFirst(front);
      assert ns[1..] == front[1..] + [last];
      SumSnoc(front[1..], last);
    } else {
      assert ns[1..] == [];
    }
  }

  lemma {:induction false} SumUpdate(ns: seq<nat>, i: nat, x: nat)
    requires i < |ns|
    ensures Sum(ns[i := x]) + ns[i] == Sum(ns) + x
    decreases |ns|
  {
    var k := |ns| - 1;
    if i == k {
      assert ns[i := x][..k] == ns[..k];
    } else {
      SumUpdate(ns[..k], i, x);
      assert ns[i := x][..k] == ns[..k][i := x];
    }
  }

  lemma {:induction false} SumBound(ns: seq<nat>, m: nat)
    requires forall k :: 0 <= k < |ns| ==> ns[k] <= m
    ensures Sum(ns) <= |ns| * m
  {
    if ns != [] {
      SumBound(ns[..|ns| - 1], m);
    }
  }

  /** With one entry zero, the others alone bound the sum. */
  lemma SumBoundBut(ns: seq<nat>, m: nat, i: nat)
    requires i < |ns| && ns[i] == 0 && forall k :: 0 <= k < |ns| ==> ns[k] <= m
    ensures Sum(ns) <= (|ns| - 1) * m
  {
    var full := ns[i := m];
    SumUpdate(ns, i, m);
    SumBound(full, m);
    hide Sum;
    OneLess(|ns|, m);
  }

  lemma OneLess(n: int, m: int)
    ensures (n - 1) * m == n * m - m
  {
  }

  function Pending(p: Phase): nat { if p.Checked? then p.size else 0 }
  function Uncharged(p: Phase): nat { if p.Published? then p.size else 0 }

  function Pendings(ps: seq<Phase>): seq<nat> { seq(|ps|, k requires 0 <= k < |ps| => Pending(ps[k])) }
  function Unchargeds(ps: seq<Phase>): seq<nat> { seq(|ps|, k requires 0 <= k < |ps| => Uncharged(ps[k])) }
  function Loads(ps: seq<Phase>): seq<nat> { seq(|ps|, k requires 0 <= k < |ps| => Pending(ps[k]) + Uncharged(ps[k])) }

  lemma {:induction false} LoadsSplit(ps: seq<Phase>)
    ensures Sum(Loads(ps)) == Sum(Pendings(ps)) + Sum(Unchargeds(ps))
  {
    if ps != [] {
      var k := |ps| - 1;
      LoadsSplit(ps[..k]);
      assert Loads(ps)[..k] == Loads(ps[..k]) && Pendings(ps)[..k] == Pendings(ps[..k]) && Unchargeds(ps)[..k] == Unchargeds(ps[..k]);
    }
  }

  lemma PhaseUpdate(ps: seq<Phase>, i: nat, p: Phase)
    requires i < |ps|
    ensures Sum(Pendings(ps[i := p])) + Pending(ps[i]) == Sum(Pendings(ps)) + Pending(p)
    ensures Sum(Unchargeds(ps[i := p])) + Uncharged(ps[i]) == Sum(Unchargeds(ps)) + Uncharged(p)
  {
    SumUpdate(Pendings(ps), i, Pending(p));
    SumUpdate(Unchargeds(ps), i, Uncharged(p));
    assert Pendings(ps[i := p]) == Pendings(ps)[i := Pending(p)];
    assert Unchargeds(ps[i := p]) == Unchargeds(ps)[i := Uncharged(p)];
  }

  // ------------------------------------------------------------- invariants

  function Held(q: Queue): nat { if q.popped.Some? then q.popped.value else 0 }

  function Max(a: nat, b: nat): nat { if a > b then a else b }

  /** Bytes the queue may hold with `n` senders racing. */
  function Ceiling(c: Config, n: nat): nat
    requires n > 0
  {
    Max(c.budget, c.maxFrame) + (n - 1) * c.maxFrame
  }

  /** The books: the counter and the published-but-uncharged bytes are the queued
      bytes, the popped one and the leak. The queue together with everything
      already let through the check stays under the ceiling. */
  ghost predicate Inv(c: Config, n: nat, q: Queue) {
    && |q.senders| == n > 0
    && (forall k :: 0 <= k < n ==> Pending(q.senders[k]) + Uncharged(q.senders[k]) <= c.maxFrame)
    && q.inflight + Sum(Unchargeds(q.senders)) == Sum(q.queued) + Held(q) + q.leaked
    && Sum(q.queued) + Sum(Pendings(q.senders)) <= Ceiling(c, n)
  }

  lemma {:induction false} IdleSums(n: nat)
    ensures Sum(Pendings(seq(n, _ => Idle))) == 0 && Sum(Unchargeds(seq(n, _ => Idle))) == 0
  {
    if n > 0 {
      var ps := seq(n, _ => Idle);
      IdleSums(n - 1);
      assert Pendings(ps)[..n - 1] == Pendings(seq(n - 1, _ => Idle));
      assert Unchargeds(ps)[..n - 1] == Unchargeds(seq(n - 1, _ => Idle));
    }
  }

  lemma CheckKeepsCeiling(c: Config, n: nat, q: Queue, i: nat, size: nat)
    requires Inv(c, n, q) && Enabled(c, q, Check(i, size))
    ensures Sum(q.queued) + Sum(Pendings(q.senders)) + size <= Ceiling(c, n)
  {
    hide Sum, Pendings, Unchargeds;
    LoadsSplit(q.senders);
    SumBoundBut(Loads(q.senders), c.maxFrame, i);
  }

  lemma StepKeepsInv(c: Config, n: nat, q: Queue, s: Step)
    requires Inv(c, n, q) && Enabled(c, q, s)
    ensures Inv(c, n, Take(q, c, s))
  {
    hide Sum, Pendings, Unchargeds, Ceiling;
    match s {
      case Check(i, size) =>
        CheckKeepsCeiling(c, n, q, i, size);
        PhaseUpdate(q.senders, i, Checked(size));
      case Publish(i) =>
        var size := q.senders[i].size;
        SumSnoc(q.queued, size);
        PhaseUpdate(q.senders, i, Published(size));
        PhaseUpdate(q.senders, i, Idle);
      case Charge(i) => PhaseUpdate(q.senders, i, Idle);
      case Pop => SumFirst(q.queued);
      case Release =>
    }
  }

  lemma {:induction false} ReachableInv(c: Config, n: nat, steps: seq<Step>, q: Queue)
    requires n > 0 && Reaches(c, n, steps, q)
    ensures Inv(c, n, q)
    decreases |steps|
  {
    if steps == [] {
      IdleSums(n);
    } else {
      var last := steps[|steps| - 1];
      var p: Queue :| Reaches(c, n, steps[..|steps| - 1], p) && Enabled(c, p, last) && Take(p, c, last) == q;
      ReachableInv(c, n, steps[..|steps| - 1], p);
      StepKeepsInv(c, n, p, last);
    }
  }

  /** THE byte bound. However the checks, publications and charges of n sender
      clones interleave with the receiver, the queue never holds more than
      max(budget, M) + (n - 1) * M bytes, M being the largest frame. */
  lemma QueueBounded(c: Config, n: nat, steps: seq<Step>, q: Queue)
    requires n > 0 && Reaches(c, n, steps, q)
    ensures Sum(q.queued) <= Max(c.budget, c.maxFrame) + (n - 1) * c.maxFrame
  {
    hide Reaches, Sum, Pendings;
    ReachableInv(c, n, steps, q);
  }

  /** The counter is exact, up to frames in transit, exactly while no release has
      saturated: the leak is what it is off by, and it only ever grows, at a
      release that finds less than its frame's size on the counter. */
  lemma CounterExact(c: Config, n: nat, steps: seq<Step>, q: Queue)
    requires n > 0 && Reaches(c, n, steps, q)
    ensures q.inflight + Sum(Unchargeds(q.senders)) >= Sum(q.queued) + Held(q)
    ensures q.inflight + Sum(Unchargeds(q.senders)) == Sum(q.queued) + Held(q) <==> q.leaked == 0
    ensures forall s :: Enabled(c, q, s) ==>
              && Take(q, c, s).leaked >= q.leaked
              && (Take(q, c, s).leaked > q.leaked <==> s == Release && q.inflight < q.popped.value)
  {
    hide Reaches, Sum, Unchargeds;
    ReachableInv(c, n, steps, q);
  }

  /** A frame popped and released between its publication and its charge leaves
      its whole size on the counter of an empty, idle queue. */
  lemma LeakReachable(c: Config, size: nat)
    requires 0 < size <= c.maxFrame && c.capacity > 0
    ensures Reaches(c, 1, [Check(0, size), Publish(0), Pop, Release, Charge(0)], Queue(size, [], [Idle], None, size))
  {
    hide Reaches;
    var q0 := Start(1);
    assert q0.senders == [Idle];
    var s1, s2, s3 := [Check(0, size)], [Check(0, size), Publish(0)], [Check(0, size), Publish(0), Pop];
    var s4 := [Check(0, size), Publish(0), Pop, Release];
    var s5 := [Check(0, size), Publish(0), Pop, Release, Charge(0)];
    var q1 := Queue(0, [], [Checked(size)], None, 0);
    var q2 := Queue(0, [size], [Published(size)], None, 0);
    var q3 := Queue(0, [], [Published(size)], Some(size), 0);
    var q4 := Queue(0, [], [Published(size)], None, size);
    ReachesStep(c, 1, [], q0, Check(0, size));
    assert [] + [Check(0, size)] == s1 && Take(q0, c, Check(0, size)) == q1;
    ReachesStep(c, 1, s1, q1, Publish(0));
    assert s1 + [Publish(0)] == s2 && Take(q1, c, Publish(0)) == q2;
    ReachesStep(c, 1, s2, q2, Pop);
    assert s2 + [Pop] == s3 && Take(q2, c, Pop) == q3;
    ReachesStep(c, 1, s3, q3, Release);
    assert s3 + [Release] == s4 && Take(q3, c, Release) == q4;
    ReachesStep(c, 1, s4, q4, Charge(0));
    assert s4 + [Charge(0)] == s5 && Take(q4, c, Charge(0)) == Queue(size, [], [Idle], None, size);
  }

  lemma ReachesStep(c: Config, n: nat, steps: seq<Step>, q: Queue, s: Step)
    requires Reaches(c, n, steps, q) && Enabled(c, q, s)
    ensures Reaches(c, n, steps + [s], Take(q, c, s))
  {
    var all := steps + [s];
    assert all[..|all| - 1] == steps && all[|all| - 1] == s;
    assert Reaches(c, n, all[..|all| - 1], q) && Take(q, c, all[|all| - 1]) == Take(q, c, s);
  }

  /** Nothing in transit: no frame queued, popped, checked or uncharged. */
  ghost predicate Quiet(q: Queue) {
    q.queued == [] && q.popped == None && forall k :: 0 <= k < |q.senders| ==> q.senders[k] == Idle
  }

  /** A quiet queue lets a frame in exactly when the leak is nothing or leaves room
      for it beside itself; no step but a check is possible in it. */
  lemma QuietProgress(c: Config, n: nat, steps: seq<Step>, q: Queue, i: nat, size: nat)
    requires n > 0 && Reaches(c, n, steps, q) && i < n && 0 < size <= c.maxFrame && Quiet(q)
    ensures Enabled(c, q, Check(i, size)) <==> q.leaked == 0 || q.leaked + size <= c.budget
    ensures forall s :: Enabled(c, q, s) ==> s.Check?
  {
    ReachableInv(c, n, steps, q);
    assert q.senders == seq(n, _ => Idle);
    IdleSums(n);
  }

  lemma {:induction false} ReachesOne(c: Config, n: nat, steps: seq<Step>, a: Queue, b: Queue)
    requires Reaches(c, n, steps, a) && Reaches(c, n, steps, b)
    ensures a == b
    decreases |steps|
  {
    hide Take, Enabled;
    if steps != [] {
      var last, front := steps[|steps| - 1], steps[..|steps| - 1];
      var x: Queue :| Reaches(c, n, front, x) && Enabled(c, x, last) && Take(x, c, last) == a;
      var y: Queue :| Reaches(c, n, front, y) && Enabled(c, y, last) && Take(y, c, last) == b;
      ReachesOne(c, n, front, x, y);
    }
  }

  /** The receiver, and one sender trying to get one frame in. */
  predicate Alone(s: Step, i: nat, size: nat) {
    match s
    case Check(k, m) => k == i && m == size
    case Publish(k) => k == i
    case Charge(k) => k == i
    case Pop => true
    case Release => true
  }

  lemma {:induction false} StaysQuiet(c: Config, n: nat, steps: seq<Step>, q: Queue, i: nat, size: nat, more: seq<Step>, q': Queue)
    requires n > 0 && Reaches(c, n, steps, q) && i < n && 0 < size <= c.maxFrame && Quiet(q)
    requires q.leaked != 0 && q.leaked + size > c.budget
    requires Reaches(c, n, steps + more, q') && forall s :: s in more ==> Alone(s, i, size)
    ensures q' == q
    decreases |more|
  {
    hide Take, Enabled, Reaches, Quiet;
    if more == [] {
      assert steps + more == steps;
      ReachesOne(c, n, steps, q, q');
    } else {
      var front, last := more[..|more| - 1], more[|more| - 1];
      assert last in more && (last.Check? ==> last == Check(i, size));
      assert steps + more == (steps + front) + [last];
      var p := ReachesLast(c, n, steps + front, last, q');
      StaysQuiet(c, n, steps, q, i, size, front, p);
      QuietProgress(c, n, steps, q, i, size);
      assert false;
    }
  }

  lemma ReachesLast(c: Config, n: nat, steps: seq<Step>, s: Step, q: Queue) returns (p: Queue)
    requires Reaches(c, n, steps + [s], q)
    ensures Reaches(c, n, steps, p) && Enabled(c, p, s) && Take(p, c, s) == q
  {
    hide Take, Enabled;
    assert (steps + [s])[..|steps|] == steps;
    p :| Reaches(c, n, steps, p) && Enabled(c, p, s) && Take(p, c, s) == q;
  }

  /** Left alone with the receiver, a sender waits for ever beside a leak exactly when
      its frame does not fit there: then nothing at all happens any more. */
  lemma WaitsForEver(c: Config, n: nat, steps: seq<Step>, q: Queue, i: nat, size: nat)
    requires n > 0 && Reaches(c, n, steps, q) && i < n && 0 < size <= c.maxFrame && Quiet(q)
    ensures q.leaked != 0 && q.leaked + size > c.budget <==>
            forall more: seq<Step>, q': Queue :: Reaches(c, n, steps + more, q') && (forall s :: s in more ==> Alone(s, i, size))
              ==> q' == q
  {
    hide Reaches, Quiet;
    if q.leaked != 0 && q.leaked + size > c.budget {
      forall more: seq<Step>, q': Queue | Reaches(c, n, steps + more, q') && (forall s :: s in more ==> Alone(s, i, size))
        ensures q' == q
      {
        StaysQuiet(c, n, steps, q, i, size, more, q');
      }
    } else {
      QuietProgress(c, n, steps, q, i, size);
      var s := Check(i, size);
      ReachesStep(c, n, steps, q, s);
      var more, q' := [s], Take(q, c, s);
      assert q'.senders[i] != q.senders[i];
      assert Reaches(c, n, steps + more, q') && (forall t :: t in more ==> Alone(t, i, size)) && q' != q;
    }
  }

  /** Another sender can end the wait: its frame, if it fits beside the leak and is at
      least as long, is released before it is charged and clears the counter. */
  lemma OtherSenderFrees(c: Config, q: Queue, i: nat, size: nat, j: nat, m: nat)
    requires Quiet(q) && i < |q.senders| && j < |q.senders| && i != j && c.capacity > 0
    requires 0 < size <= c.maxFrame && 0 < m <= c.maxFrame && q.inflight <= m && q.inflight + m <= c.budget
    ensures Enabled(c, q, Check(j, m))
    ensures var q1 := Take(q, c, Check(j, m));
            Enabled(c, q1, Publish(j)) &&
            var q2 := Take(q1, c, Publish(j));
            Enabled(c, q2, Pop) &&
            var q3 := Take(q2, c, Pop);
            Enabled(c, q3, Release) && Enabled(c, Take(q3, c, Release), Check(i, size))
  {
    var q1 := Take(q, c, Check(j, m));
    var q2 := Take(q1, c, Publish(j));
    assert q2.queued == [m];
    var q4 := Take(Take(q2, c, Pop), c, Release);
    assert q4.inflight == 0 && q4.senders[i] == Idle;
  }

  // ------------------------------------- when the other senders end the wait

  predicate NotOf(s: Step, i: nat) {
    match s
    case Check(k, _) => k != i
    case Publish(k) => k != i
    case Charge(k) => k != i
    case Pop => true
    case Release => true
  }

  /** Some run of the receiver and the other senders leads to where the frame goes in. */
  ghost predicate CanEnter(c: Config, n: nat, steps: seq<Step>, i: nat, size: nat) {
    exists more: seq<Step>, q: Queue ::
      Reaches(c, n, steps + more, q) && (forall s :: s in more ==> NotOf(s, i)) && Enabled(c, q, Check(i, size))
  }

  /** A frame of `m` octets through an idle queue, released and not yet charged. */
  function Slip(q: Queue, k: nat, m: nat): Queue
    requires k < |q.senders|
  {
    Queue(if q.inflight < m then 0 else q.inflight - m, [], q.senders[k := Published(m)], None,
          if q.inflight < m then q.leaked + m - q.inflight else q.leaked)
  }

  function SlipSteps(k: nat, m: nat): seq<Step> { [Check(k, m)] + [Publish(k)] + [Pop] + [Release] }

  lemma Slips(c: Config, n: nat, steps: seq<Step>, q: Queue, k: nat, m: nat)
    requires Reaches(c, n, steps, q) && k < |q.senders| && q.senders[k] == Idle && q.queued == [] && q.popped == None
    requires c.capacity > 0 && 0 < m <= c.maxFrame && Room(c, q.inflight, m)
    ensures Reaches(c, n, steps + SlipSteps(k, m), Slip(q, k, m))
  {
    hide Reaches;
    var q1 := q.(senders := q.senders[k := Checked(m)]);
    var q2 := q.(senders := q.senders[k := Published(m)], queued := [m]);
    var q3 := q2.(queued := [], popped := Some(m));
    ReachesStep(c, n, steps, q, Check(k, m));
    ReachesStep(c, n, steps + [Check(k, m)], q1, Publish(k));
    assert [] + [m] == [m] && q1.senders[k := Published(m)] == q2.senders;
    ReachesStep(c, n, steps + [Check(k, m)] + [Publish(k)], q2, Pop);
    assert [m][1..] == [];
    ReachesStep(c, n, steps + [Check(k, m)] + [Publish(k)] + [Pop], q3, Release);
    assert steps + SlipSteps(k, m) == steps + [Check(k, m)] + [Publish(k)] + [Pop] + [Release];
  }

  /** One frame held back uncharged by `a` has brought the counter down from the leak. */
  ghost predicate Held1(q: Queue, i: nat, a: nat, b: nat, leak: nat, m: nat) {
    && i < |q.senders| && a < |q.senders| && b < |q.senders| && i != a && i != b && a != b
    && q.queued == [] && q.popped == None && q.senders[a] == Published(m) && q.senders[b] == Idle && q.senders[i] == Idle
    && 0 < m < leak && q.inflight == leak - m
  }

  lemma Enters(c: Config, n: nat, steps: seq<Step>, more: seq<Step>, q: Queue, i: nat, size: nat)
    requires Reaches(c, n, steps + more, q) && (forall s :: s in more ==> NotOf(s, i)) && Enabled(c, q, Check(i, size))
    ensures CanEnter(c, n, steps, i, size)
  {
  }

  /** With a second sender holding back more each time, the counter goes on falling. */
  lemma {:induction false} Climb(c: Config, n: nat, steps: seq<Step>, more: seq<Step>, q: Queue,
                                 i: nat, size: nat, a: nat, b: nat, leak: nat, m: nat)
    requires Reaches(c, n, steps + more, q) && (forall s :: s in more ==> NotOf(s, i)) && Held1(q, i, a, b, leak, m)
    requires c.capacity > 0 && 0 < size <= c.maxFrame && leak < c.budget && m <= c.maxFrame
    ensures CanEnter(c, n, steps, i, size)
    decreases leak - m
  {
    hide Reaches, CanEnter;
    var next := if c.budget - (leak - m) < c.maxFrame then c.budget - (leak - m) else c.maxFrame;
    var v := Slip(q, b, next);
    Slips(c, n, steps + more, q, b, next);
    var more1 := more + SlipSteps(b, next);
    Assoc(steps, more, SlipSteps(b, next));
    if Room(c, v.inflight, size) {
      Enters(c, n, steps, more1, v, i, size);
    } else {
      ReachesStep(c, n, steps + more1, v, Charge(a));
      var u := v.(inflight := v.inflight + m, senders := v.senders[a := Idle]);
      Assoc(steps, more1, [Charge(a)]);
      Climb(c, n, steps, more1 + [Charge(a)], u, i, size, b, a, leak, next);
    }
  }

  /** Whether the waiting frame can still go in: at once, or by another sender's frame
      that brings the counter down far enough, or by two others in turns. */
  predicate Escapes(c: Config, n: nat, leak: nat, size: nat) {
    || leak == 0 || leak + size <= c.budget
    || (n >= 2 && leak < c.budget &&
        (n >= 3 || c.budget - leak >= c.maxFrame || 2 * leak <= c.budget || 2 * leak + size <= 2 * c.budget))
  }

  lemma QuietBooks(c: Config, n: nat, steps: seq<Step>, q: Queue)
    requires n > 0 && Reaches(c, n, steps, q) && Quiet(q)
    ensures |q.senders| == n && q.inflight == q.leaked && forall k :: 0 <= k < n ==> q.senders[k] == Idle
  {
    ReachableInv(c, n, steps, q);
    assert q.senders == seq(n, _ => Idle);
    IdleSums(n);
  }

  lemma EscapeWorks(c: Config, n: nat, steps: seq<Step>, q: Queue, i: nat, size: nat)
    requires n > 0 && Reaches(c, n, steps, q) && i < n && 0 < size <= c.maxFrame && Quiet(q) && c.capacity > 0
    requires Escapes(c, n, q.leaked, size)
    ensures CanEnter(c, n, steps, i, size)
  {
    hide Reaches, CanEnter;
    QuietBooks(c, n, steps, q);
    assert steps + [] == steps;
    if Room(c, q.inflight, size) {
      Enters(c, n, steps, [], q, i, size);
    } else {
      var a := if i == 0 then 1 else 0;
      var m := if c.budget - q.leaked < c.maxFrame then c.budget - q.leaked else c.maxFrame;
      var v := Slip(q, a, m);
      Slips(c, n, steps, q, a, m);
      if Room(c, v.inflight, size) {
        Enters(c, n, steps, SlipSteps(a, m), v, i, size);
      } else {
        var b := if i <= 1 then 2 else 1;
        Climb(c, n, steps, SlipSteps(a, m), v, i, size, a, b, q.leaked, m);
      }
    }
  }

  /** With one other sender: the leak stays, and what that sender holds fits beside it. */
  ghost predicate Blocked(c: Config, q: Queue, i: nat, leak: nat) {
    && |q.senders| == 2 && i < 2 && q.senders[i] == Idle && q.leaked == leak < c.budget
    && forall k :: 0 <= k < 2 ==> Pending(q.senders[k]) + Uncharged(q.senders[k]) <= c.budget - leak
  }

  lemma BlockedCounter(c: Config, q: Queue, i: nat, leak: nat)
    requires Inv(c, 2, q) && Blocked(c, q, i, leak)
    ensures q.inflight + (c.budget - leak) >= Sum(q.queued) + Held(q) + leak
    ensures q.senders[1 - i] == Idle ==> q.inflight >= leak
  {
    hide Sum;
    SumBoundBut(Unchargeds(q.senders), c.budget - leak, i);
    if q.senders[1 - i] == Idle { SumBoundBut(Unchargeds(q.senders), 0, i); }
  }

  lemma BlockedStep(c: Config, q: Queue, i: nat, leak: nat, s: Step)
    requires Inv(c, 2, q) && Blocked(c, q, i, leak) && 2 * leak > c.budget && Enabled(c, q, s) && NotOf(s, i)
    ensures Blocked(c, Take(q, c, s), i, leak)
  {
    hide Sum, Inv;
    BlockedCounter(c, q, i, leak);
    assert s.Check? ==> s.i == 1 - i;
  }

  lemma {:induction false} StaysBlocked(c: Config, steps: seq<Step>, q: Queue, i: nat, more: seq<Step>, q': Queue)
    requires Reaches(c, 2, steps, q) && Blocked(c, q, i, q.leaked) && 2 * q.leaked > c.budget
    requires Reaches(c, 2, steps + more, q') && forall s :: s in more ==> NotOf(s, i)
    ensures Blocked(c, q', i, q.leaked)
    decreases |more|
  {
    hide Take, Enabled, Reaches, Blocked;
    if more == [] {
      assert steps + more == steps;
      ReachesOne(c, 2, steps, q, q');
    } else {
      var front, last := more[..|more| - 1], more[|more| - 1];
      assert last in more;
      assert steps + more == (steps + front) + [last];
      var p := ReachesLast(c, 2, steps + front, last, q');
      StaysBlocked(c, steps, q, i, front, p);
      ReachableInv(c, 2, steps + front, p);
      BlockedStep(c, p, i, q.leaked, last);
    }
  }

  lemma {:induction false} NobodyMoves(c: Config, n: nat, steps: seq<Step>, q: Queue, i: nat, more: seq<Step>, q': Queue)
    requires n > 0 && Reaches(c, n, steps, q) && i < n && Quiet(q) && q.leaked != 0 && (n == 1 || q.leaked >= c.budget)
    requires Reaches(c, n, steps + more, q') && forall s :: s in more ==> NotOf(s, i)
    ensures q' == q
    decreases |more|
  {
    hide Take, Enabled, Reaches;
    if more == [] {
      assert steps + more == steps;
      ReachesOne(c, n, steps, q, q');
    } else {
      var front, last := more[..|more| - 1], more[|more| - 1];
      assert last in more && NotOf(last, i);
      assert steps + more == (steps + front) + [last];
      var p := ReachesLast(c, n, steps + front, last, q');
      NobodyMoves(c, n, steps, q, i, front, p);
      NothingEnabled(c, n, steps, q, i, last);
      assert false;
    }
  }

  lemma NothingEnabled(c: Config, n: nat, steps: seq<Step>, q: Queue, i: nat, s: Step)
    requires n > 0 && Reaches(c, n, steps, q) && i < n && Quiet(q) && q.leaked != 0 && (n == 1 || q.leaked >= c.budget)
    requires NotOf(s, i)
    ensures !Enabled(c, q, s)
  {
    hide Reaches;
    QuietBooks(c, n, steps, q);
  }

  /** THE escape law. A frame that waits beside a leak can still go in exactly when the
      leak leaves it room, or leaves room for something at all and either there are two
      other senders, or the one other may send a frame long enough: the largest allowed
      fits beside the leak, or what fits reaches down to the leak or to the frame. */
  lemma CanEnterExactly(c: Config, n: nat, steps: seq<Step>, q: Queue, i: nat, size: nat)
    requires n > 0 && Reaches(c, n, steps, q) && i < n && 0 < size <= c.maxFrame && Quiet(q) && c.capacity > 0
    ensures CanEnter(c, n, steps, i, size) <==> Escapes(c, n, q.leaked, size)
  {
    hide Reaches;
    QuietBooks(c, n, steps, q);
    if Escapes(c, n, q.leaked, size) {
      EscapeWorks(c, n, steps, q, i, size);
    } else if CanEnter(c, n, steps, i, size) {
      var more: seq<Step>, v: Queue :|
        Reaches(c, n, steps + more, v) && (forall s :: s in more ==> NotOf(s, i)) && Enabled(c, v, Check(i, size));
      if n == 1 || q.leaked >= c.budget {
        NobodyMoves(c, n, steps, q, i, more, v);
      } else {
        StaysBlocked(c, steps, q, i, more, v);
        ReachableInv(c, 2, steps + more, v);
        BlockedCounter(c, v, i, q.leaked);
      }
    }
  }

  // ------------------------------------------- one sender, charged atomically

  /** The queue with publish and charge in one step, and pop and release in one. */
  datatype Atomic = Atomic(inflight: nat, queued: seq<nat>)

  datatype AtomicStep = Send(size: nat) | Recv

  predicate AtomicEnabled(c: Config, q: Atomic, s: AtomicStep) {
    match s
    case Send(size) => 0 < size <= c.maxFrame && Room(c, q.inflight, size) && |q.queued| < c.capacity
    case Recv => q.queued != []
  }

  function AtomicTake(q: Atomic, s: AtomicStep): Atomic
    requires s.Recv? ==> q.queued != []
  {
    match s
    case Send(size) => Atomic(q.inflight + size, q.queued + [size])
    case Recv => Atomic(if q.inflight < q.queued[0] then 0 else q.inflight - q.queued[0], q.queued[1..])
  }

  /** Runs every step that is enabled and skips the others. */
  function AtomicRun(c: Config, steps: seq<AtomicStep>): Atomic {
    if steps == [] then Atomic(0, [])
    else
      var q, s := AtomicRun(c, steps[..|steps| - 1]), steps[|steps| - 1];
      if AtomicEnabled(c, q, s) then AtomicTake(q, s) else q
  }

  /** THE atomic law: the counter is the queued bytes, the queue is within budget
      or holds exactly one frame, and there is always a step to take. */
  lemma {:induction false} AtomicExact(c: Config, steps: seq<AtomicStep>)
    ensures var q := AtomicRun(c, steps);
            && q.inflight == Sum(q.queued)
            && (q.inflight <= c.budget || |q.queued| == 1)
            && (forall k :: 0 <= k < |q.queued| ==> q.queued[k] > 0)
            && (q.queued == [] <==> q.inflight == 0)
            && (c.capacity > 0 ==> forall size :: 0 < size <= c.maxFrame ==>
                  AtomicEnabled(c, q, Recv) || AtomicEnabled(c, q, Send(size)))
  {
    hide Sum;
    if steps != [] {
      var q, s := AtomicRun(c, steps[..|steps| - 1]), steps[|steps| - 1];
      AtomicExact(c, steps[..|steps| - 1]);
      if AtomicEnabled(c, q, s) {
        match s {
          case Send(size) =>
            SumSnoc(q.queued, size);
            if q.inflight == 0 { assert q.queued == []; }
          case Recv =>
            SumFirst(q.queued);
            SumPositive(q.queued[1..]);
        }
      }
    }
    SumPositive(AtomicRun(c, steps).queued);
  }

  lemma SumPositive(ns: seq<nat>)
    requires forall k :: 0 <= k < |ns| ==> ns[k] > 0
    ensures Sum(ns) == 0 <==> ns == []
  {
  }
}
