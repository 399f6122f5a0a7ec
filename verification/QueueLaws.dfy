/** What gets into the outbound queue and in which order it comes out
    (crates/rx11-core/src/queue.rs), read off the bytes in it. */
module QueueLaws {
  import opened Bytes
  import opened Queues

  /** Every frame in the queue, out of it or on its way in has a size. */
  ghost predicate Sized(q: Queue) {
    && (forall k :: 0 <= k < |q.queued| ==> q.queued[k] > 0)
    && (q.popped.Some? ==> q.popped.value > 0)
    && (forall k :: 0 <= k < |q.senders| ==> q.senders[k] == Idle || q.senders[k].size > 0)
  }

  lemma {:induction false} ReachableSized(c: Config, n: nat, steps: seq<Step>, q: Queue)
    requires Reaches(c, n, steps, q)
    ensures Sized(q)
    decreases |steps|
  {
    if steps != [] {
      var last := steps[|steps| - 1];
      var p: Queue :| Reaches(c, n, steps[..|steps| - 1], p) && Enabled(c, p, last) && Take(p, c, last) == q;
      ReachableSized(c, n, steps[..|steps| - 1], p);
    }
  }

  /** The sender takes its frame through the check and puts it into the queue. */
  ghost predicate GetsIn(c: Config, n: nat, steps: seq<Step>, q: Queue, i: nat, size: nat) {
    exists v: Queue :: Reaches(c, n, steps + [Check(i, size)] + [Publish(i)], v) && v.queued == q.queued + [size]
  }

  lemma PublishAfterCheck(c: Config, q: Queue, i: nat, size: nat)
    requires Enabled(c, q, Check(i, size))
    ensures var p := Take(q, c, Check(i, size));
            Enabled(c, p, Publish(i)) &&
            Take(p, c, Publish(i)).queued == if |q.queued| < c.capacity then q.queued + [size] else q.queued
  {
  }

  lemma GetsInSteps(c: Config, n: nat, steps: seq<Step>, q: Queue, i: nat, size: nat)
    requires Reaches(c, n, steps, q)
    ensures GetsIn(c, n, steps, q, i, size) <==> Enabled(c, q, Check(i, size)) && |q.queued| < c.capacity
  {
    hide Reaches, Enabled, Take;
    if GetsIn(c, n, steps, q, i, size) {
      var v: Queue :| Reaches(c, n, steps + [Check(i, size)] + [Publish(i)], v) && v.queued == q.queued + [size];
      var p := ReachesLast(c, n, steps + [Check(i, size)], Publish(i), v);
      var q' := ReachesLast(c, n, steps, Check(i, size), p);
      ReachesOne(c, n, steps, q, q');
      PublishAfterCheck(c, q, i, size);
      assert |q.queued + [size]| != |q.queued|;
    }
    if Enabled(c, q, Check(i, size)) && |q.queued| < c.capacity {
      PublishAfterCheck(c, q, i, size);
      ReachesStep(c, n, steps, q, Check(i, size));
      ReachesStep(c, n, steps + [Check(i, size)], Take(q, c, Check(i, size)), Publish(i));
    }
  }

  /** THE admission law. In every state a run can reach, an idle sender's frame gets in
      exactly when there is a place for one more frame and the bytes counted, which are
      the queued and popped ones, less those not charged yet, plus the leak, are none or
      leave it room within the budget. */
  lemma AdmitsExactly(c: Config, n: nat, steps: seq<Step>, q: Queue, i: nat, size: nat)
    requires n > 0 && Reaches(c, n, steps, q) && i < |q.senders| && q.senders[i] == Idle && 0 < size <= c.maxFrame
    ensures var counted := Sum(q.queued) + Held(q) + q.leaked - Sum(Unchargeds(q.senders));
            GetsIn(c, n, steps, q, i, size) <==> |q.queued| < c.capacity && (counted == 0 || counted + size <= c.budget)
  {
    hide Reaches, Sum, Unchargeds, Pendings, GetsIn;
    ReachableInv(c, n, steps, q);
    GetsInSteps(c, n, steps, q, i, size);
  }

  /** With nothing leaked and nothing uncharged: exactly when nothing is queued or in the
      receiver's hands, or that and the frame are within the budget together. */
  lemma AdmitsWhenExact(c: Config, n: nat, steps: seq<Step>, q: Queue, i: nat, size: nat)
    requires n > 0 && Reaches(c, n, steps, q) && i < |q.senders| && q.senders[i] == Idle && 0 < size <= c.maxFrame
    requires q.leaked == 0 && forall k :: 0 <= k < |q.senders| ==> !q.senders[k].Published?
    ensures GetsIn(c, n, steps, q, i, size) <==>
              && |q.queued| < c.capacity
              && ((q.queued == [] && q.popped == None) || Sum(q.queued) + Held(q) + size <= c.budget)
  {
    hide Reaches, Sum, GetsIn;
    AdmitsExactly(c, n, steps, q, i, size);
    ReachableInv(c, n, steps, q);
    NoneUncharged(q.senders);
    ReachableSized(c, n, steps, q);
    SumPositive(q.queued);
  }

  lemma {:induction false} NoneUncharged(ps: seq<Phase>)
    requires forall k :: 0 <= k < |ps| ==> !ps[k].Published?
    ensures Sum(Unchargeds(ps)) == 0
  {
    if ps != [] {
      NoneUncharged(ps[..|ps| - 1]);
      assert Unchargeds(ps)[..|ps| - 1] == Unchargeds(ps[..|ps| - 1]);
    }
  }

  /** The same of the queue with atomic charging. */
  lemma AtomicAdmits(c: Config, steps: seq<AtomicStep>, size: nat)
    requires 0 < size <= c.maxFrame
    ensures var q := AtomicRun(c, steps);
            AtomicRun(c, steps + [Send(size)]).queued ==
              if |q.queued| < c.capacity && (q.queued == [] || Sum(q.queued) + size <= c.budget)
              then q.queued + [size] else q.queued
  {
    hide Sum;
    AtomicExact(c, steps);
    assert (steps + [Send(size)])[..|steps|] == steps;
  }

  // ------------------------------------------------------- first in, first out

  /** The sizes a step puts into the queue and takes out of it. */
  function In(p: Queue, q: Queue): seq<nat> { if |q.queued| > |p.queued| then [q.queued[|q.queued| - 1]] else [] }

  function Out(p: Queue, q: Queue): seq<nat> { if p.popped == None && q.popped.Some? then [q.popped.value] else [] }

  /** The run with what went in and what came out over it, in order. */
  ghost predicate Passes(c: Config, n: nat, steps: seq<Step>, q: Queue, ins: seq<nat>, outs: seq<nat>)
    decreases |steps|
  {
    if steps == [] then q == Start(n) && ins == [] && outs == []
    else
      var last := steps[|steps| - 1];
      exists p: Queue, i0: seq<nat>, o0: seq<nat> ::
        && Passes(c, n, steps[..|steps| - 1], p, i0, o0) && Enabled(c, p, last) && Take(p, c, last) == q
        && ins == i0 + In(p, q) && outs == o0 + Out(p, q)
  }

  /** Frames come out in the order in which they went in, and what has gone in and not
      come out is what is queued. */
  lemma {:induction false} FirstInFirstOut(c: Config, n: nat, steps: seq<Step>, q: Queue, ins: seq<nat>, outs: seq<nat>)
    requires Passes(c, n, steps, q, ins, outs)
    ensures ins == outs + q.queued
    decreases |steps|
  {
    hide Enabled;
    if steps != [] {
      var last := steps[|steps| - 1];
      var p: Queue, i0: seq<nat>, o0: seq<nat> :|
        && Passes(c, n, steps[..|steps| - 1], p, i0, o0) && Enabled(c, p, last) && Take(p, c, last) == q
        && ins == i0 + In(p, q) && outs == o0 + Out(p, q);
      FirstInFirstOut(c, n, steps[..|steps| - 1], p, i0, o0);
      StepPasses(c, p, last);
      Assoc(o0, p.queued, In(p, q));
      Assoc(o0, Out(p, q), q.queued);
    }
  }

  lemma StepPasses(c: Config, p: Queue, s: Step)
    requires Enabled(c, p, s)
    ensures var q := Take(p, c, s); p.queued + In(p, q) == Out(p, q) + q.queued
  {
  }

  /** Every run has such a record. */
  lemma {:induction false} PassesRecorded(c: Config, n: nat, steps: seq<Step>, q: Queue) returns (ins: seq<nat>, outs: seq<nat>)
    requires Reaches(c, n, steps, q)
    ensures Passes(c, n, steps, q, ins, outs)
    decreases |steps|
  {
    hide Enabled, Take;
    if steps == [] {
      ins, outs := [], [];
    } else {
      var last := steps[|steps| - 1];
      var p: Queue :| Reaches(c, n, steps[..|steps| - 1], p) && Enabled(c, p, last) && Take(p, c, last) == q;
      ins, outs := PassesRecorded(c, n, steps[..|steps| - 1], p);
      ins, outs := ins + In(p, q), outs + Out(p, q);
    }
  }

  // ------------------------------------------------------------ nothing stays

  function Steps(p: Phase): nat {
    match p
    case Idle => 0
    case Published(_) => 1
    case Checked(_) => 4
  }

  function AllSteps(ps: seq<Phase>): seq<nat> { seq(|ps|, k requires 0 <= k < |ps| => Steps(ps[k])) }

  /** A bound on the steps it takes to finish what is under way. */
  function Unfinished(q: Queue): nat {
    Sum(AllSteps(q.senders)) + 2 * |q.queued| + if q.popped.Some? then 1 else 0
  }

  lemma StepFinishes(c: Config, q: Queue, s: Step)
    requires Enabled(c, q, s) && !s.Check?
    ensures Unfinished(Take(q, c, s)) < Unfinished(q)
  {
    hide Sum;
    if s.Publish? || s.Charge? {
      var v := Take(q, c, s).senders[s.i];
      SumUpdate(AllSteps(q.senders), s.i, Steps(v));
      assert AllSteps(q.senders[s.i := v]) == AllSteps(q.senders)[s.i := Steps(v)];
    }
  }

  lemma SomethingToDo(c: Config, q: Queue) returns (s: Step)
    requires !Quiet(q)
    ensures Enabled(c, q, s) && !s.Check?
  {
    if q.popped.Some? {
      s := Release;
    } else if q.queued != [] {
      s := Pop;
    } else {
      var k :| 0 <= k < |q.senders| && q.senders[k] != Idle;
      s := if q.senders[k].Checked? then Publish(k) else Charge(k);
    }
  }

  /** From every state a run can reach, what is under way can be finished without any new
      frame: everything queued comes out and nothing stays in transit. */
  lemma {:induction false} DrainsOut(c: Config, n: nat, steps: seq<Step>, q: Queue) returns (more: seq<Step>, v: Queue)
    requires Reaches(c, n, steps, q)
    ensures Reaches(c, n, steps + more, v) && Quiet(v) && forall s :: s in more ==> !s.Check?
    decreases Unfinished(q)
  {
    hide Enabled, Take, Reaches, Quiet, Unfinished;
    if Quiet(q) {
      more, v := [], q;
      assert steps + [] == steps;
    } else {
      var s := SomethingToDo(c, q);
      StepFinishes(c, q, s);
      ReachesStep(c, n, steps, q, s);
      var later;
      later, v := DrainsOut(c, n, steps + [s], Take(q, c, s));
      more := [s] + later;
      Assoc(steps, [s], later);
    }
  }
}
