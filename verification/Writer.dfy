/** The two-lane coalescing writer (crates/rx11-core/src/transport.rs,
    `drain_frames`; crates/rx11-core/src/queue.rs, `recv_any`). Other tasks
    enqueue frames while the writer runs: `future` lists what arrives before each
    of its polls and writes. The functions say what each operation does to the
    writer's state; the class `Link` is the writer itself. */
module Writer {
  import opened Bytes
  import opened Messages
  import opened FrameCodec
  import opened Transport

  const OUTBOUND_BATCH_FRAMES: nat := 64
  const OUTBOUND_BATCH_BYTES: nat := 256 * 1024
  const OUTBOUND_WRITE_CHUNK: nat := 64 * 1024

  /** `pendingHint` is what the priority lane's relaxed backlog counter happens to
      say at that moment: it is only a hint and may be wrong either way. */
  datatype Arrival = Arrival(bulk: seq<Frame>, prio: seq<Frame>, pendingHint: bool)

  /** A parked priority frame and the number of bulk chunks written when it came. */
  datatype Parked = Parked(frame: Frame, at: nat)

  /** `waited`: bulk chunks written between the frame's arrival and its write;
      `midBatch`: part of a coalesced batch was already out, and part was not. */
  datatype Write = BulkChunk(bytes: Bytes) | PrioWrite(frame: Frame, waited: nat, midBatch: bool)

  /** What a failing write had put out already: a front of what was being written. */
  datatype Spill = Nothing | OfBulk(front: Bytes) | OfPrio(frame: Frame, front: Bytes)

  /** `writesLeft` is how many writes the socket takes before it breaks, `lastFront`
      how many octets of the failing one still go out, `taken` the bulk frames taken
      from the queue, in order. */
  datatype State = State(
    bulk: seq<Frame>, prio: seq<Parked>, future: seq<Arrival>, log: seq<Write>, chunksWritten: nat,
    writesLeft: nat, lastFront: nat, spill: Spill, taken: seq<Frame>)

  function Start(future: seq<Arrival>, writesLeft: nat, lastFront: nat): State {
    State([], [], future, [], 0, writesLeft, lastFront, Nothing, [])
  }

  function FutureBulk(future: seq<Arrival>): seq<Frame> {
    if future == [] then [] else future[0].bulk + FutureBulk(future[1..])
  }

  function FuturePrio(future: seq<Arrival>): seq<Frame> {
    if future == [] then [] else future[0].prio + FuturePrio(future[1..])
  }

  function Frames(prio: seq<Parked>): (fs: seq<Frame>)
    ensures |fs| == |prio| && forall i :: 0 <= i < |fs| ==> fs[i] == prio[i].frame
  {
    seq(|prio|, i requires 0 <= i < |prio| => prio[i].frame)
  }

  /** The bulk bytes of the output, in order. */
  function BulkBytes(log: seq<Write>): Bytes {
    if log == [] then []
    else
      var w := log[|log| - 1];
      BulkBytes(log[..|log| - 1]) + if w.BulkChunk? then w.bytes else []
  }

  /** The priority frames of the output, in order. */
  function PrioFrames(log: seq<Write>): seq<Frame> {
    if log == [] then []
    else
      var w := log[|log| - 1];
      PrioFrames(log[..|log| - 1]) + if w.PrioWrite? then [w.frame] else []
  }

  lemma LogSnoc(log: seq<Write>, w: Write)
    ensures BulkBytes(log + [w]) == BulkBytes(log) + (if w.BulkChunk? then w.bytes else [])
    ensures PrioFrames(log + [w]) == PrioFrames(log) + (if w.PrioWrite? then [w.frame] else [])
  {
    assert (log + [w])[..|log|] == log;
  }

  predicate AllEncodable(fs: seq<Frame>) {
    forall i :: 0 <= i < |fs| ==> Encodable(fs[i])
  }

  lemma {:induction false} EncodingsSnoc(fs: seq<Frame>, f: Frame)
    requires AllEncodable(fs) && Encodable(f)
    ensures AllEncodable(fs + [f]) && Encodings(fs + [f]) == Encodings(fs) + Encoding(f)
  {
    hide Encoding, Encodable;
    if fs == [] {
      assert fs + [f] == [f] && Encodings([f]) == Encoding(f) + [];
    } else {
      EncodingsSnoc(fs[1..], f);
      assert (fs + [f])[0] == fs[0] && (fs + [f])[1..] == fs[1..] + [f];
      Assoc(Encoding(fs[0]), Encodings(fs[1..]), Encoding(f));
    }
  }

  function Stamp(fs: seq<Frame>, at: nat): (ps: seq<Parked>)
    ensures |ps| == |fs| && forall i :: 0 <= i < |fs| ==> ps[i] == Parked(fs[i], at)
  {
    seq(|fs|, i requires 0 <= i < |fs| => Parked(fs[i], at))
  }

  lemma Take<T>(done: seq<T>, x: T, rest: seq<T>, later: seq<T>)
    ensures done + ([x] + rest) + later == (done + [x]) + rest + later
  {
  }

  // ---------------------------------------------------- what each operation does

  datatype LaneItem = Priority(parked: Parked) | Bulk(frame: Frame) | BulkClosed

  /** Frames that have not been taken from their lane yet. */
  function Left(s: State): nat {
    |s.bulk| + |FutureBulk(s.future)| + |s.prio| + |FuturePrio(s.future)|
  }

  /** Other tasks run: the next arrivals join their lanes. */
  function TickStep(s: State): (r: (State, bool))
    ensures Left(r.0) == Left(s) && |r.0.future| <= |s.future|
    ensures if s.future == [] then r.0 == s else |r.0.future| < |s.future|
  {
    if s.future == [] then (s, false)
    else
      var a := s.future[0];
      (s.(bulk := s.bulk + a.bulk, prio := s.prio + Stamp(a.prio, s.chunksWritten), future := s.future[1..]),
       a.pendingHint)
  }

  function TakeStep(s: State): (r: State)
    requires s.bulk != []
    ensures Left(r) < Left(s)
  {
    s.(bulk := s.bulk[1..], taken := s.taken + [s.bulk[0]])
  }

  function TryRecvStep(s: State): (r: (State, Option<Frame>))
    ensures Left(r.0) <= Left(s)
  {
    var v := TickStep(s).0;
    if v.bulk == [] then (v, None) else (TakeStep(v), Some(v.bulk[0]))
  }

  function PopStep(s: State): (r: (State, Option<Parked>))
    ensures Left(r.0) <= Left(s) && (r.1.Some? ==> Left(r.0) < Left(s)) && |r.0.future| <= |s.future|
    ensures s.future != [] ==> |r.0.future| < |s.future|
    ensures s.future == [] ==> r.0 == (if s.prio == [] then s else s.(prio := s.prio[1..]))
  {
    var v := TickStep(s).0;
    if v.prio == [] then (v, None) else (v.(prio := v.prio[1..]), Some(v.prio[0]))
  }

  /** The fused wait: the priority lane is polled first. */
  function AnyStep(s: State): (r: (State, LaneItem))
    ensures Left(r.0) <= Left(s) && (!r.1.BulkClosed? ==> Left(r.0) < Left(s))
    decreases |s.future|
  {
    var (v, p) := PopStep(s);
    if p.Some? then (v, Priority(p.value))
    else if v.bulk != [] then (TakeStep(v), Bulk(v.bulk[0]))
    else if s.future == [] then (v, BulkClosed)
    else AnyStep(v)
  }

  function Front(b: Bytes, n: nat): Bytes { if n < |b| then b[..n] else b }

  function PrioStep(s: State, p: Parked, midBatch: bool): (r: (State, bool))
    ensures Left(r.0) == Left(s) && |r.0.future| <= |s.future|
    ensures s.future == [] ==> r.0.future == [] && r.0.prio == s.prio
  {
    if !Encodable(p.frame) then (s, false)
    else if s.writesLeft == 0 then (s.(spill := OfPrio(p.frame, Front(Encoding(p.frame), s.lastFront))), false)
    else
      var waited := if p.at <= s.chunksWritten then s.chunksWritten - p.at else 0;
      (TickStep(s.(log := s.log + [PrioWrite(p.frame, waited, midBatch)], writesLeft := s.writesLeft - 1)).0, true)
  }

  /** Writes everything parked in the priority lane. */
  function DrainPrioStep(s: State, midBatch: bool): (r: (State, bool))
    ensures Left(r.0) <= Left(s)
    decreases |s.future|, |s.prio|
  {
    var (v, p) := PopStep(s);
    if p.None? then (v, true)
    else
      var (u, ok) := PrioStep(v, p.value, midBatch);
      if ok then DrainPrioStep(u, midBatch) else (u, false)
  }

  function BulkStep(s: State, chunk: Bytes): (r: (State, bool))
    ensures Left(r.0) == Left(s)
  {
    var v := TickStep(s).0;
    if v.writesLeft == 0 then (v.(spill := OfBulk(Front(chunk, v.lastFront))), false)
    else
      (v.(log := v.log + [BulkChunk(chunk)], writesLeft := v.writesLeft - 1, chunksWritten := v.chunksWritten + 1), true)
  }

  function CutEnd(off: nat, len: nat): (end: nat)
    requires off < len
    ensures off < end <= len && end - off <= OUTBOUND_WRITE_CHUNK
  {
    if off + OUTBOUND_WRITE_CHUNK < len then off + OUTBOUND_WRITE_CHUNK else len
  }

  /** Commits one coalesced batch in chunks from `off` on, priority frames first before
      each. A batch whose coalescing failed is not written at all. */
  function CommitStep(s: State, committed: Bytes, failed: bool, off: nat): (r: (State, bool))
    requires off <= |committed|
    ensures Left(r.0) <= Left(s)
    decreases |committed| - off
  {
    if off == |committed| then (s, !failed)
    else
      var (v, clean) := DrainPrioStep(s, off > 0);
      if failed || !clean then (v, false)
      else
        var end := CutEnd(off, |committed|);
        var (u, sent) := BulkStep(v, committed[off..end]);
        if sent then CommitStep(u, committed, failed, end) else (u, false)
  }

  /** Grows a batch from the bulk queue: at most 64 frames, until 256 KiB are reached
      or the lane's counter says a priority frame is parked. */
  function CoalesceStep(s: State, committed: Bytes, queued: nat): (r: (State, Bytes, bool))
    ensures Left(r.0) <= Left(s)
    decreases OUTBOUND_BATCH_FRAMES - queued
  {
    if queued >= OUTBOUND_BATCH_FRAMES || |committed| >= OUTBOUND_BATCH_BYTES then (s, committed, false)
    else
      var (v, pending) := TickStep(s);
      if pending then (v, committed, false)
      else
        var (u, next) := TryRecvStep(v);
        if next.None? then (u, committed, false)
        else if !Encodable(next.value) then (u, committed, true)
        else CoalesceStep(u, committed + Encoding(next.value), queued + 1)
  }

  function BatchStep(s: State, first: Frame): (r: (State, Bytes, bool))
    ensures Left(r.0) <= Left(s)
  {
    if Encodable(first) then CoalesceStep(s, Encoding(first), 1) else (s, [], true)
  }

  /** Drives the socket until the bulk lane closes or something breaks. */
  function DriveStep(s: State): (State, bool)
    decreases Left(s)
  {
    var (v, item) := AnyStep(s);
    if item.BulkClosed? then (v, true)
    else if item.Priority? then
      var (u, ok) := PrioStep(v, item.parked, false);
      if ok then DriveStep(u) else (u, false)
    else
      var (u, committed, failed) := BatchStep(v, item.frame);
      var (t, ok) := CommitStep(u, committed, failed, 0);
      if ok then DriveStep(t) else (t, false)
  }

  // --------------------------------------------------------------- the class

  class Link {
    var bulk: seq<Frame>
    var prio: seq<Parked>
    var future: seq<Arrival>
    var log: seq<Write>
    var chunksWritten: nat
    var writesLeft: nat
    const lastFront: nat
    var spill: Spill
    ghost var taken: seq<Frame>

    constructor (future: seq<Arrival>, writesLeft: nat, lastFront: nat)
      ensures View() == Start(future, writesLeft, lastFront)
    {
      bulk, prio, log, chunksWritten, spill, taken := [], [], [], 0, Nothing, [];
      this.future, this.writesLeft, this.lastFront := future, writesLeft, lastFront;
    }

    ghost function View(): State
      reads this
    {
      State(bulk, prio, future, log, chunksWritten, writesLeft, lastFront, spill, taken)
    }

    method Tick() returns (hint: bool)
      modifies this`bulk, this`prio, this`future
      ensures (View(), hint) == TickStep(old(View()))
    {
      if future == [] { return false; }
      var a := future[0];
      hint := a.pendingHint;
      bulk := bulk + a.bulk;
      prio := prio + Stamp(a.prio, chunksWritten);
      future := future[1..];
    }

    method TakeBulk() returns (f: Frame)
      requires bulk != []
      modifies this`bulk, this`taken
      ensures f == old(bulk)[0] && View() == TakeStep(old(View()))
    {
      f := bulk[0];
      taken := taken + [f];
      bulk := bulk[1..];
    }

    method TryRecv() returns (r: Option<Frame>)
      modifies this`bulk, this`prio, this`future, this`taken
      ensures (View(), r) == TryRecvStep(old(View()))
    {
      var _ := Tick();
      if bulk == [] { return None; }
      var f := TakeBulk();
      return Some(f);
    }

    method TryRecvPriority() returns (r: Option<Parked>)
      modifies this`bulk, this`prio, this`future
      ensures (View(), r) == PopStep(old(View()))
    {
      var _ := Tick();
      if prio == [] { return None; }
      r := Some(prio[0]);
      prio := prio[1..];
    }

    method RecvAny() returns (item: LaneItem)
      modifies this`bulk, this`prio, this`future, this`taken
      ensures (View(), item) == AnyStep(old(View()))
    {
      hide TickStep, PopStep;
      while true
        invariant AnyStep(View()) == AnyStep(old(View()))
        decreases |future|
      {
        var closed := future == [];
        var p := TryRecvPriority();
        if p.Some? { return Priority(p.value); }
        if bulk != [] {
          var f := TakeBulk();
          return Bulk(f);
        }
        if closed { return BulkClosed; }
      }
    }

    method SendPriority(p: Parked, midBatch: bool) returns (ok: bool)
      modifies this`log, this`writesLeft, this`spill, this`bulk, this`prio, this`future
      ensures (View(), ok) == PrioStep(old(View()), p, midBatch)
    {
      if !Encodable(p.frame) { return false; }
      var bytes := Encoding(p.frame);
      if writesLeft == 0 {
        spill := OfPrio(p.frame, Front(bytes, lastFront));
        return false;
      }
      log := log + [PrioWrite(p.frame, if p.at <= chunksWritten then chunksWritten - p.at else 0, midBatch)];
      writesLeft := writesLeft - 1;
      var _ := Tick();
      ok := true;
    }

    method DrainPriority(midBatch: bool) returns (ok: bool)
      modifies this`log, this`writesLeft, this`spill, this`bulk, this`prio, this`future
      ensures (View(), ok) == DrainPrioStep(old(View()), midBatch)
    {
      hide TickStep, PopStep, PrioStep;
      while true
        invariant DrainPrioStep(View(), midBatch) == DrainPrioStep(old(View()), midBatch)
        decreases |future|, |prio|
      {
        var p := TryRecvPriority();
        if p.None? { return true; }
        ok := SendPriority(p.value, midBatch);
        if !ok { return; }
      }
    }

    method SendBulk(chunk: Bytes) returns (ok: bool)
      modifies this`log, this`writesLeft, this`spill, this`chunksWritten, this`bulk, this`prio, this`future
      ensures (View(), ok) == BulkStep(old(View()), chunk)
    {
      var _ := Tick();
      if writesLeft == 0 {
        spill := OfBulk(Front(chunk, lastFront));
        return false;
      }
      log := log + [BulkChunk(chunk)];
      writesLeft := writesLeft - 1;
      chunksWritten := chunksWritten + 1;
      ok := true;
    }

    method CommitBatch(committed: Bytes, failed: bool) returns (ok: bool)
      modifies this`log, this`writesLeft, this`spill, this`chunksWritten, this`bulk, this`prio, this`future
      ensures (View(), ok) == CommitStep(old(View()), committed, failed, 0)
    {
      hide DrainPrioStep, BulkStep;
      var off := 0;
      while off < |committed|
        invariant 0 <= off <= |committed|
        invariant CommitStep(View(), committed, failed, off) == CommitStep(old(View()), committed, failed, 0)
        decreases |committed| - off
      {
        var clean := DrainPriority(off > 0);
        if failed || !clean { return false; }
        var end := CutEnd(off, |committed|);
        var sent := SendBulk(committed[off..end]);
        if !sent { return false; }
        off := end;
      }
      ok := !failed;
    }

    method Coalesce(first: Frame) returns (committed: Bytes, failed: bool)
      modifies this`bulk, this`prio, this`future, this`taken
      ensures (View(), committed, failed) == BatchStep(old(View()), first)
    {
      hide TickStep, TryRecvStep, Encoding, Encodable;
      committed := [];
      failed := !Encodable(first);
      if failed { return; }
      committed := Encoding(first);
      var queued := 1;
      while queued < OUTBOUND_BATCH_FRAMES && |committed| < OUTBOUND_BATCH_BYTES
        invariant !failed
        invariant CoalesceStep(View(), committed, queued) == CoalesceStep(old(View()), Encoding(first), 1)
        decreases OUTBOUND_BATCH_FRAMES - queued
      {
        var pending := Tick();
        if pending { return; }
        var next := TryRecv();
        if next.None? { return; }
        if !Encodable(next.value) {
          failed := true;
          return;
        }
        committed := committed + Encoding(next.value);
        queued := queued + 1;
      }
    }

    /** From a fresh link: every law of `DriveLaws` holds of what was written. */
    method DrainFrames() returns (clean: bool)
      modifies this
      ensures (View(), clean) == DriveStep(old(View()))
      ensures old(Fresh(View())) ==>
                Driven(View(), clean, old(Lane(View())), old(PrioLane(View())))
    {
      hide AnyStep, PrioStep, BatchStep, CommitStep, Encodable, Encoding, Driven, Fresh, Lane, PrioLane;
      ghost var start := View();
      if Fresh(start) { DriveLaws(start); }
      while true
        invariant DriveStep(View()) == DriveStep(start)
        decreases Left(View())
      {
        var item := RecvAny();
        match item {
          case BulkClosed => return true;
          case Priority(p) =>
            var ok := SendPriority(p, false);
            if !ok { return false; }
          case Bulk(first) =>
            var committed, failed := Coalesce(first);
            var ok := CommitBatch(committed, failed);
            if !ok { return false; }
        }
      }
    }
  }

  // ---------------------------------------------------------------- the laws

  /** Every write is one whole priority frame that saw at most one commit chunk go
      by, or at most one commit chunk of bulk bytes. */
  ghost predicate LogOk(log: seq<Write>) {
    forall i :: 0 <= i < |log| ==>
      if log[i].BulkChunk? then 0 < |log[i].bytes| <= OUTBOUND_WRITE_CHUNK
      else Encodable(log[i].frame) && log[i].waited <= 1
  }

  ghost predicate OnBoundary(log: seq<Write>, lane: seq<Frame>) {
    exists done: seq<Frame> :: done <= lane && AllEncodable(done) && BulkBytes(log) == Encodings(done)
  }

  /** Outside batches, priority frames are written between whole bulk frames. */
  ghost predicate Aligned(log: seq<Write>, lane: seq<Frame>) {
    forall i :: 0 <= i < |log| && log[i].PrioWrite? && !log[i].midBatch ==> OnBoundary(log[..i], lane)
  }

  ghost predicate NeverMidBatch(log: seq<Write>) {
    forall i :: 0 <= i < |log| && log[i].PrioWrite? ==> !log[i].midBatch
  }

  /** Any frames the writer may coalesce into one batch fit one commit chunk. */
  ghost predicate SmallBatches(lane: seq<Frame>) {
    forall i, j :: 0 <= i <= j <= |lane| && j - i <= OUTBOUND_BATCH_FRAMES && AllEncodable(lane[i..j]) ==>
      |Encodings(lane[i..j])| <= OUTBOUND_WRITE_CHUNK
  }

  /** Everything the bulk lane has carried and will carry, in queue order. */
  ghost function Lane(s: State): seq<Frame> { s.taken + s.bulk + FutureBulk(s.future) }

  /** Everything the priority lane has delivered and will deliver. */
  ghost function PrioLane(s: State): seq<Frame> { PrioFrames(s.log) + Frames(s.prio) + FuturePrio(s.future) }

  /** No parked frame has seen more than `slack` bulk chunks go by. */
  ghost predicate Prompt(s: State, slack: nat) {
    forall i :: 0 <= i < |s.prio| ==> s.prio[i].at <= s.chunksWritten <= s.prio[i].at + slack
  }

  /** Nothing written and nothing taken yet. */
  ghost predicate Fresh(s: State) { s.log == [] && s.taken == [] && s.prio == [] && s.spill == Nothing }

  /** The bulk bytes out so far, those of a failing write included. */
  function BulkOut(s: State): Bytes { BulkBytes(s.log) + if s.spill.OfBulk? then s.spill.front else [] }

  /** What is left when the writer gives up: a clean front of both lanes, and at most a
      front of the next write. */
  ghost predicate Broken(s: State, lane: seq<Frame>, prioLane: seq<Frame>) {
    && (exists good: seq<Frame> :: good <= lane && AllEncodable(good) && BulkOut(s) <= Encodings(good))
    && PrioFrames(s.log) <= prioLane
    && (s.spill.OfPrio? ==>
          && Encodable(s.spill.frame) && s.spill.front <= Encoding(s.spill.frame)
          && PrioFrames(s.log) + [s.spill.frame] <= prioLane)
  }

  /** What can break a run: a socket that takes no more, or a frame no one can encode. */
  ghost predicate Excused(s: State, lane: seq<Frame>, prioLane: seq<Frame>) {
    (s.spill != Nothing && s.writesLeft == 0) || !AllEncodable(lane) || !AllEncodable(prioLane)
  }

  /** What holds of a writer that has stopped. On a clean end both lanes are out
      completely: the bulk bytes are the encodings of the bulk frames in queue order,
      the priority frames are whole and in order. When every batch fits one commit
      chunk no priority frame was written inside a batch. */
  ghost predicate Driven(s: State, clean: bool, lane: seq<Frame>, prioLane: seq<Frame>) {
    && LogOk(s.log) && Aligned(s.log, lane)
    && (clean ==>
          && s.spill == Nothing && AllEncodable(lane)
          && BulkBytes(s.log) == Encodings(lane) && PrioFrames(s.log) == prioLane)
    && (!clean ==> Broken(s, lane, prioLane) && Excused(s, lane, prioLane))
    && (SmallBatches(lane) ==> NeverMidBatch(s.log))
  }

  lemma LogGrows(log: seq<Write>, w: Write, lane: seq<Frame>)
    requires Aligned(log, lane) && LogOk(log)
    requires w.PrioWrite? && !w.midBatch ==> OnBoundary(log, lane)
    requires if w.BulkChunk? then 0 < |w.bytes| <= OUTBOUND_WRITE_CHUNK else Encodable(w.frame) && w.waited <= 1
    ensures Aligned(log + [w], lane) && LogOk(log + [w])
    ensures NeverMidBatch(log) && (w.PrioWrite? ==> !w.midBatch) ==> NeverMidBatch(log + [w])
  {
    hide OnBoundary;
    var next := log + [w];
    forall i | 0 <= i < |next| && next[i].PrioWrite? && !next[i].midBatch ensures OnBoundary(next[..i], lane) {
      if i < |log| {
        assert next[..i] == log[..i] && next[i] == log[i];
      } else {
        assert next[..i] == log;
      }
    }
  }

  /** The standing invariant of a running writer. */
  ghost predicate Inv(s: State, lane: seq<Frame>, prioLane: seq<Frame>) {
    && Prompt(s, 1) && LogOk(s.log) && Aligned(s.log, lane) && s.spill == Nothing
    && Lane(s) == lane && PrioLane(s) == prioLane
  }

  /** The priority lane with a frame just popped on its way to the output. */
  ghost predicate Popped(s: State, p: Parked, prioLane: seq<Frame>) {
    && p.at <= s.chunksWritten <= p.at + 1
    && (PrioFrames(s.log) + [p.frame]) + Frames(s.prio) + FuturePrio(s.future) == prioLane
  }

  /** Same output and same socket: only lanes have moved. */
  predicate SameOut(a: State, b: State) {
    && a.log == b.log && a.chunksWritten == b.chunksWritten && a.writesLeft == b.writesLeft
    && a.lastFront == b.lastFront && a.spill == b.spill
  }

  lemma TickKeeps(s: State)
    requires Prompt(s, 1)
    ensures var v := TickStep(s).0;
            && Prompt(v, 1) && Lane(v) == Lane(s) && PrioLane(v) == PrioLane(s)
            && SameOut(s, v) && v.taken == s.taken && (s.prio == [] ==> Prompt(v, 0))
  {
    hide Frames;
    if s.future != [] {
      var a := s.future[0];
    }
  }

  lemma TakeKeeps(s: State)
    requires s.bulk != []
    ensures Lane(TakeStep(s)) == Lane(s)
  {
    Take(s.taken, s.bulk[0], s.bulk[1..], FutureBulk(s.future));
    assert s.bulk == [s.bulk[0]] + s.bulk[1..];
  }

  lemma TryRecvKeeps(s: State)
    requires Prompt(s, 1)
    ensures var (v, r) := TryRecvStep(s);
            && Prompt(v, 1) && Lane(v) == Lane(s) && PrioLane(v) == PrioLane(s) && SameOut(s, v)
            && v.taken == if r.Some? then s.taken + [r.value] else s.taken
  {
    hide TickStep, Lane, Frames, FuturePrio;
    TickKeeps(s);
    var u := TickStep(s).0;
    if u.bulk != [] { TakeKeeps(u); }
  }

  lemma PopKeeps(s: State)
    requires Prompt(s, 1)
    ensures var (v, r) := PopStep(s);
            && Prompt(v, 1) && Lane(v) == Lane(s) && SameOut(s, v) && v.taken == s.taken
            && (r.None? ==> v.prio == [] && PrioLane(v) == PrioLane(s))
            && (r.Some? ==> Popped(v, r.value, PrioLane(s)))
  {
    hide TickStep, Frames;
    TickKeeps(s);
    var u := TickStep(s).0;
    if u.prio != [] {
      Take(PrioFrames(u.log), u.prio[0].frame, Frames(u.prio[1..]), FuturePrio(u.future));
    }
  }

  lemma {:induction false} AnyKeeps(s: State)
    requires Prompt(s, 1)
    ensures var (v, item) := AnyStep(s);
            && Prompt(v, 1) && Lane(v) == Lane(s) && SameOut(s, v)
            && (item.Priority? ==> v.taken == s.taken && Popped(v, item.parked, PrioLane(s)))
            && (item.Bulk? ==> v.taken == s.taken + [item.frame] && PrioLane(v) == PrioLane(s))
            && (item.BulkClosed? ==>
                  v.taken == s.taken && PrioLane(v) == PrioLane(s) && v.bulk == [] && v.prio == [] && v.future == [])
    decreases |s.future|
  {
    hide Lane, Frames, Popped, PrioFrames, FuturePrio;
    PopKeeps(s);
    var (v, p) := PopStep(s);
    if p.None? {
      if v.bulk != [] { TakeKeeps(v); }
      else if s.future != [] { AnyKeeps(v); }
    }
  }

  /** A writer that stops in the middle: what it says of the priority lane. */
  ghost predicate Halted(s: State, lane: seq<Frame>, prioLane: seq<Frame>) {
    && LogOk(s.log) && Aligned(s.log, lane) && PrioFrames(s.log) <= prioLane
    && (s.spill.OfPrio? ==>
          && Encodable(s.spill.frame) && s.spill.front <= Encoding(s.spill.frame)
          && PrioFrames(s.log) + [s.spill.frame] <= prioLane)
  }

  /** The frame just popped is written whole. */
  lemma PrioWritten(s: State, p: Parked, midBatch: bool, lane: seq<Frame>, prioLane: seq<Frame>) returns (u: State)
    requires Prompt(s, 1) && LogOk(s.log) && Aligned(s.log, lane) && s.spill == Nothing && Lane(s) == lane
    requires Popped(s, p, prioLane) && (!midBatch ==> OnBoundary(s.log, lane)) && Encodable(p.frame) && s.writesLeft > 0
    ensures u == s.(log := s.log + [PrioWrite(p.frame, s.chunksWritten - p.at, midBatch)], writesLeft := s.writesLeft - 1)
         && Inv(u, lane, prioLane) && BulkBytes(u.log) == BulkBytes(s.log)
         && (!midBatch && NeverMidBatch(s.log) ==> NeverMidBatch(u.log))
  {
    hide Frames, OnBoundary, Encodable, FutureBulk, FuturePrio, BulkBytes, PrioFrames, Aligned, NeverMidBatch, LogOk;
    var w := PrioWrite(p.frame, s.chunksWritten - p.at, midBatch);
    u := s.(log := s.log + [w], writesLeft := s.writesLeft - 1);
    LogSnoc(s.log, w);
    LogGrows(s.log, w, lane);
    assert BulkBytes(u.log) == BulkBytes(s.log) + [];
  }

  /** A popped frame is in the priority lane behind what has gone out. */
  lemma PoppedNext(s: State, p: Parked, prioLane: seq<Frame>)
    requires Popped(s, p, prioLane)
    ensures PrioFrames(s.log) <= prioLane && PrioFrames(s.log) + [p.frame] <= prioLane
    ensures !Encodable(p.frame) ==> !AllEncodable(prioLane)
  {
    hide Encodable, PrioFrames, Frames, FuturePrio;
    assert prioLane[|PrioFrames(s.log)|] == p.frame;
  }

  lemma PrioKeeps(s: State, p: Parked, midBatch: bool, lane: seq<Frame>, prioLane: seq<Frame>)
    requires Prompt(s, 1) && LogOk(s.log) && Aligned(s.log, lane) && s.spill == Nothing && Lane(s) == lane
    requires Popped(s, p, prioLane) && (!midBatch ==> OnBoundary(s.log, lane))
    ensures var (v, ok) := PrioStep(s, p, midBatch);
            && BulkBytes(v.log) == BulkBytes(s.log) && v.taken == s.taken && !v.spill.OfBulk?
            && (ok ==> Inv(v, lane, prioLane))
            && (!ok ==> Halted(v, lane, prioLane) && Excused(v, lane, prioLane))
            && (!midBatch && NeverMidBatch(s.log) ==> NeverMidBatch(v.log))
  {
    hide Frames, OnBoundary, Encodable, Encoding, TickStep, Aligned, NeverMidBatch, LogOk, BulkBytes, PrioFrames, Lane, PrioLane, Prompt;
    PoppedNext(s, p, prioLane);
    PoppedAt(s, p, prioLane);
    if Encodable(p.frame) && s.writesLeft > 0 {
      var u := PrioWritten(s, p, midBatch, lane, prioLane);
      TickKeeps(u);
    }
  }

  lemma PoppedAt(s: State, p: Parked, prioLane: seq<Frame>)
    requires Popped(s, p, prioLane)
    ensures p.at <= s.chunksWritten
  {
  }

  lemma {:induction false} DrainPrioKeeps(s: State, midBatch: bool, lane: seq<Frame>, prioLane: seq<Frame>)
    requires Inv(s, lane, prioLane) && (!midBatch ==> OnBoundary(s.log, lane))
    ensures var (v, ok) := DrainPrioStep(s, midBatch);
            && BulkBytes(v.log) == BulkBytes(s.log) && v.taken == s.taken && !v.spill.OfBulk?
            && (ok ==> Inv(v, lane, prioLane) && v.prio == [])
            && (!ok ==> Halted(v, lane, prioLane) && Excused(v, lane, prioLane))
            && (!midBatch && NeverMidBatch(s.log) ==> NeverMidBatch(v.log))
    decreases |s.future|, |s.prio|
  {
    hide LogOk, Aligned, NeverMidBatch, Lane, PrioLane, Prompt, Popped, Halted, Excused, BulkBytes, PopStep, PrioStep;
    PopKeeps(s);
    var (v, p) := PopStep(s);
    if p.Some? {
      PrioKeeps(v, p.value, midBatch, lane, prioLane);
      var (u, ok) := PrioStep(v, p.value, midBatch);
      if ok {
        SameBulk(v.log, u.log, lane);
        DrainPrioKeeps(u, midBatch, lane, prioLane);
      }
    }
  }

  lemma SameBulk(a: seq<Write>, b: seq<Write>, lane: seq<Frame>)
    requires BulkBytes(a) == BulkBytes(b)
    ensures OnBoundary(a, lane) <==> OnBoundary(b, lane)
  {
  }

  lemma BulkKeeps(s: State, chunk: Bytes, lane: seq<Frame>, prioLane: seq<Frame>)
    requires Inv(s, lane, prioLane) && s.prio == [] && 0 < |chunk| <= OUTBOUND_WRITE_CHUNK
    ensures var (v, ok) := BulkStep(s, chunk);
            && v.taken == s.taken && (NeverMidBatch(s.log) ==> NeverMidBatch(v.log))
            && (ok ==> Inv(v, lane, prioLane) && BulkBytes(v.log) == BulkBytes(s.log) + chunk)
            && (!ok ==> Halted(v, lane, prioLane) && v.spill.OfBulk? && v.writesLeft == 0 && v.log == s.log && v.spill.front <= chunk)
  {
    hide Frames, TickStep, LogOk, Aligned, NeverMidBatch;
    TickKeeps(s);
    var u := TickStep(s).0;
    assert PrioFrames(u.log) <= prioLane;
    if u.writesLeft > 0 {
      LogSnoc(u.log, BulkChunk(chunk));
      LogGrows(u.log, BulkChunk(chunk), lane);
      assert PrioFrames(u.log) + [] == PrioFrames(u.log);
    }
  }

  lemma {:induction false} CommitKeeps(s: State, base: Bytes, committed: Bytes, failed: bool, off: nat,
                                       lane: seq<Frame>, prioLane: seq<Frame>)
    requires Inv(s, lane, prioLane) && off <= |committed| && BulkBytes(s.log) == base + committed[..off]
    requires (off == 0 ==> OnBoundary(s.log, lane)) && (failed ==> off == 0)
    ensures var (v, ok) := CommitStep(s, committed, failed, off);
            && v.taken == s.taken
            && (ok ==> !failed && Inv(v, lane, prioLane) && BulkBytes(v.log) == base + committed)
            && (!ok ==> Halted(v, lane, prioLane) && BulkOut(v) <= base + committed && (failed || Excused(v, lane, prioLane)))
            && (|committed| <= OUTBOUND_WRITE_CHUNK && (off == 0 || off == |committed|) && NeverMidBatch(s.log) ==>
                  NeverMidBatch(v.log))
    decreases |committed| - off
  {
    hide LogOk, Aligned, OnBoundary, NeverMidBatch, Lane, PrioLane, Prompt, BulkBytes, DrainPrioStep, BulkStep;
    if off == |committed| {
      assert committed[..off] == committed;
      StoppedClean(s, lane, prioLane);
    } else {
      DrainPrioKeeps(s, off > 0, lane, prioLane);
      var (v, clean) := DrainPrioStep(s, off > 0);
      assert BulkBytes(v.log) + [] == BulkBytes(v.log);
      if clean { StoppedClean(v, lane, prioLane); }
      if !failed && clean {
        var end := CutEnd(off, |committed|);
        BulkKeeps(v, committed[off..end], lane, prioLane);
        ChunkStep(base, committed, off, end);
        var (u, sent) := BulkStep(v, committed[off..end]);
        if sent {
          CommitKeeps(u, base, committed, failed, end, lane, prioLane);
        } else {
          FrontOfRest(base, committed, off, end, u.spill.front);
        }
      }
    }
  }

  lemma StoppedClean(s: State, lane: seq<Frame>, prioLane: seq<Frame>)
    requires Inv(s, lane, prioLane)
    ensures Halted(s, lane, prioLane) && BulkOut(s) == BulkBytes(s.log)
  {
  }

  lemma FrontOfRest(base: Bytes, committed: Bytes, off: nat, end: nat, front: Bytes)
    requires off <= end <= |committed| && front <= committed[off..end]
    ensures base + committed[..off] + front <= base + committed
  {
    assert committed == committed[..off] + (committed[off..end] + committed[end..]);
  }

  /** The last frame of a batch was added while the batch was still short of its limit. */
  ghost predicate GrewWhileSmall(done: seq<Frame>, good: seq<Frame>, c: Bytes) {
    |good| > |done| + 1 ==>
      Encodable(good[|good| - 1]) && |c| < OUTBOUND_BATCH_BYTES + |Encoding(good[|good| - 1])|
  }

  /** What coalescing comes to: `good` are the frames taken so far that make the batch. */
  ghost predicate Gathered(s: State, done: seq<Frame>, r: (State, Bytes, bool), good: seq<Frame>)
    requires AllEncodable(done)
  {
    && Prompt(r.0, 1) && Lane(r.0) == Lane(s) && PrioLane(r.0) == PrioLane(s) && SameOut(s, r.0)
    && done <= good <= r.0.taken && |good| <= |done| + OUTBOUND_BATCH_FRAMES && GrewWhileSmall(done, good, r.1)
    && AllEncodable(good) && Encodings(good) == Encodings(done) + r.1
    && (!r.2 ==> good == r.0.taken)
    && (r.2 ==> !AllEncodable(r.0.taken))
  }

  /** Coalescing takes a run of frames; all but a last unencodable one make the batch. */
  lemma {:induction false} CoalesceKeeps(s: State, done: seq<Frame>, committed: Bytes, queued: nat) returns (good: seq<Frame>)
    requires Prompt(s, 1) && AllEncodable(done) && AllEncodable(s.taken) && done <= s.taken
    requires Encodings(s.taken) == Encodings(done) + committed
    requires |s.taken| <= |done| + queued <= |done| + OUTBOUND_BATCH_FRAMES && GrewWhileSmall(done, s.taken, committed)
    ensures Gathered(s, done, CoalesceStep(s, committed, queued), good)
    decreases OUTBOUND_BATCH_FRAMES - queued
  {
    hide Encodable, Encoding, Encodings, TickStep, TryRecvStep, Lane, PrioLane, Prompt;
    good := s.taken;
    if queued < OUTBOUND_BATCH_FRAMES && |committed| < OUTBOUND_BATCH_BYTES {
      TickKeeps(s);
      var (v, pending) := TickStep(s);
      if !pending {
        TryRecvKeeps(v);
        var (u, next) := TryRecvStep(v);
        if next.Some? && Encodable(next.value) {
          EncodingsSnoc(s.taken, next.value);
          Assoc(Encodings(done), committed, Encoding(next.value));
          good := CoalesceKeeps(u, done, committed + Encoding(next.value), queued + 1);
        } else if next.Some? {
          assert u.taken[|s.taken|] == next.value;
        }
      }
    }
  }

  lemma BatchKeeps(s: State, done: seq<Frame>, first: Frame) returns (good: seq<Frame>)
    requires Prompt(s, 1) && AllEncodable(done) && s.taken == done + [first]
    ensures Gathered(s, done, BatchStep(s, first), good)
  {
    hide Encodable, Encoding, Encodings, CoalesceStep, Lane, PrioLane, Prompt;
    if Encodable(first) {
      EncodingsSnoc(done, first);
      good := CoalesceKeeps(s, done, Encoding(first), 1);
    } else {
      good := done;
      assert Encodings(done) + [] == Encodings(done) && s.taken[|done|] == first;
    }
  }

  lemma {:induction false} EncodingsSplit(fs: seq<Frame>, k: nat)
    requires AllEncodable(fs) && k <= |fs|
    ensures AllEncodable(fs[..k]) && AllEncodable(fs[k..])
    ensures Encodings(fs) == Encodings(fs[..k]) + Encodings(fs[k..])
    ensures |Encodings(fs[k..])| >= |fs| - k
    decreases |fs| - k
  {
    hide Encodable, Encoding;
    if k == |fs| {
      assert fs[..k] == fs;
      assert Encodings(fs) + [] == Encodings(fs);
    } else {
      EncodingsSplit(fs, k + 1);
      assert fs[..k + 1] == fs[..k] + [fs[k]];
      EncodingsSnoc(fs[..k], fs[k]);
      EncodingLength(fs[k]);
      assert fs[k..][0] == fs[k] && fs[k..][1..] == fs[k + 1..];
      Assoc(Encodings(fs[..k]), Encoding(fs[k]), Encodings(fs[k + 1..]));
    }
  }

  /** A batch is the encoding of a run of at most 64 frames of the lane. */
  lemma BatchIsRun(lane: seq<Frame>, done: seq<Frame>, good: seq<Frame>, c: Bytes)
    requires done <= good <= lane && AllEncodable(done) && AllEncodable(good)
    requires Encodings(good) == Encodings(done) + c && |good| <= |done| + OUTBOUND_BATCH_FRAMES
    ensures SmallBatches(lane) ==> |c| <= OUTBOUND_WRITE_CHUNK
  {
    hide Encodable, Encodings;
    var i, j := |done|, |good|;
    EncodingsSplit(good, i);
    assert good[..i] == done && good[i..] == lane[i..j];
    assert AllEncodable(lane[i..j]);
  }

  lemma {:induction false} DriveKeeps(s: State, lane: seq<Frame>, prioLane: seq<Frame>)
    requires Inv(s, lane, prioLane) && AllEncodable(s.taken) && BulkBytes(s.log) == Encodings(s.taken)
    requires SmallBatches(lane) ==> NeverMidBatch(s.log)
    ensures Driven(DriveStep(s).0, DriveStep(s).1, lane, prioLane)
    decreases Left(s)
  {
    hide Encodable, Encoding, Encodings, LogOk, Aligned, OnBoundary, NeverMidBatch, SmallBatches, Lane, PrioLane, Prompt,
         Popped, AnyStep, PrioStep, BatchStep, CommitStep, Driven, BulkBytes;
    AnyKeeps(s);
    Boundary(s.log, s.taken, lane) by { TakenFirst(s); }
    var (v, item) := AnyStep(s);
    if item.BulkClosed? {
      LanesOut(v);
      DrivenClean(v, lane, prioLane);
    } else if item.Priority? {
      PrioKeeps(v, item.parked, false, lane, prioLane);
      var (u, ok) := PrioStep(v, item.parked, false);
      if ok {
        DriveKeeps(u, lane, prioLane);
      } else {
        TakenFirst(s);
        DrivenBroken(u, lane, prioLane, s.taken);
      }
    } else {
      var good := BatchKeeps(v, s.taken, item.frame);
      var (u, committed, failed) := BatchStep(v, item.frame);
      TakenFirst(u);
      if failed { SomeBad(u.taken, lane); }
      BatchIsRun(lane, s.taken, good, committed);
      assert committed[..0] == [] && Encodings(s.taken) + [] == Encodings(s.taken);
      CommitKeeps(u, Encodings(s.taken), committed, failed, 0, lane, prioLane);
      var (t, ok) := CommitStep(u, committed, failed, 0);
      if ok {
        DriveKeeps(t, lane, prioLane);
      } else {
        DrivenBroken(t, lane, prioLane, good);
      }
    }
  }

  lemma SomeBad(front: seq<Frame>, lane: seq<Frame>)
    requires front <= lane && !AllEncodable(front)
    ensures !AllEncodable(lane)
  {
    var i :| 0 <= i < |front| && !Encodable(front[i]);
    assert lane[i] == front[i];
  }

  lemma TakenFirst(s: State)
    ensures s.taken <= Lane(s)
  {
  }

  lemma LanesOut(s: State)
    requires s.bulk == [] && s.prio == [] && s.future == []
    ensures Lane(s) == s.taken && PrioLane(s) == PrioFrames(s.log)
  {
  }

  lemma DrivenClean(s: State, lane: seq<Frame>, prioLane: seq<Frame>)
    requires LogOk(s.log) && Aligned(s.log, lane) && s.spill == Nothing && AllEncodable(lane)
    requires BulkBytes(s.log) == Encodings(lane) && PrioFrames(s.log) == prioLane
    requires SmallBatches(lane) ==> NeverMidBatch(s.log)
    ensures Driven(s, true, lane, prioLane)
  {
  }

  lemma DrivenBroken(s: State, lane: seq<Frame>, prioLane: seq<Frame>, good: seq<Frame>)
    requires Halted(s, lane, prioLane) && Excused(s, lane, prioLane) && good <= lane && AllEncodable(good) && BulkOut(s) <= Encodings(good)
    requires SmallBatches(lane) ==> NeverMidBatch(s.log)
    ensures Driven(s, false, lane, prioLane)
  {
  }

  /** THE writer's laws, for every pattern of arrivals, every hint and every socket. */
  lemma DriveLaws(s: State)
    requires Fresh(s)
    ensures Driven(DriveStep(s).0, DriveStep(s).1, Lane(s), PrioLane(s))
  {
    hide SmallBatches, DriveStep;
    DriveKeeps(s, Lane(s), PrioLane(s));
  }

  /** Frames of at most 1 KiB on the wire make small batches, and so does a lane that
      fits one commit chunk altogether. */
  lemma SmallFrames(lane: seq<Frame>)
    requires AllEncodable(lane)
    requires (forall f :: f in lane ==> |Encoding(f)| <= 1024) || |Encodings(lane)| <= OUTBOUND_WRITE_CHUNK
    ensures SmallBatches(lane)
  {
    hide Encoding, Encodable, Encodings;
    forall i, j | 0 <= i <= j <= |lane| && j - i <= OUTBOUND_BATCH_FRAMES && AllEncodable(lane[i..j])
      ensures |Encodings(lane[i..j])| <= OUTBOUND_WRITE_CHUNK
    {
      if forall f :: f in lane ==> |Encoding(f)| <= 1024 {
        EncodingsLen(lane[i..j], 1024);
      } else {
        EncodingsSplit(lane, j);
        EncodingsSplit(lane[..j], i);
        assert lane[..j][i..] == lane[i..j];
      }
    }
  }

  lemma {:induction false} EncodingsLen(fs: seq<Frame>, m: nat)
    requires AllEncodable(fs) && forall f :: f in fs ==> |Encoding(f)| <= m
    ensures |Encodings(fs)| <= |fs| * m
  {
    hide Encoding, Encodable;
    if fs != [] {
      EncodingsLen(fs[1..], m);
      assert |fs| * m == (|fs| - 1) * m + m;
    }
  }

  lemma ChunkStep(base: Bytes, b: Bytes, off: nat, end: nat)
    requires off <= end <= |b|
    ensures base + b[..off] + b[off..end] == base + b[..end] && base + b[..0] == base
  {
    assert b[..end] == b[..off] + b[off..end];
  }

  lemma Boundary(log: seq<Write>, done: seq<Frame>, lane: seq<Frame>)
    requires done <= lane && AllEncodable(done) && BulkBytes(log) == Encodings(done)
    ensures OnBoundary(log, lane)
  {
  }
}
