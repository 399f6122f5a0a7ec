/** Runs of the writer that put a priority frame at any commit cut one likes: the other
    half of where it may put them. */
module CuttingRuns {
  import opened Bytes
  import opened Messages
  import opened FrameCodec
  import opened Transport
  import opened Writer
  import opened WriterCuts
  import opened WriterProofs

  /** So many polls at which nobody arrives. */
  function Idle(n: nat): seq<Arrival> { seq(n, _ => NOBODY) }

  lemma IdleOne(n: nat, later: seq<Arrival>)
    ensures Idle(0) + later == later
    ensures n > 0 ==> Idle(n) + later != [] && (Idle(n) + later)[0] == NOBODY && (Idle(n) + later)[1..] == Idle(n - 1) + later
  {
  }

  /** Polls made while `rest` octets of a batch are written with nobody arriving. */
  function Polls(rest: nat): nat {
    if rest == 0 then 0 else if rest <= OUTBOUND_WRITE_CHUNK then 2 else 2 + Polls(rest - OUTBOUND_WRITE_CHUNK)
  }

  /** The writer has moved on quietly: `out` went out on the bulk lane and nothing else. */
  ghost predicate Quietly(s: State, v: State, later: seq<Arrival>, out: Bytes) {
    && v.bulk == [] && v.prio == [] && v.future == later && v.spill == s.spill
    && BulkBytes(v.log) == BulkBytes(s.log) + out && v.writesLeft + |out| >= s.writesLeft
  }

  /** The cut after `off` is no later than `stop`, and the polls up to it are two. */
  lemma NextCut(off: nat, stop: nat, len: nat)
    requires off < stop <= len && (stop == len || (stop - off) % OUTBOUND_WRITE_CHUNK == 0)
    ensures var end := CutEnd(off, len);
            end <= stop && (stop == len || (stop - end) % OUTBOUND_WRITE_CHUNK == 0) && Polls(stop - off) == 2 + Polls(stop - end)
  {
  }

  /** One chunk is written while nobody arrives. */
  lemma IdleChunk(s: State, committed: Bytes, off: nat, end: nat, others: seq<Arrival>) returns (u: State)
    requires s.prio == [] && off < |committed| && end == CutEnd(off, |committed|) && s.writesLeft > 0
    requires s.future == Idle(2) + others
    ensures CommitStep(s, committed, false, off) == CommitStep(u, committed, false, end)
         && u == s.(future := others, log := s.log + [BulkChunk(committed[off..end])], writesLeft := s.writesLeft - 1,
                    chunksWritten := s.chunksWritten + 1)
  {
    hide DrainPrioStep, BulkStep, CommitStep, Idle;
    var one := [NOBODY] + others;
    TwoIdle(s.future, others);
    IdleDrain(s, off > 0);
    var d := s.(future := one);
    IdleBulk(d, committed[off..end]);
    u := BulkStep(d, committed[off..end]).0;
    CommitChunk(s, d, committed, off, u);
  }

  lemma TwoIdle(future: seq<Arrival>, others: seq<Arrival>)
    requires future == Idle(2) + others
    ensures var one := [NOBODY] + others;
            future != [] && future[0] == NOBODY && future[1..] == one && one[0] == NOBODY && one[1..] == others
  {
  }

  lemma IdleSplit(n: nat, later: seq<Arrival>)
    ensures Idle(n + 2) + later == Idle(2) + (Idle(n) + later)
  {
  }

  /** Nobody arriving, a batch is written quietly as far as a later cut, or to its end. */
  lemma {:induction false} IdleCommit(s: State, committed: Bytes, off: nat, stop: nat, later: seq<Arrival>) returns (v: State)
    requires s.bulk == [] && s.prio == [] && off <= stop <= |committed| && s.writesLeft >= stop - off
    requires stop == |committed| || (stop - off) % OUTBOUND_WRITE_CHUNK == 0
    requires s.future == Idle(Polls(stop - off)) + later
    ensures CommitStep(s, committed, false, off) == CommitStep(v, committed, false, stop)
         && Quietly(s, v, later, committed[off..stop]) && v.taken == s.taken
    decreases stop - off
  {
    hide CommitStep, BulkBytes, Idle;
    if off == stop {
      v := s;
      IdleOne(0, later);
      assert BulkBytes(s.log) + [] == BulkBytes(s.log);
    } else {
      var end := CutEnd(off, |committed|);
      NextCut(off, stop, |committed|);
      IdleSplit(Polls(stop - end), later);
      var u := IdleChunk(s, committed, off, end, Idle(Polls(stop - end)) + later);
      LogSnoc(s.log, BulkChunk(committed[off..end]));
      v := IdleCommit(u, committed, end, stop, later);
      assert committed[off..stop] == committed[off..end] + committed[end..stop];
      Assoc(BulkBytes(s.log), committed[off..end], committed[end..stop]);
    }
  }

  /** Polls made while the frames `run`, already in the queue, join a batch. */
  function GatherPolls(size: nat, queued: nat, run: seq<Frame>): nat
    requires AllEncodable(run)
    decreases |run|
  {
    if queued >= OUTBOUND_BATCH_FRAMES || size >= OUTBOUND_BATCH_BYTES then 0
    else if run == [] then 2
    else 2 + GatherPolls(size + |Encoding(run[0])|, queued + 1, run[1..])
  }

  ghost predicate FitsBatch(size: nat, run: seq<Frame>)
    requires AllEncodable(run)
  {
    run != [] ==> AllEncodable(run[..|run| - 1]) && size + |Encodings(run[..|run| - 1])| < OUTBOUND_BATCH_BYTES
  }

  lemma FitsRest(size: nat, run: seq<Frame>)
    requires AllEncodable(run) && run != [] && FitsBatch(size, run)
    ensures AllEncodable(run[1..]) && FitsBatch(size + |Encoding(run[0])|, run[1..]) && size < OUTBOUND_BATCH_BYTES
  {
    hide Encodable, Encoding;
    var rest := run[1..];
    if rest != [] {
      var front := run[..|run| - 1];
      assert front[0] == run[0] && front[1..] == rest[..|rest| - 1];
    }
  }

  /** Two polls at which nobody arrives: the batch takes the next frame, or ends. */
  lemma GatherOne(s: State, c: Bytes, queued: nat, others: seq<Arrival>)
    requires queued < OUTBOUND_BATCH_FRAMES && |c| < OUTBOUND_BATCH_BYTES && s.future == Idle(2) + others
    requires s.bulk != [] ==> Encodable(s.bulk[0])
    ensures var u := s.(future := others);
            CoalesceStep(s, c, queued) == if s.bulk == [] then (u, c, false)
                                          else CoalesceStep(TakeStep(u), c + Encoding(s.bulk[0]), queued + 1)
  {
    hide Encodable, Encoding, TickStep;
    IdleOne(2, others);
    TickEmpty(s);
    var v := s.(future := Idle(1) + others);
    IdleOne(1, others);
    IdleOne(0, others);
    TickEmpty(v);
  }

  /** With nobody else arriving the queued run becomes the batch. */
  lemma {:induction false} GatherRun(s: State, c: Bytes, queued: nat, run: seq<Frame>, later: seq<Arrival>)
    requires AllEncodable(run) && FitsBatch(|c|, run) && queued + |run| <= OUTBOUND_BATCH_FRAMES
    requires s.bulk == run && s.prio == [] && s.future == Idle(GatherPolls(|c|, queued, run)) + later
    ensures CoalesceStep(s, c, queued) == (s.(bulk := [], taken := s.taken + run, future := later), c + Encodings(run), false)
    decreases |run|
  {
    hide Encodable, Encoding, Idle, FitsBatch, CoalesceStep;
    if run == [] {
      assert s.taken + [] == s.taken && c + [] == c;
      IdleOne(0, later);
      if queued < OUTBOUND_BATCH_FRAMES && |c| < OUTBOUND_BATCH_BYTES {
        GatherOne(s, c, queued, later);
      } else {
        GatherFull(s, c, queued);
      }
    } else {
      FitsRest(|c|, run);
      var next := c + Encoding(run[0]);
      var n := GatherPolls(|next|, queued + 1, run[1..]);
      IdleSplit(n, later);
      GatherOne(s, c, queued, Idle(n) + later);
      var w := TakeStep(s.(future := Idle(n) + later));
      GatherRun(w, next, queued + 1, run[1..], later);
      assert run == [run[0]] + run[1..];
      Assoc(s.taken, [run[0]], run[1..]);
      Assoc(c, Encoding(run[0]), Encodings(run[1..]));
    }
  }

  lemma GatherFull(s: State, c: Bytes, queued: nat)
    requires queued >= OUTBOUND_BATCH_FRAMES || |c| >= OUTBOUND_BATCH_BYTES
    ensures CoalesceStep(s, c, queued) == (s, c, false)
  {
  }

  /** Arrivals that make one batch of `batch`, and the polls while it is gathered. */
  function BatchArrivals(batch: seq<Frame>): seq<Arrival>
    requires batch != [] && AllEncodable(batch) && AllEncodable(batch[1..])
  {
    [Arrival(batch, [], false)] + Idle(GatherPolls(|Encoding(batch[0])|, 1, batch[1..]))
  }

  lemma FitsFirst(batch: seq<Frame>)
    requires batch != [] && AllEncodable(batch) && AllEncodable(batch[1..])
    requires AllEncodable(batch[..|batch| - 1]) && |Encodings(batch[..|batch| - 1])| < OUTBOUND_BATCH_BYTES
    ensures FitsBatch(|Encoding(batch[0])|, batch[1..]) && Encodings(batch) == Encoding(batch[0]) + Encodings(batch[1..])
  {
    hide Encodable, Encoding;
    var rest := batch[1..];
    if rest != [] {
      var front := batch[..|batch| - 1];
      assert front[0] == batch[0] && front[1..] == rest[..|rest| - 1];
    }
  }

  /** The batch is taken and gathered, and the writer goes on to commit it. */
  lemma BatchDrive(s: State, batch: seq<Frame>, later: seq<Arrival>) returns (v: State)
    requires s.bulk == [] && s.prio == [] && batch != [] && AllEncodable(batch) && AllEncodable(batch[1..])
    requires |batch| <= OUTBOUND_BATCH_FRAMES && AllEncodable(batch[..|batch| - 1])
    requires |Encodings(batch[..|batch| - 1])| < OUTBOUND_BATCH_BYTES
    requires s.future == BatchArrivals(batch) + later
    ensures v == s.(taken := s.taken + batch, future := later)
         && DriveStep(s) == (var (u, ok) := CommitStep(v, Encodings(batch), false, 0); if ok then DriveStep(u) else (u, false))
  {
    hide Encodable, Encoding, Encodings, CoalesceStep, CommitStep, AnyStep, BatchArrivals, GatherPolls, Idle;
    var rest := batch[1..];
    var taken := BatchTaken(s, batch, later);
    FitsFirst(batch);
    GatherRun(taken, Encoding(batch[0]), 1, rest, later);
    v := taken.(bulk := [], taken := taken.taken + rest, future := later);
    assert batch == [batch[0]] + rest;
    Assoc(s.taken, [batch[0]], rest);
    assert BatchStep(taken, batch[0]) == (v, Encodings(batch), false);
  }

  /** The frames arrive and the first is taken. */
  lemma BatchTaken(s: State, batch: seq<Frame>, later: seq<Arrival>) returns (taken: State)
    requires s.bulk == [] && s.prio == [] && batch != [] && AllEncodable(batch) && AllEncodable(batch[1..])
    requires s.future == BatchArrivals(batch) + later
    ensures taken == s.(bulk := batch[1..], taken := s.taken + [batch[0]],
                        future := Idle(GatherPolls(|Encoding(batch[0])|, 1, batch[1..])) + later)
         && AnyStep(s) == (taken, Bulk(batch[0]))
  {
    hide Encodable, Encoding, GatherPolls, Idle;
    var polls := Idle(GatherPolls(|Encoding(batch[0])|, 1, batch[1..]));
    assert s.future[0] == Arrival(batch, [], false) && s.future[1..] == polls + later;
    var got := s.(bulk := batch, future := polls + later);
    assert TickStep(s).0 == got by { assert [] + batch == batch && Stamp([], s.chunksWritten) == []; }
    assert PopStep(s) == (got, None);
    taken := TakeStep(got);
  }

  function SoloArrivals(f: Frame): seq<Arrival>
    requires Encodable(f)
  {
    BatchArrivals([f]) + Idle(Polls(|Encoding(f)|))
  }

  function AllSolo(fs: seq<Frame>): seq<Arrival>
    requires AllEncodable(fs)
  {
    if fs == [] then [] else SoloArrivals(fs[0]) + AllSolo(fs[1..])
  }

  /** One frame arrives alone and goes out alone. */
  lemma SoloDrive(s: State, f: Frame, others: seq<Arrival>) returns (u: State)
    requires Encodable(f) && s.bulk == [] && s.prio == [] && s.writesLeft >= |Encoding(f)|
    requires s.future == SoloArrivals(f) + others
    ensures DriveStep(s) == DriveStep(u) && Quietly(s, u, others, Encoding(f))
  {
    hide Encodable, Encoding, BulkBytes, CommitStep, DriveStep;
    var enc, polls := Encoding(f), Idle(Polls(|Encoding(f)|));
    assert s.future == BatchArrivals([f]) + (polls + others);
    assert [f][1..] == [] && [f][..0] == [] && Encodings([f]) == enc + [] == enc;
    var b := BatchDrive(s, [f], polls + others);
    u := IdleCommit(b, enc, 0, |enc|, others);
    assert enc[0..|enc|] == enc;
    CommitDone(u, enc);
  }

  /** Frames that arrive one at a time go out one at a time. */
  lemma {:induction false} SolosDrive(s: State, fs: seq<Frame>, later: seq<Arrival>) returns (v: State)
    requires AllEncodable(fs) && s.bulk == [] && s.prio == [] && s.writesLeft >= |Encodings(fs)|
    requires s.future == AllSolo(fs) + later
    ensures DriveStep(s) == DriveStep(v) && Quietly(s, v, later, Encodings(fs))
    decreases |fs|
  {
    hide Encodable, Encoding, BulkBytes, DriveStep, SoloArrivals;
    if fs == [] {
      v := s;
      assert [] + later == later && BulkBytes(s.log) + [] == BulkBytes(s.log);
    } else {
      Assoc(SoloArrivals(fs[0]), AllSolo(fs[1..]), later);
      var u := SoloDrive(s, fs[0], AllSolo(fs[1..]) + later);
      v := SolosDrive(u, fs[1..], later);
      Assoc(BulkBytes(s.log), Encoding(fs[0]), Encodings(fs[1..]));
    }
  }

  lemma CommitDone(s: State, committed: Bytes)
    ensures CommitStep(s, committed, false, |committed|) == (s, true)
  {
  }

  // ------------------------------------------------------- the log only grows

  lemma PrioGrows(s: State, p: Parked, midBatch: bool)
    ensures s.log <= PrioStep(s, p, midBatch).0.log
  {
    hide Encodable, Encoding;
  }

  lemma {:induction false} DrainPrioGrows(s: State, midBatch: bool)
    ensures s.log <= DrainPrioStep(s, midBatch).0.log
    decreases |s.future|, |s.prio|
  {
    hide PrioStep;
    var (v, p) := PopStep(s);
    if p.Some? {
      PrioGrows(v, p.value, midBatch);
      var (u, ok) := PrioStep(v, p.value, midBatch);
      if ok { DrainPrioGrows(u, midBatch); }
    }
  }

  lemma {:induction false} CommitGrows(s: State, committed: Bytes, failed: bool, off: nat)
    requires off <= |committed|
    ensures s.log <= CommitStep(s, committed, failed, off).0.log
    decreases |committed| - off
  {
    hide DrainPrioStep;
    if off < |committed| {
      DrainPrioGrows(s, off > 0);
      var (v, clean) := DrainPrioStep(s, off > 0);
      if !failed && clean {
        var end := CutEnd(off, |committed|);
        var (u, sent) := BulkStep(v, committed[off..end]);
        if sent { CommitGrows(u, committed, failed, end); }
      }
    }
  }

  lemma {:induction false} AnyKeepsLog(s: State)
    ensures AnyStep(s).0.log == s.log
    decreases |s.future|
  {
    var (v, p) := PopStep(s);
    if p.None? && v.bulk == [] && s.future != [] { AnyKeepsLog(v); }
  }

  lemma TickLog(s: State)
    ensures TickStep(s).0.log == s.log
  {
  }

  lemma TryRecvLog(s: State)
    ensures TryRecvStep(s).0.log == s.log
  {
  }

  lemma {:induction false} CoalesceKeepsLog(s: State, c: Bytes, queued: nat)
    ensures CoalesceStep(s, c, queued).0.log == s.log
    decreases OUTBOUND_BATCH_FRAMES - queued
  {
    hide Encodable, Encoding, TickStep, TryRecvStep;
    if queued < OUTBOUND_BATCH_FRAMES && |c| < OUTBOUND_BATCH_BYTES {
      TickLog(s);
      var (v, pending) := TickStep(s);
      if !pending {
        TryRecvLog(v);
        var (u, next) := TryRecvStep(v);
        if next.Some? && Encodable(next.value) { CoalesceKeepsLog(u, c + Encoding(next.value), queued + 1); }
      }
    }
  }

  lemma {:induction false} DriveGrows(s: State)
    ensures s.log <= DriveStep(s).0.log
    decreases Left(s)
  {
    hide AnyStep, PrioStep, CommitStep, CoalesceStep, Encodable, Encoding;
    AnyKeepsLog(s);
    var (v, item) := AnyStep(s);
    if item.Priority? {
      PrioGrows(v, item.parked, false);
      var (u, ok) := PrioStep(v, item.parked, false);
      if ok { DriveGrows(u); }
    } else if item.Bulk? {
      if Encodable(item.frame) { CoalesceKeepsLog(v, Encoding(item.frame), 1); }
      var (u, committed, failed) := BatchStep(v, item.frame);
      CommitGrows(u, committed, failed, 0);
      var (t, ok) := CommitStep(u, committed, failed, 0);
      if ok { DriveGrows(t); }
    }
  }

  // ------------------------------------------------------- a frame at the cut

  /** A priority frame that arrives at a cut is written there. */
  lemma PrioAtCut(s: State, committed: Bytes, off: nat, p: Frame, later: seq<Arrival>)
    requires 0 < off < |committed| && s.bulk == [] && s.prio == [] && Encodable(p) && s.writesLeft > 0
    requires s.future == [Arrival([], [p], false)] + later
    ensures s.log + [PrioWrite(p, 0, true)] <= CommitStep(s, committed, false, off).0.log
  {
    hide Encodable, Encoding;
    var at := Parked(p, s.chunksWritten);
    assert s.future[0] == Arrival([], [p], false) && s.future[1..] == later;
    var v := s.(future := later);
    assert TickStep(s).0 == v.(prio := [at]) by { assert [] + Stamp([p], s.chunksWritten) == [at]; }
    assert PopStep(s) == (v, Some(at)) by { assert [at][1..] == []; }
    var u := PrioStep(v, at, true).0;
    assert u.log == s.log + [PrioWrite(p, 0, true)];
    DrainPrioGrows(u, true);
    var (d, clean) := DrainPrioStep(s, true);
    assert u.log <= d.log;
    if clean {
      var end := CutEnd(off, |committed|);
      var (w, sent) := BulkStep(d, committed[off..end]);
      if sent { CommitGrows(w, committed, false, end); }
    }
  }

  lemma {:induction false} FutureBulkAppend(a: seq<Arrival>, b: seq<Arrival>)
    ensures FutureBulk(a + b) == FutureBulk(a) + FutureBulk(b)
  {
    if a == [] {
      assert a + b == b;
    } else {
      FutureBulkAppend(a[1..], b);
      assert (a + b)[0] == a[0] && (a + b)[1..] == a[1..] + b;
      Assoc(a[0].bulk, FutureBulk(a[1..]), FutureBulk(b));
    }
  }

  lemma {:induction false} IdleCarries(n: nat)
    ensures FutureBulk(Idle(n)) == []
  {
    if n > 0 {
      IdleCarries(n - 1);
      assert Idle(n)[1..] == Idle(n - 1);
    }
  }

  lemma BatchCarries(batch: seq<Frame>)
    requires batch != [] && AllEncodable(batch) && AllEncodable(batch[1..])
    ensures FutureBulk(BatchArrivals(batch)) == batch
  {
    hide Encodable, Encoding;
    var n := GatherPolls(|Encoding(batch[0])|, 1, batch[1..]);
    IdleCarries(n);
    FutureBulkAppend([Arrival(batch, [], false)], Idle(n));
    OneArrival(Arrival(batch, [], false));
  }

  lemma OneArrival(a: Arrival)
    ensures FutureBulk([a]) == a.bulk
  {
    assert [a][1..] == [] && a.bulk + [] == a.bulk;
  }

  lemma {:induction false} SolosCarry(fs: seq<Frame>)
    requires AllEncodable(fs)
    ensures FutureBulk(AllSolo(fs)) == fs
  {
    hide Encodable, Encoding, FutureBulk;
    if fs == [] {
      assert FutureBulk([]) == [] by { IdleCarries(0); assert Idle(0) == []; }
    } else {
      var n := Polls(|Encoding(fs[0])|);
      BatchCarries([fs[0]]);
      IdleCarries(n);
      FutureBulkAppend(BatchArrivals([fs[0]]), Idle(n));
      FutureBulkAppend(SoloArrivals(fs[0]), AllSolo(fs[1..]));
      SolosCarry(fs[1..]);
      assert fs == [fs[0]] + fs[1..];
    }
  }

  /** Frames before the batch one at a time, then the batch, a heartbeat at its cut, and
      the other frames at last. */
  function CutArrivals(lane: seq<Frame>, i: nat, j: nat, t: nat): seq<Arrival>
    requires i < j <= |lane| && AllEncodable(lane[..i]) && AllEncodable(lane[i..j]) && AllEncodable(lane[i..j][1..])
  {
    AllSolo(lane[..i]) + (BatchArrivals(lane[i..j]) + (Idle(Polls(Cut(t)))
      + ([Arrival([], [Heartbeat], false)] + [Arrival(lane[j..], [], false)])))
  }

  lemma CutCarries(lane: seq<Frame>, i: nat, j: nat, t: nat)
    requires i < j <= |lane| && AllEncodable(lane[..i]) && AllEncodable(lane[i..j]) && AllEncodable(lane[i..j][1..])
    ensures FutureBulk(CutArrivals(lane, i, j, t)) == lane
  {
    hide FutureBulk, Encodable, AllSolo, BatchArrivals, Idle, Polls;
    var a, b, c := AllSolo(lane[..i]), BatchArrivals(lane[i..j]), Idle(Polls(Cut(t)));
    var d, e := [Arrival([], [Heartbeat], false)], [Arrival(lane[j..], [], false)];
    SolosCarry(lane[..i]);
    BatchCarries(lane[i..j]);
    IdleCarries(Polls(Cut(t)));
    OneArrival(d[0]);
    OneArrival(e[0]);
    FutureBulkAppend(d, e);
    FutureBulkAppend(c, d + e);
    FutureBulkAppend(b, c + (d + e));
    FutureBulkAppend(a, b + (c + (d + e)));
    LanePieces(lane, i, j);
  }

  lemma LanePieces(lane: seq<Frame>, i: nat, j: nat)
    requires i <= j <= |lane|
    ensures lane[..i] + (lane[i..j] + ([] + ([] + lane[j..]))) == lane
  {
    assert [] + ([] + lane[j..]) == lane[j..] && lane[i..j] + lane[j..] == lane[i..];
  }

  lemma PartsEncodable(lane: seq<Frame>, i: nat, j: nat)
    requires i < j <= |lane| && AllEncodable(lane[..j])
    ensures AllEncodable(lane[..i]) && AllEncodable(lane[i..j]) && AllEncodable(lane[i..j][1..])
    ensures lane[i..j][..j - i - 1] == lane[i..j - 1] && AllEncodable(lane[i..j - 1])
  {
    hide Encodable;
  }

  lemma FrontNoLonger(lane: seq<Frame>, k: nat, i: nat)
    requires k <= i <= |lane| && AllEncodable(lane[..i])
    ensures AllEncodable(lane[..k]) && |Encodings(lane[..k])| <= |Encodings(lane[..i])|
  {
    hide Encodable, Encodings;
    EncodingsSplit(lane[..i], k);
    assert lane[..i][..k] == lane[..k];
  }

  lemma FrontSplit(lane: seq<Frame>, i: nat, k: nat)
    requires i <= k <= |lane| && AllEncodable(lane[..k])
    ensures AllEncodable(lane[..i]) && AllEncodable(lane[i..k])
    ensures |Encodings(lane[..k])| == |Encodings(lane[..i])| + |Encodings(lane[i..k])|
  {
    hide Encodable, Encodings;
    EncodingsSplit(lane[..k], i);
    assert lane[..k][..i] == lane[..i] && lane[..k][i..] == lane[i..k];
  }

  lemma Between(lane: seq<Frame>, i: nat, k: nat, j: nat)
    requires i <= k <= j <= |lane| && AllEncodable(lane[i..j]) && AllEncodable(lane[i..k])
    ensures FallsBetween(lane[i..j], |Encodings(lane[i..k])|)
  {
    hide Encodable, Encodings;
    assert lane[i..j][..k - i] == lane[i..k];
  }

  /** Bytes that end inside a frame of the batch are no whole frames of the lane. */
  lemma InsideIsNotWhole(lane: seq<Frame>, i: nat, j: nat, off: nat)
    requires i < j <= |lane| && AllEncodable(lane[..j]) && AllEncodable(lane[..i]) && AllEncodable(lane[i..j])
    requires 0 < off < |Encodings(lane[i..j])| && !FallsBetween(lane[i..j], off)
    ensures !Whole(lane, Encodings(lane[..i]) + Encodings(lane[i..j])[..off])
  {
    hide Encodable, Encodings;
    var bytes := Encodings(lane[..i]) + Encodings(lane[i..j])[..off];
    if Whole(lane, bytes) {
      var done: seq<Frame> :| done <= lane && AllEncodable(done) && bytes == Encodings(done);
      var k := |done|;
      assert done == lane[..k];
      if k <= i {
        FrontNoLonger(lane, k, i);
        assert false;
      }
      if k > j {
        FrontNoLonger(lane, j, k);
        FrontSplit(lane, i, j);
        assert false;
      }
      FrontSplit(lane, i, k);
      Between(lane, i, k, j);
    }
  }

  /** At any commit cut inside a frame of a batch the writer can form, some pattern of
      arrivals puts a priority frame. */
  lemma CutReached(lane: seq<Frame>, i: nat, j: nat, t: nat) returns (s: State)
    requires Formable(lane, i, j)
    requires 0 < Cut(t) < |Encodings(lane[i..j])| && !FallsBetween(lane[i..j], Cut(t))
    ensures Fresh(s) && Lane(s) == lane && !AllOnBoundary(DriveStep(s).0.log, lane)
  {
    hide Encodable, Encoding, Encodings, DriveStep, CommitStep, BulkBytes, OnBoundary, FallsBetween, Whole, Polls, AllSolo, BatchArrivals;
    PartsEncodable(lane, i, j);
    var batch := lane[i..j];
    var enc, base := Encodings(batch), Encodings(lane[..i]);
    var last := [Arrival(lane[j..], [], false)];
    var atCut := [Arrival([], [Heartbeat], false)] + last;
    var committing := Idle(Polls(Cut(t))) + atCut;
    s := Start(CutArrivals(lane, i, j, t), |base| + Cut(t) + 1, 0);
    CutCarries(lane, i, j, t);
    assert [] + [] + lane == lane;
    var a := SolosDrive(s, lane[..i], BatchArrivals(batch) + committing);
    var b := BatchDrive(a, batch, committing);
    var c := IdleCommit(b, enc, 0, Cut(t), atCut);
    NoBulk();
    assert enc[0..Cut(t)] == enc[..Cut(t)] && [] + base == base;
    HeartbeatEncodable();
    PrioAtCut(c, enc, Cut(t), Heartbeat, last);
    var (u, ok) := CommitStep(b, enc, false, 0);
    if ok { DriveGrows(u); }
    var log := DriveStep(s).0.log;
    assert c.log + [PrioWrite(Heartbeat, 0, true)] <= log;
    var n := |c.log|;
    assert log[..n] == c.log && log[n] == PrioWrite(Heartbeat, 0, true);
    InsideIsNotWhole(lane, i, j, Cut(t));
    WholeIsBoundary(c.log, lane, base + enc[..Cut(t)]);
  }

  lemma NoBulk()
    ensures BulkBytes([]) == []
  {
  }

  lemma HeartbeatEncodable()
    ensures Encodable(Heartbeat)
  {
  }

  /** THE placing law. Every pattern of arrivals keeps the priority frames between whole
      bulk frames exactly when every commit cut of every batch the writer can form of the
      lane falls between frames. */
  lemma PlacingExact(lane: seq<Frame>)
    ensures CutsClean(lane) <==>
            forall s: State :: Fresh(s) && Lane(s) == lane ==> AllOnBoundary(DriveStep(s).0.log, lane)
  {
    hide DriveStep, AllOnBoundary, Lane, Encodings, Encodable;
    if CutsClean(lane) {
      forall s: State | Fresh(s) && Lane(s) == lane ensures AllOnBoundary(DriveStep(s).0.log, lane) {
        CleanCutsPlace(s);
      }
    } else {
      var i: nat, j: nat, t: nat :|
        Formable(lane, i, j) && 0 < Cut(t) < |Encodings(lane[i..j])| && !FallsBetween(lane[i..j], Cut(t));
      var s := CutReached(lane, i, j, t);
    }
  }

  // ------------------------------------------------------------ the backlog hint

  /** A batch ends at the first hint of a parked priority frame: when the poll before frame
      `k` of the rest gets one, no more than `k` frames have joined. */
  lemma {:induction false} HintEnds(s: State, c: Bytes, queued: nat, k: nat)
    requires 2 * k < |s.future| && s.future[2 * k].pendingHint
    ensures |CoalesceStep(s, c, queued).0.taken| <= |s.taken| + k
    decreases k
  {
    hide Encodable, Encoding, TickStep, TryRecvStep;
    TwoPolls(s);
    if queued < OUTBOUND_BATCH_FRAMES && |c| < OUTBOUND_BATCH_BYTES && !s.future[0].pendingHint {
      var (u, next) := TryRecvStep(TickStep(s).0);
      if next.Some? && Encodable(next.value) { HintEnds(u, c + Encoding(next.value), queued + 1, k - 1); }
    }
  }

  lemma TwoPolls(s: State)
    requires s.future != []
    ensures var (v, hint) := TickStep(s);
            var (u, next) := TryRecvStep(v);
            && hint == s.future[0].pendingHint && v.taken == s.taken
            && u.future == (if |s.future| >= 2 then s.future[2..] else [])
            && |u.taken| == |s.taken| + if next.Some? then 1 else 0
  {
  }
}
