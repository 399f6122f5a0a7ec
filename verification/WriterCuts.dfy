/** Where the two-lane writer may put a priority frame: exactly at the commit cuts of the
    batches it forms (crates/rx11-core/src/transport.rs, `drain_frames`). */
module WriterCuts {
  import opened Bytes
  import opened Messages
  import opened FrameCodec
  import opened Transport
  import opened Writer

  /** Every priority frame of the output stands between whole bulk frames. */
  ghost predicate AllOnBoundary(log: seq<Write>, lane: seq<Frame>) {
    forall i :: 0 <= i < |log| && log[i].PrioWrite? ==> OnBoundary(log[..i], lane)
  }

  lemma BoundaryFront(log: seq<Write>, k: nat, lane: seq<Frame>)
    requires k <= |log| && AllOnBoundary(log, lane)
    ensures AllOnBoundary(log[..k], lane)
  {
    hide OnBoundary;
    var front := log[..k];
    forall i | 0 <= i < |front| && front[i].PrioWrite? ensures OnBoundary(front[..i], lane) {
      assert front[..i] == log[..i] && front[i] == log[i];
    }
  }

  /** The offset of commit cut `t` in a batch. */
  function Cut(t: nat): nat { t * OUTBOUND_WRITE_CHUNK }

  /** The writer can make one batch of the frames `i` to `j` of the lane. */
  ghost predicate Formable(lane: seq<Frame>, i: nat, j: nat) {
    && i < j <= |lane| && j - i <= OUTBOUND_BATCH_FRAMES && AllEncodable(lane[..j]) && AllEncodable(lane[i..j])
    && AllEncodable(lane[i..j - 1]) && |Encodings(lane[i..j - 1])| < OUTBOUND_BATCH_BYTES
  }

  /** The offset falls between two frames of the batch. */
  ghost predicate FallsBetween(batch: seq<Frame>, off: nat) {
    exists k :: 0 <= k <= |batch| && AllEncodable(batch[..k]) && |Encodings(batch[..k])| == off
  }

  /** Every commit cut of every batch the writer can form falls between frames. */
  ghost predicate CutsClean(lane: seq<Frame>) {
    forall i: nat, j: nat, t: nat :: Formable(lane, i, j) && 0 < Cut(t) < |Encodings(lane[i..j])| ==>
      FallsBetween(lane[i..j], Cut(t))
  }

  /** These bytes are whole frames of the lane. */
  ghost predicate Whole(lane: seq<Frame>, bytes: Bytes) {
    exists done: seq<Frame> :: done <= lane && AllEncodable(done) && bytes == Encodings(done)
  }

  lemma WholeIsBoundary(log: seq<Write>, lane: seq<Frame>, bytes: Bytes)
    requires BulkBytes(log) == bytes
    ensures OnBoundary(log, lane) <==> Whole(lane, bytes)
  {
  }

  lemma {:induction false} DrainPrioPlaces(s: State, midBatch: bool, lane: seq<Frame>, prioLane: seq<Frame>)
    requires Inv(s, lane, prioLane) && OnBoundary(s.log, lane) && AllOnBoundary(s.log, lane)
    ensures AllOnBoundary(DrainPrioStep(s, midBatch).0.log, lane)
    decreases |s.future|, |s.prio|
  {
    hide LogOk, Aligned, NeverMidBatch, Lane, PrioLane, Prompt, Popped, Halted, BulkBytes, PopStep, OnBoundary, Excused;
    PopKeeps(s);
    var (v, p) := PopStep(s);
    if p.Some? {
      PrioKeeps(v, p.value, midBatch, lane, prioLane);
      PrioPlaces(v, p.value, midBatch, lane);
      var (u, ok) := PrioStep(v, p.value, midBatch);
      if ok {
        SameBulk(v.log, u.log, lane);
        DrainPrioPlaces(u, midBatch, lane, prioLane);
      }
    }
  }

  lemma PrioPlaces(s: State, p: Parked, midBatch: bool, lane: seq<Frame>)
    requires OnBoundary(s.log, lane) && AllOnBoundary(s.log, lane)
    ensures AllOnBoundary(PrioStep(s, p, midBatch).0.log, lane)
  {
    hide OnBoundary, Encodable, Encoding;
    var log := PrioStep(s, p, midBatch).0.log;
    if |log| > |s.log| {
      assert log[..|s.log|] == s.log;
      forall i | 0 <= i < |log| && log[i].PrioWrite? ensures OnBoundary(log[..i], lane) {
        if i < |s.log| { assert log[..i] == s.log[..i] && log[i] == s.log[i]; }
      }
    }
  }

  lemma BulkPlaces(s: State, chunk: Bytes, lane: seq<Frame>)
    requires AllOnBoundary(s.log, lane)
    ensures AllOnBoundary(BulkStep(s, chunk).0.log, lane)
  {
    hide OnBoundary;
    var log := BulkStep(s, chunk).0.log;
    forall i | 0 <= i < |log| && log[i].PrioWrite? ensures OnBoundary(log[..i], lane) {
      assert i < |s.log| && log[..i] == s.log[..i] && log[i] == s.log[i];
    }
  }

  /** A batch whose remaining cuts are all whole leaves every priority frame in place. */
  lemma {:induction false} CommitPlaces(s: State, base: Bytes, committed: Bytes, failed: bool, t: nat, off: nat,
                                        lane: seq<Frame>, prioLane: seq<Frame>)
    requires Inv(s, lane, prioLane) && off <= |committed| && BulkBytes(s.log) == base + committed[..off]
    requires (off == Cut(t) || off == |committed|) && AllOnBoundary(s.log, lane)
    requires forall k: nat :: Cut(k) < |committed| ==> Whole(lane, base + committed[..Cut(k)])
    ensures AllOnBoundary(CommitStep(s, committed, failed, off).0.log, lane)
    decreases |committed| - off
  {
    hide LogOk, Aligned, OnBoundary, NeverMidBatch, Lane, PrioLane, Prompt, BulkBytes, DrainPrioStep, BulkStep, AllOnBoundary,
         Whole, Excused, Halted;
    if off < |committed| {
      WholeIsBoundary(s.log, lane, base + committed[..off]);
      DrainPrioKeeps(s, off > 0, lane, prioLane);
      DrainPrioPlaces(s, off > 0, lane, prioLane);
      var (v, clean) := DrainPrioStep(s, off > 0);
      if !failed && clean {
        var end := CutEnd(off, |committed|);
        BulkKeeps(v, committed[off..end], lane, prioLane);
        BulkPlaces(v, committed[off..end], lane);
        ChunkStep(base, committed, off, end);
        var (u, sent) := BulkStep(v, committed[off..end]);
        if sent { CommitPlaces(u, base, committed, failed, t + 1, end, lane, prioLane); }
      }
    }
  }

  lemma LastJoined(batch: seq<Frame>)
    requires batch != [] && AllEncodable(batch)
    ensures var front, last := batch[..|batch| - 1], batch[|batch| - 1];
            AllEncodable(front) && Encodings(batch) == Encodings(front) + Encoding(last)
  {
    hide Encodable, Encoding, Encodings;
    var front := batch[..|batch| - 1];
    assert batch == front + [batch[|batch| - 1]];
    EncodingsSnoc(front, batch[|batch| - 1]);
  }

  lemma BatchOf(lane: seq<Frame>, done: seq<Frame>, good: seq<Frame>, c: Bytes)
    requires done < good <= lane && AllEncodable(good) && AllEncodable(done) && Encodings(good) == Encodings(done) + c
    ensures var i, j := |done|, |good|;
            lane[..j] == good && AllEncodable(lane[i..j]) && Encodings(lane[i..j]) == c
  {
    hide Encodable, Encodings;
    var i, j := |done|, |good|;
    EncodingsSplit(good, i);
    assert good[..i] == done && good[i..] == lane[i..j];
    SplitEqual(Encodings(done), Encodings(lane[i..j]), Encodings(done), c);
  }

  lemma BatchFormable(lane: seq<Frame>, done: seq<Frame>, good: seq<Frame>, c: Bytes)
    requires done < good <= lane && AllEncodable(done) && AllEncodable(good)
    requires Encodings(good) == Encodings(done) + c && |good| <= |done| + OUTBOUND_BATCH_FRAMES && GrewWhileSmall(done, good, c)
    ensures var i, j := |done|, |good|; Formable(lane, i, j) && Encodings(lane[i..j]) == c
  {
    hide Encodable, Encodings, Encoding, AllEncodable;
    var i, j := |done|, |good|;
    BatchOf(lane, done, good, c);
    LastJoined(lane[i..j]);
    LastOf(lane, i, j);
    assert good[j - 1] == lane[j - 1];
    if j == i + 1 { NoEncodings(); }
  }

  lemma LastOf(lane: seq<Frame>, i: nat, j: nat)
    requires i < j <= |lane|
    ensures var batch := lane[i..j];
            batch[..|batch| - 1] == lane[i..j - 1] && batch[|batch| - 1] == lane[j - 1] && (j == i + 1 ==> lane[i..j - 1] == [])
  {
  }

  lemma NoEncodings()
    ensures Encodings([]) == []
  {
  }

  /** A cut between frames of a batch is a place between whole frames of the lane. */
  lemma BetweenIsWhole(lane: seq<Frame>, done: seq<Frame>, j: nat, off: nat)
    requires done <= lane && |done| <= j <= |lane| && AllEncodable(done) && AllEncodable(lane[|done|..j])
    requires FallsBetween(lane[|done|..j], off)
    ensures off <= |Encodings(lane[|done|..j])|
    ensures Whole(lane, Encodings(done) + Encodings(lane[|done|..j])[..off])
  {
    hide Encodable, Encodings;
    var batch := lane[|done|..j];
    var k :| 0 <= k <= |batch| && AllEncodable(batch[..k]) && |Encodings(batch[..k])| == off;
    EncodingsSplit(batch, k);
    var whole := lane[..|done| + k];
    assert whole[..|done|] == done && whole[|done|..] == batch[..k];
    assert forall i :: 0 <= i < |whole| ==> whole[i] == if i < |done| then done[i] else batch[i - |done|];
    EncodingsSplit(whole, |done|);
  }

  lemma BatchPlaced(lane: seq<Frame>, done: seq<Frame>, good: seq<Frame>, c: Bytes)
    requires done <= good <= lane && AllEncodable(done) && AllEncodable(good) && CutsClean(lane)
    requires Encodings(good) == Encodings(done) + c && |good| <= |done| + OUTBOUND_BATCH_FRAMES && GrewWhileSmall(done, good, c)
    ensures forall k: nat :: Cut(k) < |c| ==> Whole(lane, Encodings(done) + c[..Cut(k)])
  {
    hide Encodable, Encodings, Encoding, GrewWhileSmall, Formable, FallsBetween, Whole;
    if done == good {
      assert |c| == 0;
    } else {
      BatchFormable(lane, done, good, c);
      forall k: nat | Cut(k) < |c| ensures Whole(lane, Encodings(done) + c[..Cut(k)]) {
        if k == 0 {
          assert c[..0] == [] && Encodings(done) + [] == Encodings(done);
          DoneWhole(lane, done);
        } else {
          assert Cut(k) > 0;
          BetweenIsWhole(lane, done, |good|, Cut(k));
        }
      }
    }
  }

  lemma DoneWhole(lane: seq<Frame>, done: seq<Frame>)
    requires done <= lane && AllEncodable(done)
    ensures Whole(lane, Encodings(done))
  {
  }

  lemma {:induction false} DrivePlaces(s: State, lane: seq<Frame>, prioLane: seq<Frame>)
    requires Inv(s, lane, prioLane) && AllEncodable(s.taken) && BulkBytes(s.log) == Encodings(s.taken)
    requires CutsClean(lane) && AllOnBoundary(s.log, lane)
    ensures AllOnBoundary(DriveStep(s).0.log, lane)
    decreases Left(s)
  {
    hide Encodable, Encoding, Encodings, LogOk, Aligned, OnBoundary, NeverMidBatch, Lane, PrioLane, Prompt, GrewWhileSmall,
         Popped, AnyStep, PrioStep, BatchStep, CommitStep, BulkBytes, CutsClean, AllOnBoundary, Halted, Excused;
    AnyKeeps(s);
    Boundary(s.log, s.taken, lane) by { TakenFirst(s); }
    var (v, item) := AnyStep(s);
    if item.Priority? {
      PrioKeeps(v, item.parked, false, lane, prioLane);
      PrioPlaces(v, item.parked, false, lane);
      var (u, ok) := PrioStep(v, item.parked, false);
      if ok { DrivePlaces(u, lane, prioLane); }
    } else if item.Bulk? {
      var good := BatchKeeps(v, s.taken, item.frame);
      var (u, committed, failed) := BatchStep(v, item.frame);
      TakenFirst(u);
      BatchPlaced(lane, s.taken, good, committed);
      assert committed[..0] == [] && Encodings(s.taken) + [] == Encodings(s.taken);
      CommitKeeps(u, Encodings(s.taken), committed, failed, 0, lane, prioLane);
      CommitPlaces(u, Encodings(s.taken), committed, failed, 0, 0, lane, prioLane);
      var (t, ok) := CommitStep(u, committed, failed, 0);
      if ok { DrivePlaces(t, lane, prioLane); }
    }
  }

  /** THE placing law, one half: when every commit cut of every batch the writer can form
      falls between frames, no pattern of arrivals puts a priority frame inside one. */
  lemma CleanCutsPlace(s: State)
    requires Fresh(s) && CutsClean(Lane(s))
    ensures AllOnBoundary(DriveStep(s).0.log, Lane(s))
  {
    hide CutsClean, DriveStep;
    DrivePlaces(s, Lane(s), PrioLane(s));
  }

  /** Small batches have no cuts. */
  lemma SmallIsClean(lane: seq<Frame>)
    requires SmallBatches(lane)
    ensures CutsClean(lane)
  {
    hide Encodings, FallsBetween;
    forall i: nat, j: nat, t: nat | Formable(lane, i, j)
      ensures !(0 < Cut(t) < |Encodings(lane[i..j])|)
    {
      assert |Encodings(lane[i..j])| <= OUTBOUND_WRITE_CHUNK;
    }
  }
}
