/** The disk floor across cycles (run_download_cycle.py): what the daemon's queue does not charge, and exactly
    when admission keeps the floor all the same. */
module DiskFloor {
  import opened DownloadCycle
  import opened Downloads
  import opened Options

  /** The queue knows how much of `h` is still to come. A nascent entry, whose total is not known yet, does not. */
  ghost predicate Charged(queue: seq<DownloadEntry>, h: Hash) {
    exists i :: 0 <= i < |queue| && queue[i].hash == h && queue[i].sizeFull > 0
  }

  /** Something of `h` is still to come: its row is unfinished, or it is in the queue, whatever the row says. */
  ghost predicate StillToCome(rows: Table, queue: seq<DownloadEntry>, h: Hash) {
    h in QueueHashes(queue) || (h in rows && IsUnfinished(rows[h]))
  }

  /** The size of each download the crawler keeps no row for and the queue shows no size of: anybody's guess. */
  type Guess = map<Hash, nat>

  /** What `h` will still write to the disk without the queue charging it. */
  ghost function UnchargedBytes(rows: Table, queue: seq<DownloadEntry>, guess: Guess, h: Hash): nat {
    if !StillToCome(rows, queue, h) || Charged(queue, h) then 0
    else if h in rows then (if rows[h].size > 0 then rows[h].size else 0)
    else if h in guess then guess[h] else 0
  }

  ghost function Pick(hs: set<Hash>): (h: Hash)
    requires hs != {}
    ensures h in hs
  {
    var h :| h in hs; h
  }

  ghost function UnchargedOver(hs: set<Hash>, rows: Table, queue: seq<DownloadEntry>, guess: Guess): nat {
    if hs == {} then 0
    else UnchargedBytes(rows, queue, guess, Pick(hs)) + UnchargedOver(hs - {Pick(hs)}, rows, queue, guess)
  }

  ghost function Uncharged(rows: Table, queue: seq<DownloadEntry>, guess: Guess): nat {
    UnchargedOver(rows.Keys + QueueHashes(queue), rows, queue, guess)
  }

  /** The amount is zero exactly when nothing counts in it. */
  lemma {:induction false} UnchargedIsZero(hs: set<Hash>, rows: Table, queue: seq<DownloadEntry>, guess: Guess)
    ensures UnchargedOver(hs, rows, queue, guess) == 0 <==>
      forall h :: h in hs ==> UnchargedBytes(rows, queue, guess, h) == 0
  {
    if hs != {} {
      UnchargedIsZero(hs - {Pick(hs)}, rows, queue, guess);
    }
  }

  /** Each unfinished row, and each row in the queue, that has bytes to fetch has an entry of known size; and an entry
      of no known size has a row. */
  ghost predicate Measured(rows: Table, queue: seq<DownloadEntry>) {
    && (forall h :: h in rows && StillToCome(rows, queue, h) && rows[h].size > 0 ==> Charged(queue, h))
    && forall h :: h in QueueHashes(queue) && h !in rows ==> Charged(queue, h)
  }

  /** That is the same as nothing being uncharged, whatever the sizes nobody knows. */
  lemma MeasuredIff(rows: Table, queue: seq<DownloadEntry>)
    ensures Measured(rows, queue) <==> forall guess: Guess :: Uncharged(rows, queue, guess) == 0
  {
    var hs := rows.Keys + QueueHashes(queue);
    forall guess: Guess ensures Uncharged(rows, queue, guess) == 0 <==>
      forall h :: h in hs ==> UnchargedBytes(rows, queue, guess, h) == 0
    {
      UnchargedIsZero(hs, rows, queue, guess);
    }
    if !Measured(rows, queue) {
      var h :| h in hs && !Charged(queue, h) && StillToCome(rows, queue, h) && (h in rows ==> rows[h].size > 0);
      var guess: Guess := map[h := 1];
      assert UnchargedBytes(rows, queue, guess, h) > 0;
      assert Uncharged(rows, queue, guess) != 0;
    }
  }

  /** An entry of no known size is not charged at all, whatever the state of its row, or without one. */
  lemma NascentIsUncharged(rows: Table, h: Hash, done: int)
    requires done >= 0 && (h in rows ==> rows[h].size > 0)
    ensures Outstanding([DownloadEntry(h, done, 0)]) == 0
    ensures Uncharged(rows, [DownloadEntry(h, done, 0)], map[h := 1]) > 0
  {
    var queue := [DownloadEntry(h, done, 0)];
    UnchargedIsZero(rows.Keys + QueueHashes(queue), rows, queue, map[h := 1]);
    assert queue[0].hash == h;
    assert UnchargedBytes(rows, queue, map[h := 1], h) > 0;
    assert Outstanding(queue[..0]) == 0;
  }

  // ---------- step 3 of any cycle ----------

  /** An outcome of the admission step on `rows`. */
  ghost predicate Admits(rows: Table, after: Table, world: World, targets: seq<TargetState>, minFree: int,
                         admitted: seq<Charge>, deferred: seq<Charge>, reached: nat)
    requires world.queue.Some?
  {
    && Admitted(rows, after, world, targets, admitted)
    && AdmissionDone(after, world, targets, Outstanding(world.queue.value), minFree, admitted, deferred, reached)
  }

  /** Whatever the disk, the candidates and the unknown sizes, every admission leaves room for the uncharged bytes. */
  ghost predicate TrueFloorKept(rows: Table, queue: seq<DownloadEntry>, targets: seq<TargetState>, minFree: int) {
    forall world: World, guess: Guess, after, admitted, deferred, reached: nat ::
      world.queue == Some(queue) && world.free.Some?
      && Admits(rows, after, world, targets, minFree, admitted, deferred, reached) ==>
        FloorKept(world.free.value, BytesToCome(queue) + Uncharged(rows, queue, guess), admitted, minFree)
  }

  ghost predicate OpenTarget(targets: seq<TargetState>) {
    exists id :: TargetStatus(targets, id) != "complete"
  }

  /** Across cycles the floor is kept for sure exactly when everything still to come is measured before step 3 (or no
      target is open, so that nothing is ever admitted). */
  lemma FloorIffCharged(rows: Table, queue: seq<DownloadEntry>, targets: seq<TargetState>, minFree: int)
    ensures TrueFloorKept(rows, queue, targets, minFree) <==> Measured(rows, queue) || !OpenTarget(targets)
  {
    MeasuredIff(rows, queue);
    OutstandingIs(queue);
    if !OpenTarget(targets) {
      forall world: World, after, admitted, deferred, reached: nat |
        world.queue == Some(queue) && Admits(rows, after, world, targets, minFree, admitted, deferred, reached)
        ensures admitted == []
      {
        AdmittedNeedsOpen(rows, after, world, targets, admitted);
      }
    } else if !Measured(rows, queue) {
      var guess :| Uncharged(rows, queue, guess) != 0;
      var world, after, admitted := UnchargedBreaks(rows, queue, guess, targets, minFree);
      assert Admits(rows, after, world, targets, minFree, admitted, [], 1);
    }
  }

  lemma AdmittedNeedsOpen(rows: Table, after: Table, world: World, targets: seq<TargetState>, admitted: seq<Charge>)
    requires Admitted(rows, after, world, targets, admitted)
    ensures admitted != [] ==> OpenTarget(targets)
  {
    if admitted != [] {
      assert QueuedFor(after, world, targets, admitted[0]);
    }
  }

  /** A candidate of one byte and a disk with just that much room above the floor. */
  lemma UnchargedBreaks(rows: Table, queue: seq<DownloadEntry>, guess: Guess, targets: seq<TargetState>, minFree: int)
    returns (world: World, after: Table, admitted: seq<Charge>)
    requires OpenTarget(targets) && Uncharged(rows, queue, guess) > 0
    ensures world.queue == Some(queue) && world.free.Some?
    ensures Admits(rows, after, world, targets, minFree, admitted, [], 1)
    ensures !FloorKept(world.free.value, Outstanding(queue) + Uncharged(rows, queue, guess), admitted, minFree)
  {
    var id :| TargetStatus(targets, id) != "complete";
    var h := FreshHash(rows.Keys);
    var free := minFree + Outstanding(queue) + 1;
    world := World(Some(queue), Some([]), Some(free), Got([DownloadCandidate(h, id)]), map[h := 1], {}, {},
                   0, 0, _ => 0, NO_FAULTS);
    after, admitted := rows[h := Row(id, Queued, 1, 0)], [Charge(h, 1)];
    OneCharge(Charge(h, 1));
    assert admitted[..1] == admitted;
    assert QueuedFor(after, world, targets, admitted[0]);
    assert free - Outstanding(queue) - Total(admitted[..1]) >= minFree;
    assert !(free - (Outstanding(queue) + Uncharged(rows, queue, guess)) - Total(admitted[..1]) >= minFree);
  }

  lemma {:induction false} LongerThanAll(hs: set<Hash>) returns (n: nat)
    ensures forall h :: h in hs ==> |h| < n
  {
    n := 0;
    if hs != {} {
      var h :| h in hs;
      n := LongerThanAll(hs - {h});
      n := if n <= |h| then |h| + 1 else n;
    }
  }

  lemma FreshHash(hs: set<Hash>) returns (h: Hash)
    ensures h !in hs
  {
    var n := LongerThanAll(hs);
    h := seq(n, _ => '0');
  }

  // ---------- a run that breaks the floor ----------

  const OPEN_TARGET := [TargetState("t", "open")]

  /** Fifteen bytes free: "a", of ten bytes, is admitted, and the daemon is gone when its link is sent. */
  const FIRST := World(Some([]), Some([]), Some(15), Got([DownloadCandidate("a", "t")]), map["a" := 10], {}, {"a"},
                       0, 0, _ => 0, NO_FAULTS)

  /** The queue is still empty, and "b" asks for ten bytes more. */
  const SECOND := World(Some([]), Some([]), Some(15),
                        Got([DownloadCandidate("a", "t"), DownloadCandidate("b", "t")]), map["a" := 10, "b" := 10],
                        {}, {}, 0, 0, _ => 0, NO_FAULTS)

  /** Each cycle keeps the floor as it sees it; the two together promise twenty bytes out of fifteen. */
  lemma FloorBreaksAcrossCycles(history: seq<Snapshot>, lostAfter: int, reports: seq<Report>)
    requires IsRun(history, [FIRST, SECOND], OPEN_TARGET, 0, lostAfter, reports)
    requires history[0] == Snapshot(map[], [])
    ensures Uncharged(history[1].rows, [], map[]) == 10
    ensures reports[1].admitted == [Charge("b", 10)]
    ensures FloorKept(15, Outstanding([]), reports[1].admitted, 0)
    ensures !FloorKept(15, Outstanding([]) + Uncharged(history[1].rows, [], map[]), reports[1].admitted, 0)
  {
    RunStep(history, [FIRST, SECOND], OPEN_TARGET, 0, lostAfter, reports, 0);
    RunStep(history, [FIRST, SECOND], OPEN_TARGET, 0, lostAfter, reports, 1);
    TwoCycles(history[0], history[1], history[2], lostAfter, reports[0], reports[1]);
  }

  lemma TwoCycles(s0: Snapshot, s1: Snapshot, s2: Snapshot, lostAfter: int, r0: Report, r1: Report)
    requires s0 == Snapshot(map[], [])
    requires CycleSpec(s0, s1, FIRST, OPEN_TARGET, 0, lostAfter, r0)
    requires CycleSpec(s1, s2, SECOND, OPEN_TARGET, 0, lostAfter, r1)
    ensures Uncharged(s1.rows, [], map[]) == 10 && r1.admitted == [Charge("b", 10)]
    ensures FloorKept(15, Outstanding([]), r1.admitted, 0)
    ensures !FloorKept(15, Outstanding([]) + Uncharged(s1.rows, [], map[]), r1.admitted, 0)
  {
    AfterFirst(s0, s1, lostAfter, r0);
    SingleUncharged(s1.rows, "a");
    AfterSecond(s1, s2, lostAfter, r1);
    SecondBreaks(r1.admitted);
  }

  lemma SecondBreaks(admitted: seq<Charge>)
    requires admitted == [Charge("b", 10)]
    ensures FloorKept(15, Outstanding([]), admitted, 0) && !FloorKept(15, Outstanding([]) + 10, admitted, 0)
  {
    OneCharge(Charge("b", 10));
    assert admitted[..1] == admitted;
    assert !(15 - (Outstanding([]) + 10) - Total(admitted[..1]) >= 0);
  }

  /** The first cycle leaves one QUEUED row of ten bytes. */
  lemma AfterFirst(start: Snapshot, end: Snapshot, lostAfter: int, report: Report)
    requires start == Snapshot(map[], [])
    requires CycleSpec(start, end, FIRST, OPEN_TARGET, 0, lostAfter, report)
    ensures end.rows.Keys == {"a"} && end.rows["a"].state.Queued? && end.rows["a"].size == 10
  {
    OnlyNewcomer(map[], end.rows, FIRST, OPEN_TARGET, 0, report, DownloadCandidate("a", "t"));
    assert AdmittedRow(map[], end.rows, FIRST, OPEN_TARGET, report, report.admitted[0]);
    OneCharge(Charge("a", 10));
  }

  lemma AfterSecond(start: Snapshot, end: Snapshot, lostAfter: int, report: Report)
    requires start.rows.Keys == {"a"} && CycleSpec(start, end, SECOND, OPEN_TARGET, 0, lostAfter, report)
    ensures report.admitted == [Charge("b", 10)]
  {
    OnlyNewcomer(start.rows, end.rows, SECOND, OPEN_TARGET, 0, report, DownloadCandidate("b", "t"));
  }

  lemma OneCharge(c: Charge)
    ensures Total([c]) == c.size && Hashes([c]) == {c.hash}
  {
    TotalSnoc([], c);
    assert [] + [c] == [c];
    assert [c][0] == c;
  }

  lemma SingleUncharged(rows: Table, h: Hash)
    requires rows.Keys == {h} && IsUnfinished(rows[h]) && rows[h].size > 0
    ensures Uncharged(rows, [], map[]) == rows[h].size
  {
    var hs := rows.Keys + QueueHashes([]);
    assert hs == {h} && Pick(hs) in {h};
    assert hs - {Pick(hs)} == {};
    assert UnchargedOver(hs, rows, [], map[])
        == UnchargedBytes(rows, [], map[], h) + UnchargedOver({}, rows, [], map[]);
  }
}
