/** When a download is given up for its absence, over whole runs of the download loop. */
module Presence {
  import opened DownloadCycle
  import opened Downloads
  import opened Options

  /** The cycle stamps a row it starts with. */
  ghost predicate StampsRow(history: seq<Snapshot>, worlds: seq<World>, i: nat, h: Hash)
    requires i < |worlds| && i < |history|
  {
    h in history[i].rows && Stamps(worlds[i], h)
  }

  /** The instant of the last stamp of `h` before cycle `j`; of its queuing when it has had none since; or the one the
      run started with. */
  ghost function LastStamp(history: seq<Snapshot>, worlds: seq<World>, j: nat, h: Hash): int
    requires j < |history| == |worlds| + 1 && h in history[j].rows
  {
    if j == 0 then history[0].rows[h].lastSeen
    else if h !in history[j - 1].rows then worlds[j - 1].queuedAt(h)
    else if Stamps(worlds[j - 1], h) then worlds[j - 1].stampedAt
    else LastStamp(history, worlds, j - 1, h)
  }

  /** What one cycle does to the stamps: its own reach the rows it starts with, and a new row has its queuing. */
  ghost predicate Restamped(start: Table, end: Table, world: World) {
    && start.Keys <= end.Keys
    && forall h :: h in end ==>
         end[h].lastSeen ==
           if h !in start then world.queuedAt(h) else if Stamps(world, h) then world.stampedAt else start[h].lastSeen
  }

  lemma CycleStamps(start: Snapshot, end: Snapshot, world: World, targets: seq<TargetState>, minFree: int,
                    lostAfter: int, report: Report)
    requires CycleSpec(start, end, world, targets, minFree, lostAfter, report)
    ensures Restamped(start.rows, end.rows, world)
  {
    if world.Reachable() {
      forall h | h in end.rows
        ensures h !in start.rows ==> end.rows[h].lastSeen == world.queuedAt(h)
        ensures h in start.rows ==>
          end.rows[h].lastSeen == if Stamps(world, h) then world.stampedAt else start.rows[h].lastSeen
      {
        if h in start.rows {
          CycleRow(start, end, world, targets, minFree, lostAfter, report, h);
        } else {
          var i :| 0 <= i < |report.admitted| && report.admitted[i].hash == h;
          assert AdmittedRow(start.rows, end.rows, world, targets, report, report.admitted[i]);
        }
      }
    }
  }

  ghost predicate RunRestamped(history: seq<Snapshot>, worlds: seq<World>) {
    && |history| == |worlds| + 1
    && forall i, j :: 0 <= i && j == i + 1 && j < |history| ==>
         Restamped(history[i].rows, history[j].rows, worlds[i])
  }

  lemma RunStamps(history: seq<Snapshot>, worlds: seq<World>, targets: seq<TargetState>, minFree: int,
                  lostAfter: int, reports: seq<Report>)
    requires IsRun(history, worlds, targets, minFree, lostAfter, reports)
    ensures RunRestamped(history, worlds)
  {
    forall i, j | 0 <= i && j == i + 1 && j < |history| ensures Restamped(history[i].rows, history[j].rows, worlds[i]) {
      RunStep(history, worlds, targets, minFree, lostAfter, reports, i);
      CycleStamps(history[i], history[j], worlds[i], targets, minFree, lostAfter, reports[i]);
    }
  }

  lemma {:induction false} LastStampFrom(history: seq<Snapshot>, worlds: seq<World>, j: nat, h: Hash)
    requires RunRestamped(history, worlds) && j < |history| && h in history[j].rows
    ensures history[j].rows[h].lastSeen == LastStamp(history, worlds, j, h)
  {
    if j > 0 {
      assert Restamped(history[j - 1].rows, history[j].rows, worlds[j - 1]);
      if h in history[j - 1].rows {
        LastStampFrom(history, worlds, j - 1, h);
      }
    }
  }

  /** Over any run, whatever fails and whatever the clock does: a row bears the instant of its last stamp. */
  lemma LastStampIsKept(history: seq<Snapshot>, worlds: seq<World>, targets: seq<TargetState>, minFree: int,
                        lostAfter: int, reports: seq<Report>, j: nat, h: Hash)
    requires IsRun(history, worlds, targets, minFree, lostAfter, reports)
    requires j < |history| && h in history[j].rows
    ensures history[j].rows[h].lastSeen == LastStamp(history, worlds, j, h)
  {
    RunStamps(history, worlds, targets, minFree, lostAfter, reports);
    LastStampFrom(history, worlds, j, h);
  }

  /** A cycle fails a row for its absence exactly when the row is unfinished after the completions, stamping and
      expiry work, and the last stamp the row had, this cycle's included, is before the cutoff. */
  lemma AbsenceFails(history: seq<Snapshot>, worlds: seq<World>, targets: seq<TargetState>, minFree: int,
                     lostAfter: int, reports: seq<Report>, j: nat, h: Hash)
    requires IsRun(history, worlds, targets, minFree, lostAfter, reports)
    requires j < |worlds| && h in history[j].rows && worlds[j].Reachable()
    ensures FailsForAbsence(history[j].rows, worlds[j], lostAfter, h) <==>
      && worlds[j].faults.stamp.None? && !worlds[j].faults.expiry
      && (var row := FollowedRow(history[j].rows, worlds[j], h); row.state.Queued? || row.state.Downloading?)
      && (if Stamps(worlds[j], h) then worlds[j].stampedAt else LastStamp(history, worlds, j, h))
           < worlds[j].expiredAt - lostAfter
    ensures FailsForAbsence(history[j].rows, worlds[j], lostAfter, h) ==> history[j + 1].rows[h].state.Failed?
  {
    LastStampIsKept(history, worlds, targets, minFree, lostAfter, reports, j, h);
    RunStep(history, worlds, targets, minFree, lostAfter, reports, j);
    FailuresExact(history[j], history[j + 1], worlds[j], targets, minFree, lostAfter, reports[j], h);
  }

  /** The instants at which `h` is stamped never step back up to cycle `j`. */
  ghost predicate StampsAscend(history: seq<Snapshot>, worlds: seq<World>, j: nat, h: Hash)
    requires j < |worlds| && j < |history|
  {
    forall a, b :: 0 <= a < b <= j && StampsRow(history, worlds, a, h) && StampsRow(history, worlds, b, h) ==>
      worlds[a].stampedAt <= worlds[b].stampedAt
  }

  lemma {:induction false} LastStampIsLatest(history: seq<Snapshot>, worlds: seq<World>, i: nat, j: nat, h: Hash)
    requires i < j < |history| == |worlds| + 1 && StampsRow(history, worlds, i, h)
    requires forall k :: i <= k <= j ==> h in history[k].rows
    requires StampsAscend(history, worlds, j - 1, h)
    ensures worlds[i].stampedAt <= LastStamp(history, worlds, j, h)
    decreases j
  {
    assert h in history[j - 1].rows;
    if Stamps(worlds[j - 1], h) {
      assert StampsRow(history, worlds, j - 1, h);
    } else {
      LastStampIsLatest(history, worlds, i, j - 1, h);
    }
  }

  lemma {:induction false} RowsStay(history: seq<Snapshot>, worlds: seq<World>, i: nat, j: nat, h: Hash)
    requires RunRestamped(history, worlds) && i <= j < |history| && h in history[i].rows
    ensures forall k :: i <= k <= j ==> h in history[k].rows
    decreases j
  {
    if i < j {
      RowsStay(history, worlds, i, j - 1, h);
      assert Restamped(history[j - 1].rows, history[j].rows, worlds[j - 1]) && h in history[j - 1].rows;
    }
  }

  /** While the stamp instants do not step back, a row fails for its absence only if no cycle, this one included, has
      stamped it at or after the cutoff. */
  lemma NeverSeenSince(history: seq<Snapshot>, worlds: seq<World>, targets: seq<TargetState>, minFree: int,
                       lostAfter: int, reports: seq<Report>, i: nat, j: nat, h: Hash)
    requires IsRun(history, worlds, targets, minFree, lostAfter, reports)
    requires i <= j < |worlds| && StampsAscend(history, worlds, j, h)
    requires FailsForAbsence(history[j].rows, worlds[j], lostAfter, h)
    requires StampsRow(history, worlds, i, h)
    ensures worlds[i].stampedAt < worlds[j].expiredAt - lostAfter
  {
    AbsenceFails(history, worlds, targets, minFree, lostAfter, reports, j, h);
    RunStamps(history, worlds, targets, minFree, lostAfter, reports);
    RowsStay(history, worlds, i, j, h);
    if i < j {
      if Stamps(worlds[j], h) {
        assert StampsRow(history, worlds, j, h);
      } else {
        LastStampIsLatest(history, worlds, i, j, h);
      }
    }
  }

  // ---------- a run in which the clock steps back ----------

  const OPEN_TARGET := [TargetState("t", "open")]

  const QUEUE_OF_A := [DownloadEntry("a", 0, 10)]

  /** A cycle at one instant. */
  function At(now: int, queue: seq<DownloadEntry>, candidates: seq<DownloadCandidate>): World {
    World(Some(queue), Some([]), Some(15), Got(candidates), map["a" := 10], {}, {}, now, now, _ => now, NO_FAULTS)
  }

  /** "a" is queued at 0, seen at 100, seen again by a clock that reads 10, and absent at 60. */
  const STEPS_BACK := [At(0, [], [DownloadCandidate("a", "t")]), At(100, QUEUE_OF_A, []), At(10, QUEUE_OF_A, []),
                       At(60, [], [])]

  /** It is failed for an absence of more than twenty seconds, although it was stamped after the cutoff. */
  lemma ClockBackForgets(history: seq<Snapshot>, reports: seq<Report>)
    requires IsRun(history, STEPS_BACK, OPEN_TARGET, 0, 20, reports) && history[0] == Snapshot(map[], [])
    ensures FailsForAbsence(history[3].rows, STEPS_BACK[3], 20, "a")
    ensures StampsRow(history, STEPS_BACK, 1, "a") && STEPS_BACK[1].stampedAt >= STEPS_BACK[3].expiredAt - 20
  {
    AfterTwo(history, reports);
    RunStep(history, STEPS_BACK, OPEN_TARGET, 0, 20, reports, 2);
    SeenInQueue(history[2], history[3], 10, reports[2]);
    Absent(history[3].rows);
  }

  lemma AfterOne(history: seq<Snapshot>, reports: seq<Report>)
    requires IsRun(history, STEPS_BACK, OPEN_TARGET, 0, 20, reports) && history[0] == Snapshot(map[], [])
    ensures "a" in history[1].rows && !history[1].rows["a"].state.Completed?
  {
    RunStep(history, STEPS_BACK, OPEN_TARGET, 0, 20, reports, 0);
    QueuedFirst(history[0], history[1], reports[0]);
  }

  lemma AfterTwo(history: seq<Snapshot>, reports: seq<Report>)
    requires IsRun(history, STEPS_BACK, OPEN_TARGET, 0, 20, reports) && history[0] == Snapshot(map[], [])
    ensures StampsRow(history, STEPS_BACK, 1, "a")
    ensures "a" in history[2].rows && !history[2].rows["a"].state.Completed?
  {
    AfterOne(history, reports);
    RunStep(history, STEPS_BACK, OPEN_TARGET, 0, 20, reports, 1);
    SeenInQueue(history[1], history[2], 100, reports[1]);
  }

  lemma QueuedFirst(start: Snapshot, end: Snapshot, report: Report)
    requires CycleSpec(start, end, At(0, [], [DownloadCandidate("a", "t")]), OPEN_TARGET, 0, 20, report)
    requires start == Snapshot(map[], [])
    ensures "a" in end.rows && !end.rows["a"].state.Completed?
  {
    var world := At(0, [], [DownloadCandidate("a", "t")]);
    OnlyNewcomer(map[], end.rows, world, OPEN_TARGET, 0, report, DownloadCandidate("a", "t"));
    assert AdmittedRow(map[], end.rows, world, OPEN_TARGET, report, report.admitted[0]);
  }

  lemma Absent(rows: Table)
    requires "a" in rows && rows["a"].state.Downloading? && rows["a"].lastSeen == 10
    ensures FailsForAbsence(rows, At(60, [], []), 20, "a")
  {
    assert CompletesAt(rows, At(60, [], []), "a").None?;
  }

  /** A cycle in which "a" is in the queue leaves it DOWNLOADING. */
  lemma SeenInQueue(start: Snapshot, end: Snapshot, now: int, report: Report)
    requires CycleSpec(start, end, At(now, QUEUE_OF_A, []), OPEN_TARGET, 0, 20, report)
    requires "a" in start.rows && !start.rows["a"].state.Completed?
    ensures "a" in end.rows && end.rows["a"].state.Downloading?
    ensures Stamps(At(now, QUEUE_OF_A, []), "a") && end.rows["a"].lastSeen == now
  {
    var world := At(now, QUEUE_OF_A, []);
    assert QUEUE_OF_A[0].hash == "a" && ClearUpTo(start.rows, QUEUE_OF_A, {}, 0);
    QueueFollowed(start, end, world, OPEN_TARGET, 0, 20, report, "a");
    CycleStamps(start, end, world, OPEN_TARGET, 0, 20, report);
    assert CompletesAt(start.rows, world, "a").None?;
    assert IsCompleted(end.rows, "a") <==> IsCompleted(start.rows, "a");
  }
}
