/** The `DownloadCompleted` events over whole runs of the download loop: at most one per hash, and exactly when
    the read after the completion succeeds. */
module Notifications {
  import opened DownloadCycle
  import opened Downloads
  import opened Options

  ghost predicate Grows(history: seq<Snapshot>) {
    forall i, j :: 0 <= i && j == i + 1 && j < |history| ==> Advances(history[i], history[j])
  }

  lemma {:induction false} GrowsFrom(history: seq<Snapshot>, i: nat, j: nat)
    requires Grows(history) && i <= j < |history| && Inv(history[0])
    ensures Advances(history[i], history[j]) && Inv(history[i]) && Inv(history[j])
    decreases j
  {
    if j > 0 {
      GrowsFrom(history, if i < j then i else j - 1, j - 1);
      AdvancesKeepsInv(history[j - 1], history[j]);
      if i < j {
        AdvancesTransitive(history[i], history[j - 1], history[j]);
      }
    }
  }

  lemma RunGrows(history: seq<Snapshot>, worlds: seq<World>, targets: seq<TargetState>, minFree: int, lostAfter: int,
                 reports: seq<Report>)
    requires IsRun(history, worlds, targets, minFree, lostAfter, reports)
    ensures Grows(history)
  {
    forall i, j | 0 <= i && j == i + 1 && j < |history| ensures Advances(history[i], history[j]) {
      assert CycleSpec(history[i], history[j], worlds[i], targets, minFree, lostAfter, reports[i]);
    }
  }

  /** Over any run of cycles, whatever fails: no row disappears, COMPLETED is never left, and no hash is
      notified twice. */
  lemma RunIsSafe(history: seq<Snapshot>, worlds: seq<World>, targets: seq<TargetState>, minFree: int,
                  lostAfter: int, reports: seq<Report>, i: nat, j: nat)
    requires IsRun(history, worlds, targets, minFree, lostAfter, reports)
    requires i <= j < |history| && Inv(history[0])
    ensures Advances(history[i], history[j]) && Inv(history[i]) && Inv(history[j])
  {
    RunGrows(history, worlds, targets, minFree, lostAfter, reports);
    GrowsFrom(history, i, j);
  }

  lemma PrefixMember(before: seq<Hash>, after: seq<Hash>, h: Hash)
    requires before <= after
    ensures h in after <==> h in before || NotifiedSince(before, after, h)
  {
    if h in after {
      var i :| 0 <= i < |after| && after[i] == h;
      if i < |before| {
        assert before[i] == h;
      }
    }
    if h in before {
      var i :| 0 <= i < |before| && before[i] == h;
      assert after[i] == h;
    }
  }

  /** The cycle in which a row became COMPLETED. */
  lemma {:induction false} CompletionCycle(history: seq<Snapshot>, j: nat, h: Hash) returns (k: nat)
    requires j < |history| && !IsCompleted(history[0].rows, h) && IsCompleted(history[j].rows, h)
    ensures k < j && NewlyCompleted(history[k], history[k + 1], h)
  {
    k := j - 1;
    if IsCompleted(history[k].rows, h) {
      k := CompletionCycle(history, k, h);
    }
  }

  /** In the cycle that completes a row, its event is emitted exactly when its own `get_target_id` succeeds. */
  lemma EventFollowsRead(history: seq<Snapshot>, worlds: seq<World>, targets: seq<TargetState>, minFree: int,
                         lostAfter: int, reports: seq<Report>, k: nat, h: Hash)
    requires IsRun(history, worlds, targets, minFree, lostAfter, reports) && Inv(history[0])
    requires k < |worlds| && NewlyCompleted(history[k], history[k + 1], h)
    ensures CompletesAt(history[k].rows, worlds[k], h).Some?
    ensures h in history[k + 1].completions <==> ReadSucceeds(history[k].rows, worlds[k], h)
  {
    RunIsSafe(history, worlds, targets, minFree, lostAfter, reports, k, k + 1);
    RunStep(history, worlds, targets, minFree, lostAfter, reports, k);
    PrefixMember(history[k].completions, history[k + 1].completions, h);
  }

  /** Once a row is COMPLETED, whether it has been notified does not change. */
  lemma SettledEvent(history: seq<Snapshot>, i: nat, j: nat, h: Hash)
    requires i <= j < |history| && Grows(history) && Inv(history[0]) && IsCompleted(history[i].rows, h)
    ensures IsCompleted(history[j].rows, h)
    ensures h in history[j].completions <==> h in history[i].completions
  {
    GrowsFrom(history, i, j);
    PrefixMember(history[i].completions, history[j].completions, h);
  }

  /** A row that is COMPLETED without its event never gets one. */
  lemma SilentForever(history: seq<Snapshot>, worlds: seq<World>, targets: seq<TargetState>, minFree: int,
                      lostAfter: int, reports: seq<Report>, i: nat, j: nat, h: Hash)
    requires IsRun(history, worlds, targets, minFree, lostAfter, reports) && Inv(history[0])
    requires i <= j < |history| && IsCompleted(history[i].rows, h) && h !in history[i].completions
    ensures IsCompleted(history[j].rows, h) && h !in history[j].completions
  {
    RunGrows(history, worlds, targets, minFree, lostAfter, reports);
    SettledEvent(history, i, j, h);
  }

  /** Exactly once, exactly when: a row that becomes COMPLETED in a run has its event at the end if and only if
      its own `get_target_id` did not fail in the cycle that completed it. */
  lemma EventIffReadSucceeds(history: seq<Snapshot>, worlds: seq<World>, targets: seq<TargetState>, minFree: int,
                             lostAfter: int, reports: seq<Report>, j: nat, h: Hash) returns (k: nat)
    requires IsRun(history, worlds, targets, minFree, lostAfter, reports) && Inv(history[0])
    requires j < |history| && !IsCompleted(history[0].rows, h) && IsCompleted(history[j].rows, h)
    ensures k < j && NewlyCompleted(history[k], history[k + 1], h)
    ensures CompletesAt(history[k].rows, worlds[k], h).Some?
    ensures h in history[j].completions <==> ReadSucceeds(history[k].rows, worlds[k], h)
  {
    k := CompletionCycle(history, j, h);
    EventFollowsRead(history, worlds, targets, minFree, lostAfter, reports, k, h);
    RunGrows(history, worlds, targets, minFree, lostAfter, reports);
    SettledEvent(history, k + 1, j, h);
  }

  // ---------- a run that loses an event ----------

  const OPEN_TARGET := [TargetState("t", "open")]

  /** A cycle that queues "a". */
  const QUEUEING := World(Some([]), Some([]), Some(15), Got([DownloadCandidate("a", "t")]), map["a" := 10], {}, {},
                          0, 0, _ => 0, NO_FAULTS)

  /** A cycle in which "a" is shared, and the read after its completion fails. */
  const LOSING := World(Some([]), Some(["a"]), Some(15), Got([]), map["a" := 10], {}, {},
                        0, 0, _ => 0, NO_FAULTS.(targetReads := {0}))

  /** From the empty table, every run that starts with these two cycles leaves "a" COMPLETED and without its
      event, however it goes on. */
  lemma LostEvent(history: seq<Snapshot>, worlds: seq<World>, lostAfter: int, reports: seq<Report>, j: nat)
    requires IsRun(history, worlds, OPEN_TARGET, 0, lostAfter, reports) && history[0] == Snapshot(map[], [])
    requires |worlds| >= 2 && worlds[0] == QUEUEING && worlds[1] == LOSING
    requires 2 <= j < |history|
    ensures IsCompleted(history[j].rows, "a") && "a" !in history[j].completions
  {
    RunStep(history, worlds, OPEN_TARGET, 0, lostAfter, reports, 0);
    QueuedFirst(history[0], history[1], lostAfter, reports[0]);
    RunStep(history, worlds, OPEN_TARGET, 0, lostAfter, reports, 1);
    CompletedNext(history[1], history[2], lostAfter, reports[1]);
    RunIsSafe(history, worlds, OPEN_TARGET, 0, lostAfter, reports, 1, 2);
    PrefixMember(history[1].completions, history[2].completions, "a");
    SilentForever(history, worlds, OPEN_TARGET, 0, lostAfter, reports, 2, j, "a");
  }

  lemma QueuedFirst(start: Snapshot, end: Snapshot, lostAfter: int, report: Report)
    requires CycleSpec(start, end, QUEUEING, OPEN_TARGET, 0, lostAfter, report) && start == Snapshot(map[], [])
    ensures "a" in end.rows && !IsCompleted(end.rows, "a")
  {
    OnlyNewcomer(map[], end.rows, QUEUEING, OPEN_TARGET, 0, report, DownloadCandidate("a", "t"));
    assert AdmittedRow(map[], end.rows, QUEUEING, OPEN_TARGET, report, report.admitted[0]);
  }

  lemma CompletedNext(start: Snapshot, end: Snapshot, lostAfter: int, report: Report)
    requires CycleSpec(start, end, LOSING, OPEN_TARGET, 0, lostAfter, report)
    requires "a" in start.rows && !IsCompleted(start.rows, "a")
    ensures IsCompleted(end.rows, "a") && !NotifiedSince(start.completions, end.completions, "a")
  {
    assert Due(start.rows, Transferring([]), "a");
    assert WriteAt(["a"], {}, 1, "a") == Some(0);
  }
}
