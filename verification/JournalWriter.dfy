/** The set-diff writer over the journal, and the sweep that re-evaluates the whole catalogue
    (application/decisions.py, application/reevaluate_catalog.py). Any read or write may fail. */
module JournalWriter {
  import opened Journal
  import opened Latest
  import opened Options
  import opened Order

  datatype Written = Rows(count: nat) | Failed

  /** `failures` counts the reads and writes that failed; nothing else leaves work undone. */
  class DecisionJournal {
    ghost var failures: nat
    var log: Log
    /** The last instant the clock gave; it never steps back. */
    var clock: string
    var nextId: int

    ghost predicate Valid()
      reads this
    {
      Orderly(log, |log|) && forall i :: 0 <= i < |log| ==> log[i].id < nextId && AtMost(log[i].stamp, clock)
    }

    /** One autocommitted INSERT, stamped with the current instant. */
    method Record(h: Hash, target: string, verdict: Verdict) returns (ok: bool)
      requires Valid()
      modifies this
      ensures Valid() && Orderly(log, |old(log)|)
      ensures !ok ==> log == old(log)
      ensures failures == old(failures) + (if ok then 0 else 1)
      ensures ok ==> Appended(old(log), log, h, [Decision(target, verdict)])
    {
      assert AtMost(clock, clock);
      var now :| AtMost(clock, now);
      StampsStayBelow(log, clock, now);
      clock := now;
      if * {
        failures := failures + 1;
        return false;
      }
      log := log + [Entry(nextId, Key(h, target), now, verdict)];
      nextId := nextId + 1;
      ok := true;
    }

    method ReadLastDecisions(h: Hash) returns (r: Option<map<string, Verdict>>)
      modifies this`failures
      ensures failures == old(failures) + (if r.Some? then 0 else 1)
      ensures r.Some? ==> r.value == LastDecisions(log, h)
    {
      if * {
        failures := failures + 1;
        return None;
      }
      r := Some(LastDecisions(log, h));
    }

    /** Evaluate, compare with the latest verdict per target, write the differences. From any log, one
        complete call converges and writes one row per difference; a call that fails part-way leaves
        each target as it was or as it should be; and a converged hash is never written again. */
    method RecordDecisionIfChanged(h: Hash, verdicts: seq<Decision>) returns (r: Written)
      requires Valid() && EngineOutput(verdicts)
      modifies this
      ensures Valid() && old(log) <= log
      ensures failures == old(failures) + (if r.Rows? then 0 else 1)
      ensures r.Rows? ==> Converged(log, h, verdicts)
      ensures r.Rows? ==> r.count == |Differing(old(log), h, verdicts)| && |log| == |old(log)| + r.count
      ensures forall t :: t != "" ==>
        Current(log, h, t) == old(Current(log, h, t)) || Live(log, h, t) == VerdictFor(verdicts, t)
      ensures forall g, t :: g != h ==> Current(log, g, t) == old(Current(log, g, t))
      ensures Converged(old(log), h, verdicts) ==> log == old(log)
    {
      ghost var before := log;
      var read := ReadLastDecisions(h);
      if read.None? {
        return Failed;
      }
      var persisted := read.value;
      var targets := SortedTargets(persisted);
      PlanOf(before, h, verdicts, targets);
      ghost var plan := DecisionsToWrite(persisted, verdicts) + RetractionsToWrite(persisted, verdicts, targets);
      var ok, written := WriteDifferences(h, persisted, verdicts, targets);
      PlanOutcome(before, log, h, verdicts, plan, written);
      r := if ok then Rows(written) else Failed;
    }

    method WriteDifferences(h: Hash, persisted: map<string, Verdict>, verdicts: seq<Decision>, targets: seq<string>)
      returns (ok: bool, written: nat)
      requires Valid() && forall t :: t in targets ==> t in persisted
      modifies this
      ensures Valid() && Orderly(log, |old(log)|)
      ensures failures == old(failures) + (if ok then 0 else 1)
      ensures
        var plan := DecisionsToWrite(persisted, verdicts) + RetractionsToWrite(persisted, verdicts, targets);
        && written <= |plan| && (ok ==> written == |plan|)
        && Appended(old(log), log, h, plan[..written])
    {
      ghost var before := log;
      ghost var ds := DecisionsToWrite(persisted, verdicts);
      ghost var rs := RetractionsToWrite(persisted, verdicts, targets);
      ok, written := WriteDecisions(h, persisted, verdicts);
      PlanPrefix(ds, rs, written);
      if ok {
        ghost var middle := log;
        var retracted;
        ok, retracted := WriteRetractions(h, persisted, verdicts, targets);
        OrderlyExtends(middle, log, |before|);
        PlanRest(ds, rs, retracted);
        AppendedTwice(before, middle, log, h, ds, rs[..retracted]);
        written := written + retracted;
      }
    }

    /** One row more, after the rows `done` written since `before`. */
    method RecordNext(h: Hash, d: Decision, ghost before: Log, ghost done: seq<Decision>) returns (ok: bool)
      requires Valid() && Orderly(log, |before|) && Appended(before, log, h, done)
      modifies this
      ensures Valid() && Orderly(log, |before|)
      ensures failures == old(failures) + (if ok then 0 else 1)
      ensures Appended(before, log, h, if ok then done + [d] else done)
    {
      ok := Record(h, d.target, d.verdict);
      if ok {
        OrderlyExtends(old(log), log, |before|);
        AppendedTwice(before, old(log), log, h, done, [d]);
      }
    }

    /** The loop over the fresh decisions; `written` counts the rows even when a write fails. */
    method WriteDecisions(h: Hash, persisted: map<string, Verdict>, verdicts: seq<Decision>)
      returns (ok: bool, written: nat)
      requires Valid()
      modifies this
      ensures Valid() && Orderly(log, |old(log)|)
      ensures failures == old(failures) + (if ok then 0 else 1)
      ensures written <= |DecisionsToWrite(persisted, verdicts)|
      ensures ok ==> written == |DecisionsToWrite(persisted, verdicts)|
      ensures Appended(old(log), log, h, DecisionsToWrite(persisted, verdicts)[..written])
    {
      written := 0;
      for i := 0 to |verdicts|
        invariant Valid() && Orderly(log, |old(log)|) && failures == old(failures)
        invariant written == |DecisionsToWrite(persisted, verdicts[..i])|
        invariant Appended(old(log), log, h, DecisionsToWrite(persisted, verdicts[..i]))
      {
        ghost var done := DecisionsToWrite(persisted, verdicts[..i]);
        DecisionsStep(persisted, verdicts, i);
        DecisionsPrefix(persisted, verdicts, i);
        PrefixIsTake(done, DecisionsToWrite(persisted, verdicts));
        var d := verdicts[i];
        if d.target in persisted && persisted[d.target] == d.verdict {
          continue;
        }
        ok := RecordNext(h, d, old(log), done);
        if !ok {
          return;
        }
        written := written + 1;
      }
      assert verdicts[..|verdicts|] == verdicts;
      ok := true;
    }

    /** The loop over the known targets, in sorted order. */
    method WriteRetractions(h: Hash, persisted: map<string, Verdict>, verdicts: seq<Decision>, targets: seq<string>)
      returns (ok: bool, written: nat)
      requires Valid() && forall t :: t in targets ==> t in persisted
      modifies this
      ensures Valid() && Orderly(log, |old(log)|)
      ensures failures == old(failures) + (if ok then 0 else 1)
      ensures written <= |RetractionsToWrite(persisted, verdicts, targets)|
      ensures ok ==> written == |RetractionsToWrite(persisted, verdicts, targets)|
      ensures Appended(old(log), log, h, RetractionsToWrite(persisted, verdicts, targets)[..written])
    {
      written := 0;
      for i := 0 to |targets|
        invariant Valid() && Orderly(log, |old(log)|) && failures == old(failures)
        invariant written == |RetractionsToWrite(persisted, verdicts, targets[..i])|
        invariant Appended(old(log), log, h, RetractionsToWrite(persisted, verdicts, targets[..i]))
      {
        ghost var done := RetractionsToWrite(persisted, verdicts, targets[..i]);
        RetractionsPrefix(persisted, verdicts, targets, i);
        PrefixIsTake(done, RetractionsToWrite(persisted, verdicts, targets));
        assert targets[..i + 1][..i] == targets[..i];
        var t := targets[i];
        if persisted[t].tier == RETRACTED || Decides(verdicts, t) {
          continue;
        }
        ok := RecordNext(h, Decision(t, RETRACTION), old(log), done);
        if !ok {
          return;
        }
        written := written + 1;
      }
      assert targets[..|targets|] == targets;
      ok := true;
    }

    /** Every hash once; a failing hash is skipped and the sweep goes on. Each hash that did not fail has
        converged, and a sweep over a converged catalogue writes nothing. */
    method ReevaluateCatalog(hashes: seq<Hash>, verdicts: map<Hash, seq<Decision>>)
      returns (evaluated: nat, written: nat, failed: set<Hash>)
      requires Valid() && Distinct(hashes)
      requires forall h :: h in hashes ==> h in verdicts && EngineOutput(verdicts[h])
      modifies this
      ensures Valid() && old(log) <= log
      ensures evaluated == |hashes|
      ensures failures == old(failures) + |failed| && forall h :: h in failed ==> h in hashes
      ensures forall h :: h in hashes && h !in failed ==> Converged(log, h, verdicts[h])
      ensures forall g, t :: g !in hashes ==> Current(log, g, t) == old(Current(log, g, t))
      ensures failed == {} ==> |log| == |old(log)| + written
      ensures (forall h :: h in hashes ==> Converged(old(log), h, verdicts[h])) ==> log == old(log) && written == 0
    {
      evaluated, written, failed := 0, 0, {};
      ghost var before := log;
      for i := 0 to |hashes|
        invariant Valid() && evaluated == i && failures == old(failures) + |failed|
        invariant SweptSoFar(before, log, hashes[..i], verdicts, failed, written)
      {
        assert hashes[i] in hashes && hashes[..i + 1] == hashes[..i] + [hashes[i]];
        failed, written := EvaluateOne(hashes[i], verdicts, before, hashes[..i], failed, written);
        evaluated := evaluated + 1;
      }
      assert hashes[..|hashes|] == hashes;
    }

    /** One hash of the sweep. */
    method EvaluateOne(h: Hash, verdicts: map<Hash, seq<Decision>>, ghost before: Log, ghost seen: seq<Hash>,
                       failed: set<Hash>, written: nat)
      returns (failed': set<Hash>, written': nat)
      requires Valid() && h in verdicts && EngineOutput(verdicts[h]) && h !in seen
      requires SweptSoFar(before, log, seen, verdicts, failed, written)
      modifies this
      ensures Valid() && SweptSoFar(before, log, seen + [h], verdicts, failed', written')
      ensures failures == old(failures) + |failed'| - |failed|
    {
      var r := RecordDecisionIfChanged(h, verdicts[h]);
      SweepStep(before, old(log), log, seen, h, verdicts, failed, written, r);
      if r.Failed? {
        return failed + {h}, written;
      }
      return failed, written + r.count;
    }
  }

  /** What a sweep has achieved once the hashes `seen` have been evaluated. */
  ghost predicate SweptSoFar(before: Log, log: Log, seen: seq<Hash>, verdicts: map<Hash, seq<Decision>>,
                             failed: set<Hash>, written: nat)
  {
    && before <= log
    && (forall h :: h in failed ==> h in seen)
    && (forall h :: h in seen ==> h in verdicts)
    && (forall h :: h in seen && h !in failed ==> Converged(log, h, verdicts[h]))
    && (forall g, t :: g !in seen ==> Current(log, g, t) == Current(before, g, t))
    && (failed == {} ==> |log| == |before| + written)
    && ((forall h :: h in seen ==> Converged(before, h, verdicts[h])) ==> log == before && written == 0)
  }

  lemma SweepStep(before: Log, middle: Log, after: Log, seen: seq<Hash>, h: Hash, verdicts: map<Hash, seq<Decision>>,
                  failed: set<Hash>, written: nat, r: Written)
    requires SweptSoFar(before, middle, seen, verdicts, failed, written) && h !in seen && h in verdicts
    requires middle <= after && (Converged(middle, h, verdicts[h]) ==> after == middle)
    requires r.Rows? ==> Converged(after, h, verdicts[h]) && |after| == |middle| + r.count
    requires forall g, t :: g != h ==> Current(after, g, t) == Current(middle, g, t)
    ensures SweptSoFar(before, after, seen + [h], verdicts,
      if r.Failed? then failed + {h} else failed, if r.Failed? then written else written + r.count)
  {
    ConvergenceKept(middle, after, h, seen, verdicts);
    if forall g :: g in seen + [h] ==> Converged(before, g, verdicts[g]) {
      assert forall g :: g in seen ==> g in seen + [h];
      assert h in seen + [h];
    }
  }

  lemma PlanPrefix(ds: seq<Decision>, rs: seq<Decision>, n: nat)
    requires n <= |ds|
    ensures (ds + rs)[..n] == ds[..n] && ds[..|ds|] == ds
  {
  }

  lemma PlanRest(ds: seq<Decision>, rs: seq<Decision>, n: nat)
    requires n <= |rs|
    ensures (ds + rs)[..|ds| + n] == ds + rs[..n]
  {
  }

  lemma StampsStayBelow(log: Log, clock: string, now: string)
    requires AtMost(clock, now) && forall i :: 0 <= i < |log| ==> AtMost(log[i].stamp, clock)
    ensures forall i :: 0 <= i < |log| ==> AtMost(log[i].stamp, now)
  {
    forall i | 0 <= i < |log| ensures AtMost(log[i].stamp, now) {
      if log[i].stamp != clock && clock != now {
        BelowTransitive(log[i].stamp, clock, now);
      }
    }
  }

  /** `sorted(persisted)` */
  method SortedTargets(persisted: map<string, Verdict>) returns (targets: seq<string>)
    ensures Distinct(targets) && forall t :: t in targets <==> t in persisted
    ensures Sorted(targets, AtMost)
  {
    var rest := persisted.Keys;
    var found: seq<string> := [];
    while rest != {}
      invariant Distinct(found) && rest <= persisted.Keys
      invariant forall t :: t in found <==> t in persisted && t !in rest
    {
      var t :| t in rest;
      rest := rest - {t};
      found := found + [t];
    }
    targets := Sort(found, AtMost);
    AtMostIsTotal();
    SortSorted(found, AtMost);
    SameElements(found, targets);
    MultisetDistinct(found, targets);
  }

  lemma PrefixIsTake(front: seq<Decision>, all: seq<Decision>)
    requires front <= all
    ensures all[..|front|] == front
  {
  }

  lemma DecisionsPrefix(persisted: map<string, Verdict>, verdicts: seq<Decision>, i: nat)
    requires i <= |verdicts|
    ensures DecisionsToWrite(persisted, verdicts[..i]) <= DecisionsToWrite(persisted, verdicts)
    decreases |verdicts|
  {
    if i == |verdicts| {
      assert verdicts[..i] == verdicts;
    } else {
      var front := verdicts[..|verdicts| - 1];
      DecisionsPrefix(persisted, front, i);
      assert front[..i] == verdicts[..i];
    }
  }

  lemma RetractionsPrefix(persisted: map<string, Verdict>, verdicts: seq<Decision>, targets: seq<string>, i: nat)
    requires i <= |targets| && forall t :: t in targets ==> t in persisted
    ensures RetractionsToWrite(persisted, verdicts, targets[..i]) <= RetractionsToWrite(persisted, verdicts, targets)
    decreases |targets|
  {
    if i == |targets| {
      assert targets[..i] == targets;
    } else {
      var front := targets[..|targets| - 1];
      RetractionsPrefix(persisted, verdicts, front, i);
      assert front[..i] == targets[..i];
    }
  }

  lemma OrderlyExtends(middle: Log, after: Log, from: nat)
    requires Orderly(middle, from) && middle <= after && Orderly(after, |middle|)
    ensures Orderly(after, from)
  {
  }

  lemma AppendedTwice(before: Log, middle: Log, after: Log, h: Hash, first: seq<Decision>, second: seq<Decision>)
    requires Appended(before, middle, h, first) && Appended(middle, after, h, second)
    ensures Appended(before, after, h, first + second)
  {
    assert after[..|before|] == middle[..|before|];
    var all := first + second;
    forall i | 0 <= i < |all|
      ensures after[|before| + i].key == Key(h, all[i].target) && after[|before| + i].payload == all[i].verdict
    {
      if i < |first| {
        assert after[|before| + i] == middle[|before| + i];
      } else {
        assert after[|before| + i] == after[|middle| + (i - |first|)];
      }
    }
  }

  /** What a plan carried out up to `written` has achieved. */
  lemma PlanOutcome(before: Log, after: Log, h: Hash, verdicts: seq<Decision>, plan: seq<Decision>, written: nat)
    requires EngineOutput(verdicts) && IsPlan(before, h, verdicts, plan) && written <= |plan|
    requires Appended(before, after, h, plan[..written]) && Orderly(after, |before|)
    ensures before <= after && |after| == |before| + written
    ensures written == |plan| ==> Converged(after, h, verdicts) && written == |Differing(before, h, verdicts)|
    ensures forall t :: t != "" ==>
      Current(after, h, t) == Current(before, h, t) || Live(after, h, t) == VerdictFor(verdicts, t)
    ensures forall g, t :: g != h ==> Current(after, g, t) == Current(before, g, t)
    ensures Converged(before, h, verdicts) ==> after == before
  {
    PlanSize(before, h, verdicts, plan);
    PartialPlan(before, after, h, verdicts, plan, written);
    AppendedView(before, after, h, plan[..written]);
    if written == |plan| {
      assert plan[..written] == plan;
      PlanConverges(before, after, h, verdicts, plan);
    }
    if Converged(before, h, verdicts) {
      assert after == after[..|before|];
    }
  }

  lemma ConvergenceKept(middle: Log, after: Log, h: Hash, others: seq<Hash>, verdicts: map<Hash, seq<Decision>>)
    requires h !in others && forall g :: g in others ==> g in verdicts
    requires forall g, t :: g != h ==> Current(after, g, t) == Current(middle, g, t)
    ensures forall g :: g in others && Converged(middle, g, verdicts[g]) ==> Converged(after, g, verdicts[g])
  {
    forall g | g in others && Converged(middle, g, verdicts[g]) ensures Converged(after, g, verdicts[g]) {
      forall t | t != "" ensures Live(after, g, t) == VerdictFor(verdicts[g], t) {
        assert Live(middle, g, t) == VerdictFor(verdicts[g], t);
      }
    }
  }
}
