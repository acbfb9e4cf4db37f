/** The decision journal: an append-only log, its latest-per-target view, and the set-diff writer
    (application/decisions.py, reevaluate_catalog.py, catalog_repository.py). */
module Journal {
  import opened Latest
  import opened Options
  import opened Order

  const RETRACTED := "retracted"
  const DOWNLOAD := "download"

  type Hash = string

  datatype Key = Key(hash: Hash, target: string)

  datatype Verdict = Verdict(rule: string, tier: string)

  datatype Decision = Decision(target: string, verdict: Verdict)

  type Log = seq<Entry<Key, Verdict>>

  const RETRACTION := Verdict("", RETRACTED)

  // ---------- the view ----------

  function Current(log: Log, h: Hash, target: string): Option<Verdict> {
    match LatestOf(log, Key(h, target))
    case None => None
    case Some(e) => Some(e.payload)
  }

  /** The latest verdict, unless it is a retraction. */
  function Live(log: Log, h: Hash, target: string): Option<Verdict> {
    var v := Current(log, h, target);
    if v.Some? && v.value.tier == RETRACTED then None else v
  }

  function TargetsOf(log: Log, h: Hash): set<string> {
    set i | 0 <= i < |log| && log[i].key.hash == h && log[i].key.target != "" :: log[i].key.target
  }

  /** `last_decisions`: the latest verdict per target, retracted ones included, the '' sentinel left out. */
  function LastDecisions(log: Log, h: Hash): map<string, Verdict> {
    map t | t in TargetsOf(log, h) && Current(log, h, t).Some? :: Current(log, h, t).value
  }

  lemma LastDecisionsAreCurrent(log: Log, h: Hash, target: string)
    requires target != ""
    ensures target in LastDecisions(log, h) <==> Current(log, h, target).Some?
    ensures target in LastDecisions(log, h) ==> LastDecisions(log, h)[target] == Current(log, h, target).value
  {
    LatestOfIn(log, Key(h, target));
    if Current(log, h, target).Some? {
      var e := LatestOf(log, Key(h, target)).value;
      var i :| 0 <= i < |log| && log[i] == e;
      assert log[i].key.target in TargetsOf(log, h);
    }
  }

  // ---------- the decisions of the engine ----------

  /** As `evaluate_all` returns them: one per target, a real target, never the retraction tier. */
  ghost predicate EngineOutput(verdicts: seq<Decision>) {
    && (forall i, j :: 0 <= i < j < |verdicts| ==> verdicts[i].target != verdicts[j].target)
    && (forall i :: 0 <= i < |verdicts| ==> verdicts[i].target != "" && verdicts[i].verdict.tier != RETRACTED)
  }

  predicate Decides(verdicts: seq<Decision>, target: string) {
    exists i :: 0 <= i < |verdicts| && verdicts[i].target == target
  }

  function VerdictFor(verdicts: seq<Decision>, target: string): Option<Verdict> {
    if verdicts == [] then None
    else if verdicts[0].target == target then Some(verdicts[0].verdict)
    else VerdictFor(verdicts[1..], target)
  }

  lemma {:induction false} VerdictForOf(verdicts: seq<Decision>, target: string)
    requires EngineOutput(verdicts)
    ensures VerdictFor(verdicts, target).Some? <==> Decides(verdicts, target)
    ensures forall i :: 0 <= i < |verdicts| && verdicts[i].target == target ==>
      VerdictFor(verdicts, target) == Some(verdicts[i].verdict)
    ensures VerdictFor(verdicts, target).Some? ==> target != "" && VerdictFor(verdicts, target).value.tier != RETRACTED
  {
    if verdicts != [] {
      VerdictForOf(verdicts[1..], target);
      assert forall i :: 0 < i < |verdicts| ==> verdicts[i] == verdicts[1..][i - 1];
      if Decides(verdicts[1..], target) {
        var i :| 0 <= i < |verdicts[1..]| && verdicts[1..][i].target == target;
        assert verdicts[i + 1].target == target;
      }
    }
  }

  /** The live view of the hash is the fresh set, and nothing else is live. */
  ghost predicate Converged(log: Log, h: Hash, verdicts: seq<Decision>) {
    forall t :: t != "" ==> Live(log, h, t) == VerdictFor(verdicts, t)
  }

  // ---------- what the set-diff writes ----------

  function DecisionsToWrite(persisted: map<string, Verdict>, verdicts: seq<Decision>): seq<Decision> {
    if verdicts == [] then []
    else
      var d := verdicts[|verdicts| - 1];
      DecisionsToWrite(persisted, verdicts[..|verdicts| - 1])
        + (if d.target in persisted && persisted[d.target] == d.verdict then [] else [d])
  }

  function RetractionsToWrite(persisted: map<string, Verdict>, verdicts: seq<Decision>,
                              targets: seq<string>): seq<Decision>
    requires forall t :: t in targets ==> t in persisted
  {
    if targets == [] then []
    else
      var t := targets[|targets| - 1];
      assert t in targets;
      RetractionsToWrite(persisted, verdicts, targets[..|targets| - 1])
        + (if persisted[t].tier == RETRACTED || Decides(verdicts, t) then [] else [Decision(t, RETRACTION)])
  }

  /** A target whose live verdict is not the fresh one. */
  ghost predicate Differs(log: Log, h: Hash, verdicts: seq<Decision>, t: string) {
    t != "" && Live(log, h, t) != VerdictFor(verdicts, t)
  }

  /** What the writer must append for a target: the fresh verdict, or a retraction. */
  function Wanted(verdicts: seq<Decision>, t: string): Verdict {
    if VerdictFor(verdicts, t).Some? then VerdictFor(verdicts, t).value else RETRACTION
  }

  /** Exactly one row per differing target, carrying what is wanted for it. */
  ghost predicate IsPlan(log: Log, h: Hash, verdicts: seq<Decision>, plan: seq<Decision>) {
    && (forall i, j :: 0 <= i < j < |plan| ==> plan[i].target != plan[j].target)
    && (forall i :: 0 <= i < |plan| ==>
         Differs(log, h, verdicts, plan[i].target) && plan[i].verdict == Wanted(verdicts, plan[i].target))
    && (forall t :: Differs(log, h, verdicts, t) ==> Decides(plan, t))
  }

  /** `d` is one of the first `k`. */
  ghost predicate Among(verdicts: seq<Decision>, k: nat, d: Decision)
    requires k <= |verdicts|
  {
    exists p :: 0 <= p < k && verdicts[p] == d
  }

  /** The decisions among the first `k` that differ, once each. */
  ghost predicate WritesDiffering(log: Log, h: Hash, verdicts: seq<Decision>, k: nat, w: seq<Decision>)
    requires k <= |verdicts|
  {
    && (forall i :: 0 <= i < |w| ==> Among(verdicts, k, w[i]) && Differs(log, h, verdicts, w[i].target))
    && (forall i, j :: 0 <= i < j < |w| ==> w[i].target != w[j].target)
    && (forall i :: 0 <= i < k && Differs(log, h, verdicts, verdicts[i].target) ==> verdicts[i] in w)
  }

  lemma DecisionsStep(persisted: map<string, Verdict>, verdicts: seq<Decision>, k: nat)
    requires k < |verdicts|
    ensures
      var d, w := verdicts[k], DecisionsToWrite(persisted, verdicts[..k]);
      DecisionsToWrite(persisted, verdicts[..k + 1])
        == if d.target in persisted && persisted[d.target] == d.verdict then w else w + [d]
  {
    assert verdicts[..k + 1][..k] == verdicts[..k];
  }

  lemma DecisionDiffers(log: Log, h: Hash, verdicts: seq<Decision>, k: nat)
    requires EngineOutput(verdicts) && k < |verdicts|
    ensures
      var d, persisted := verdicts[k], LastDecisions(log, h);
      Differs(log, h, verdicts, d.target) <==> !(d.target in persisted && persisted[d.target] == d.verdict)
  {
    VerdictForOf(verdicts, verdicts[k].target);
    LastDecisionsAreCurrent(log, h, verdicts[k].target);
  }

  lemma WritesOneMore(log: Log, h: Hash, verdicts: seq<Decision>, k: nat, w: seq<Decision>)
    requires EngineOutput(verdicts) && k < |verdicts| && WritesDiffering(log, h, verdicts, k, w)
    ensures WritesDiffering(log, h, verdicts, k + 1,
      if Differs(log, h, verdicts, verdicts[k].target) then w + [verdicts[k]] else w)
  {
    if Differs(log, h, verdicts, verdicts[k].target) {
      WritesAppended(log, h, verdicts, k, w);
    } else {
      WritesSkipped(log, h, verdicts, k, w);
    }
  }

  lemma WritesSkipped(log: Log, h: Hash, verdicts: seq<Decision>, k: nat, w: seq<Decision>)
    requires k < |verdicts| && WritesDiffering(log, h, verdicts, k, w)
    requires !Differs(log, h, verdicts, verdicts[k].target)
    ensures WritesDiffering(log, h, verdicts, k + 1, w)
  {
    forall i | 0 <= i < |w| ensures Among(verdicts, k + 1, w[i]) {
      AmongMore(verdicts, k, w[i]);
    }
  }

  lemma AmongMore(verdicts: seq<Decision>, k: nat, d: Decision)
    requires k < |verdicts| && (Among(verdicts, k, d) || d == verdicts[k])
    ensures Among(verdicts, k + 1, d)
  {
  }

  lemma WritesAppended(log: Log, h: Hash, verdicts: seq<Decision>, k: nat, w: seq<Decision>)
    requires EngineOutput(verdicts) && k < |verdicts| && WritesDiffering(log, h, verdicts, k, w)
    requires Differs(log, h, verdicts, verdicts[k].target)
    ensures WritesDiffering(log, h, verdicts, k + 1, w + [verdicts[k]])
  {
    var d := verdicts[k];
    var w' := w + [d];
    forall i | 0 <= i < |w'| ensures Among(verdicts, k + 1, w'[i]) && Differs(log, h, verdicts, w'[i].target) {
      assert i < |w| ==> w'[i] == w[i];
      AmongMore(verdicts, k, w'[i]);
    }
    forall i | 0 <= i < |w| ensures w[i].target != d.target {
      var p :| 0 <= p < k && verdicts[p] == w[i];
    }
    forall i | 0 <= i < k + 1 && Differs(log, h, verdicts, verdicts[i].target) ensures verdicts[i] in w' {
      assert i < k ==> verdicts[i] in w;
    }
  }

  lemma WritesStep(log: Log, h: Hash, verdicts: seq<Decision>, k: nat)
    requires EngineOutput(verdicts) && k < |verdicts|
    requires WritesDiffering(log, h, verdicts, k, DecisionsToWrite(LastDecisions(log, h), verdicts[..k]))
    ensures WritesDiffering(log, h, verdicts, k + 1, DecisionsToWrite(LastDecisions(log, h), verdicts[..k + 1]))
  {
    var w := DecisionsToWrite(LastDecisions(log, h), verdicts[..k]);
    WritesOneMore(log, h, verdicts, k, w);
    DecisionDiffers(log, h, verdicts, k);
    DecisionsStep(LastDecisions(log, h), verdicts, k);
  }

  lemma {:induction false} DecisionsToWriteAre(log: Log, h: Hash, verdicts: seq<Decision>, k: nat)
    requires EngineOutput(verdicts) && k <= |verdicts|
    ensures WritesDiffering(log, h, verdicts, k, DecisionsToWrite(LastDecisions(log, h), verdicts[..k]))
    decreases k
  {
    if k > 0 {
      DecisionsToWriteAre(log, h, verdicts, k - 1);
      WritesStep(log, h, verdicts, k - 1);
    }
  }

  /** The retractions, once each, of the given targets that differ and are not decided afresh. */
  ghost predicate RetractsDiffering(log: Log, h: Hash, verdicts: seq<Decision>, targets: seq<string>,
                                    w: seq<Decision>)
  {
    && (forall i :: 0 <= i < |w| ==> IsRetraction(log, h, verdicts, targets, w[i]))
    && (forall i, j :: 0 <= i < j < |w| ==> w[i].target != w[j].target)
    && (forall t :: t in targets && Differs(log, h, verdicts, t) && !Decides(verdicts, t) ==>
         Decision(t, RETRACTION) in w)
  }

  ghost predicate IsRetraction(log: Log, h: Hash, verdicts: seq<Decision>, targets: seq<string>, d: Decision) {
    && d.target in targets && d.verdict == RETRACTION
    && Differs(log, h, verdicts, d.target) && !Decides(verdicts, d.target)
  }

  lemma RetractionDiffers(log: Log, h: Hash, verdicts: seq<Decision>, t: string)
    requires EngineOutput(verdicts) && t in LastDecisions(log, h)
    ensures Differs(log, h, verdicts, t) && !Decides(verdicts, t)
      <==> !(LastDecisions(log, h)[t].tier == RETRACTED || Decides(verdicts, t))
  {
    LastDecisionsAreCurrent(log, h, t);
    VerdictForOf(verdicts, t);
  }

  lemma RetractsOneMore(log: Log, h: Hash, verdicts: seq<Decision>, targets: seq<string>, t: string, w: seq<Decision>)
    requires t !in targets && RetractsDiffering(log, h, verdicts, targets, w)
    ensures RetractsDiffering(log, h, verdicts, targets + [t],
      if Differs(log, h, verdicts, t) && !Decides(verdicts, t) then w + [Decision(t, RETRACTION)] else w)
  {
    forall i | 0 <= i < |w| ensures w[i].target != t && IsRetraction(log, h, verdicts, targets + [t], w[i]) {
      assert IsRetraction(log, h, verdicts, targets, w[i]);
    }
  }

  lemma {:induction false} RetractionsToWriteAre(log: Log, h: Hash, verdicts: seq<Decision>, targets: seq<string>)
    requires EngineOutput(verdicts) && Distinct(targets) && forall t :: t in targets ==> t in LastDecisions(log, h)
    ensures RetractsDiffering(log, h, verdicts, targets, RetractionsToWrite(LastDecisions(log, h), verdicts, targets))
  {
    if targets != [] {
      var front, t := targets[..|targets| - 1], targets[|targets| - 1];
      assert targets == front + [t] && t in targets;
      RetractionsToWriteAre(log, h, verdicts, front);
      RetractionDiffers(log, h, verdicts, t);
      RetractsOneMore(log, h, verdicts, front, t, RetractionsToWrite(LastDecisions(log, h), verdicts, front));
    }
  }

  /** The two loops of the writer produce a plan. */
  lemma PlanOf(log: Log, h: Hash, verdicts: seq<Decision>, targets: seq<string>)
    requires EngineOutput(verdicts) && Distinct(targets)
    requires forall t :: t in targets <==> t in LastDecisions(log, h)
    ensures
      var persisted := LastDecisions(log, h);
      IsPlan(log, h, verdicts, DecisionsToWrite(persisted, verdicts) + RetractionsToWrite(persisted, verdicts, targets))
  {
    var persisted := LastDecisions(log, h);
    var ds, rs := DecisionsToWrite(persisted, verdicts), RetractionsToWrite(persisted, verdicts, targets);
    assert verdicts[..|verdicts|] == verdicts;
    DecisionsToWriteAre(log, h, verdicts, |verdicts|);
    RetractionsToWriteAre(log, h, verdicts, targets);
    forall i | 0 <= i < |ds|
      ensures Decides(verdicts, ds[i].target) && ds[i].verdict == Wanted(verdicts, ds[i].target)
    {
      assert ds[i] in verdicts;
      FreshIsWanted(verdicts, ds[i]);
    }
    forall i | 0 <= i < |rs|
      ensures Differs(log, h, verdicts, rs[i].target) && !Decides(verdicts, rs[i].target)
      ensures rs[i].verdict == Wanted(verdicts, rs[i].target)
    {
      assert IsRetraction(log, h, verdicts, targets, rs[i]);
      RetractionIsWanted(verdicts, rs[i]);
    }
    forall t | Differs(log, h, verdicts, t) ensures Decides(ds + rs, t) {
      DifferenceIsWritten(log, h, verdicts, targets, t);
    }
  }

  lemma DifferenceIsWritten(log: Log, h: Hash, verdicts: seq<Decision>, targets: seq<string>, t: string)
    requires EngineOutput(verdicts) && Distinct(targets) && Differs(log, h, verdicts, t)
    requires forall u :: u in targets <==> u in LastDecisions(log, h)
    ensures
      var persisted := LastDecisions(log, h);
      Decides(DecisionsToWrite(persisted, verdicts) + RetractionsToWrite(persisted, verdicts, targets), t)
  {
    var persisted := LastDecisions(log, h);
    var ds, rs := DecisionsToWrite(persisted, verdicts), RetractionsToWrite(persisted, verdicts, targets);
    if Decides(verdicts, t) {
      FreshIsWritten(log, h, verdicts, t);
      var p :| 0 <= p < |ds| && ds[p].target == t;
      assert (ds + rs)[p].target == t;
    } else {
      RetractionIsWritten(log, h, verdicts, targets, t);
      var p :| 0 <= p < |rs| && rs[p].target == t;
      assert (ds + rs)[|ds| + p].target == t;
    }
  }

  lemma FreshIsWritten(log: Log, h: Hash, verdicts: seq<Decision>, t: string)
    requires EngineOutput(verdicts) && Differs(log, h, verdicts, t) && Decides(verdicts, t)
    ensures Decides(DecisionsToWrite(LastDecisions(log, h), verdicts), t)
  {
    assert verdicts[..|verdicts|] == verdicts;
    DecisionsToWriteAre(log, h, verdicts, |verdicts|);
    var i :| 0 <= i < |verdicts| && verdicts[i].target == t;
    assert verdicts[i] in DecisionsToWrite(LastDecisions(log, h), verdicts);
  }

  lemma RetractionIsWritten(log: Log, h: Hash, verdicts: seq<Decision>, targets: seq<string>, t: string)
    requires EngineOutput(verdicts) && Distinct(targets) && Differs(log, h, verdicts, t) && !Decides(verdicts, t)
    requires forall u :: u in targets <==> u in LastDecisions(log, h)
    ensures Decides(RetractionsToWrite(LastDecisions(log, h), verdicts, targets), t)
  {
    VerdictForOf(verdicts, t);
    LastDecisionsAreCurrent(log, h, t);
    RetractionsToWriteAre(log, h, verdicts, targets);
    assert Decision(t, RETRACTION) in RetractionsToWrite(LastDecisions(log, h), verdicts, targets);
  }

  lemma RetractionIsWanted(verdicts: seq<Decision>, d: Decision)
    requires EngineOutput(verdicts) && !Decides(verdicts, d.target) && d.verdict == RETRACTION
    ensures d.verdict == Wanted(verdicts, d.target)
  {
    VerdictForOf(verdicts, d.target);
  }

  lemma FreshIsWanted(verdicts: seq<Decision>, d: Decision)
    requires EngineOutput(verdicts) && d in verdicts
    ensures Decides(verdicts, d.target) && d.verdict == Wanted(verdicts, d.target)
  {
    VerdictForOf(verdicts, d.target);
  }

  // ---------- appending to the log ----------

  /** Ids grow along the log, and from `from` on no stamp steps back. */
  ghost predicate Orderly(log: Log, from: nat) {
    && (forall i, j :: 0 <= i < j < |log| ==> log[i].id < log[j].id)
    && (forall i, j :: 0 <= i < j < |log| && from <= j ==> AtMost(log[i].stamp, log[j].stamp))
  }

  ghost predicate Appended(before: Log, after: Log, h: Hash, rows: seq<Decision>) {
    && |after| == |before| + |rows| && after[..|before|] == before
    && forall i :: 0 <= i < |rows| ==>
         after[|before| + i].key == Key(h, rows[i].target) && after[|before| + i].payload == rows[i].verdict
  }

  lemma DecidesSnoc(rows: seq<Decision>, d: Decision, t: string)
    ensures Decides(rows + [d], t) <==> Decides(rows, t) || d.target == t
  {
    var all := rows + [d];
    if Decides(rows, t) {
      var i :| 0 <= i < |rows| && rows[i].target == t;
      assert all[i].target == t;
    }
    assert all[|rows|] == d;
  }

  /** The last row of an orderly log is the latest of its key. */
  lemma LastRowView(log: Log)
    requires log != [] && Orderly(log, |log| - 1)
    ensures
      var front, e := log[..|log| - 1], log[|log| - 1];
      && Current(log, e.key.hash, e.key.target) == Some(e.payload)
      && forall g, t :: Key(g, t) != e.key ==> Current(log, g, t) == Current(front, g, t)
  {
    var front, e := log[..|log| - 1], log[|log| - 1];
    assert log == front + [e] && e.key == Key(e.key.hash, e.key.target);
    LatestOfIn(front, e.key);
    AppendedIsLatest(front, e);
  }

  /** Rows appended in order win the view of their targets, and move nothing else. */
  lemma {:induction false} AppendedView(before: Log, after: Log, h: Hash, rows: seq<Decision>)
    requires Appended(before, after, h, rows) && Orderly(after, |before|)
    requires forall i, j :: 0 <= i < j < |rows| ==> rows[i].target != rows[j].target
    ensures forall i :: 0 <= i < |rows| ==> Current(after, h, rows[i].target) == Some(rows[i].verdict)
    ensures forall g, t :: g != h || !Decides(rows, t) ==> Current(after, g, t) == Current(before, g, t)
    decreases |rows|
  {
    if rows == [] {
      assert after == before;
    } else {
      var n := |rows| - 1;
      var front, rest, d := after[..|after| - 1], rows[..n], rows[n];
      assert front[..|before|] == before;
      AppendedView(before, front, h, rest);
      LastRowView(after);
      assert after[|before| + n].key == Key(h, d.target) && rows == rest + [d];
      forall g, t | g != h || !Decides(rows, t) ensures Current(after, g, t) == Current(before, g, t) {
        DecidesSnoc(rest, d, t);
      }
      forall i | 0 <= i < n ensures Current(after, h, rows[i].target) == Some(rows[i].verdict) {
        assert rest[i] == rows[i] && rows[i].target != d.target;
      }
    }
  }

  // ---------- convergence ----------

  /** Carrying out a plan makes the live view the fresh one, whatever the log was before. */
  lemma PlanConverges(before: Log, after: Log, h: Hash, verdicts: seq<Decision>, plan: seq<Decision>)
    requires EngineOutput(verdicts) && IsPlan(before, h, verdicts, plan)
    requires Appended(before, after, h, plan) && Orderly(after, |before|)
    ensures Converged(after, h, verdicts)
  {
    AppendedView(before, after, h, plan);
    forall t | t != "" ensures Live(after, h, t) == VerdictFor(verdicts, t) {
      VerdictForOf(verdicts, t);
      if Decides(plan, t) {
        var i :| 0 <= i < |plan| && plan[i].target == t;
        assert Current(after, h, plan[i].target) == Some(plan[i].verdict);
      } else {
        assert !Differs(before, h, verdicts, t);
      }
    }
  }

  /** A plan interrupted anywhere leaves each target either as it was or as it should be. */
  lemma PartialPlan(before: Log, after: Log, h: Hash, verdicts: seq<Decision>, plan: seq<Decision>, k: nat)
    requires EngineOutput(verdicts) && IsPlan(before, h, verdicts, plan) && k <= |plan|
    requires Appended(before, after, h, plan[..k]) && Orderly(after, |before|)
    ensures forall t :: t != "" ==>
      Current(after, h, t) == Current(before, h, t) || Live(after, h, t) == VerdictFor(verdicts, t)
  {
    AppendedView(before, after, h, plan[..k]);
    forall t | t != ""
      ensures Current(after, h, t) == Current(before, h, t) || Live(after, h, t) == VerdictFor(verdicts, t)
    {
      VerdictForOf(verdicts, t);
      if Decides(plan[..k], t) {
        var i :| 0 <= i < k && plan[..k][i].target == t;
        assert plan[i] == plan[..k][i];
        assert Current(after, h, plan[..k][i].target) == Some(plan[i].verdict);
      }
    }
  }

  /** The targets whose live verdict differs from the fresh one. */
  ghost function Differing(log: Log, h: Hash, verdicts: seq<Decision>): set<string> {
    set t | t in TargetsOf(log, h) + (set i | 0 <= i < |verdicts| :: verdicts[i].target) && Differs(log, h, verdicts, t)
  }

  lemma DifferingAre(log: Log, h: Hash, verdicts: seq<Decision>, t: string)
    requires EngineOutput(verdicts)
    ensures t in Differing(log, h, verdicts) <==> Differs(log, h, verdicts, t)
  {
    if Differs(log, h, verdicts, t) {
      VerdictForOf(verdicts, t);
      LastDecisionsAreCurrent(log, h, t);
      if Decides(verdicts, t) {
        var i :| 0 <= i < |verdicts| && verdicts[i].target == t;
      } else {
        assert t in LastDecisions(log, h);
      }
    }
  }

  /** A plan has as many rows as there are differences; so a converged hash has the empty plan. */
  lemma PlanSize(log: Log, h: Hash, verdicts: seq<Decision>, plan: seq<Decision>)
    requires EngineOutput(verdicts) && IsPlan(log, h, verdicts, plan)
    ensures |plan| == |Differing(log, h, verdicts)|
    ensures Converged(log, h, verdicts) <==> plan == []
  {
    var targets := seq(|plan|, i requires 0 <= i < |plan| => plan[i].target);
    DistinctMultiset(targets);
    forall t ensures t in (set x | x in targets) <==> t in Differing(log, h, verdicts) {
      DifferingAre(log, h, verdicts, t);
      if t in targets {
        var i :| 0 <= i < |targets| && targets[i] == t;
        assert plan[i].target == t;
      }
      if Decides(plan, t) {
        var i :| 0 <= i < |plan| && plan[i].target == t;
        assert targets[i] == t;
      }
    }
    assert (set x | x in targets) == Differing(log, h, verdicts);
    if plan == [] {
      forall t | t != "" ensures Live(log, h, t) == VerdictFor(verdicts, t) {
        assert !Differs(log, h, verdicts, t);
      }
    } else {
      assert Differs(log, h, verdicts, plan[0].target);
    }
  }

  /** The download loop's candidates of a converged hash are its fresh `download` decisions. */
  lemma DownloadCandidates(log: Log, h: Hash, verdicts: seq<Decision>, t: string)
    requires EngineOutput(verdicts) && Converged(log, h, verdicts) && t != ""
    ensures (Current(log, h, t).Some? && Current(log, h, t).value.tier == DOWNLOAD)
      <==> (VerdictFor(verdicts, t).Some? && VerdictFor(verdicts, t).value.tier == DOWNLOAD)
  {
    assert Live(log, h, t) == VerdictFor(verdicts, t);
  }
}
