/** Several set-diff writers on one hash (application/decisions.py). One can be suspended after any row
    and goes on with what it read before. */
module Interleavings {
  import opened Journal
  import opened Latest
  import opened Options

  /** The verdict of the last row for a target, among rows of any hashes and any writers. */
  function LastFor(rows: Log, h: Hash, t: string): Option<Verdict> {
    if rows == [] then None
    else if rows[|rows| - 1].key == Key(h, t) then Some(rows[|rows| - 1].payload)
    else LastFor(rows[..|rows| - 1], h, t)
  }

  /** What a latest verdict shows in the live view. */
  function Shown(v: Option<Verdict>): Option<Verdict> {
    if v.Some? && v.value.tier == RETRACTED then None else v
  }

  lemma {:induction false} LastRowWins(before: Log, after: Log, h: Hash, t: string)
    requires before <= after && Orderly(after, |before|)
    ensures
      var last := LastFor(after[|before|..], h, t);
      Current(after, h, t) == if last.Some? then last else Current(before, h, t)
    decreases |after|
  {
    if |after| == |before| {
      assert after == before && after[|before|..] == [];
    } else {
      var front := after[..|after| - 1];
      LastRowView(after);
      LastRowWins(before, front, h, t);
      assert after[|before|..][..|after| - |before| - 1] == front[|before|..];
    }
  }

  /** Whoever wrote the rows, and in whatever order: the hash ends converged on the fresh decisions exactly when the
      last row written for each target shows the fresh verdict, and no target without a row differed before. */
  lemma ConvergedIff(before: Log, after: Log, h: Hash, verdicts: seq<Decision>)
    requires before <= after && Orderly(after, |before|)
    ensures Converged(after, h, verdicts) <==> forall t :: t != "" ==> Reconciled(before, after, h, verdicts, t)
  {
    forall t | t != ""
      ensures Live(after, h, t) == VerdictFor(verdicts, t) <==> Reconciled(before, after, h, verdicts, t)
    {
      LastRowWins(before, after, h, t);
    }
  }

  ghost predicate Reconciled(before: Log, after: Log, h: Hash, verdicts: seq<Decision>, t: string)
    requires before <= after
  {
    var last := LastFor(after[|before|..], h, t);
    if last.Some? then Shown(last) == VerdictFor(verdicts, t) else !Differs(before, h, verdicts, t)
  }

  /** Every row written for the hash is one that a writer with these fresh decisions would write. */
  ghost predicate WrittenFor(rows: Log, h: Hash, verdicts: seq<Decision>) {
    forall i :: 0 <= i < |rows| && rows[i].key.hash == h && rows[i].key.target != "" ==>
      rows[i].payload == Wanted(verdicts, rows[i].key.target)
  }

  lemma {:induction false} LastIsWanted(rows: Log, h: Hash, verdicts: seq<Decision>, t: string)
    requires WrittenFor(rows, h, verdicts) && t != ""
    ensures LastFor(rows, h, t).Some? <==> exists i :: 0 <= i < |rows| && rows[i].key == Key(h, t)
    ensures LastFor(rows, h, t).Some? ==> LastFor(rows, h, t) == Some(Wanted(verdicts, t))
  {
    if rows != [] {
      LastIsWanted(rows[..|rows| - 1], h, verdicts, t);
    }
  }

  /** Writers that judged the hash alike converge however they interleave, as soon as the differences one of them
      saw at `read` have all been written, by whichever. */
  lemma AgreeingWritersConverge(read: Log, after: Log, h: Hash, verdicts: seq<Decision>)
    requires EngineOutput(verdicts) && read <= after && Orderly(after, |read|)
    requires WrittenFor(after[|read|..], h, verdicts)
    requires forall t :: Differs(read, h, verdicts, t) ==>
      exists i :: 0 <= i < |after[|read|..]| && after[|read|..][i].key == Key(h, t)
    ensures Converged(after, h, verdicts)
  {
    forall t | t != "" ensures Reconciled(read, after, h, verdicts, t) {
      LastIsWanted(after[|read|..], h, verdicts, t);
      VerdictForOf(verdicts, t);
    }
    ConvergedIff(read, after, h, verdicts);
  }

  // ---------- two calls and their schedule ----------

  /** One call on a hash: how much of the log it had read, its fresh decisions, and where its rows stand in the log. */
  datatype Call = Call(read: nat, verdicts: seq<Decision>, rows: seq<nat>)

  /** The positions of the call are those of rows of the hash it wrote after reading. */
  ghost predicate Placed(log: Log, h: Hash, c: Call) {
    && c.read <= |log|
    && forall k :: 0 <= k < |c.rows| ==> c.read <= c.rows[k] < |log| && log[c.rows[k]].key.hash == h
  }

  function RowsOf(log: Log, c: Call): (rows: seq<Decision>)
    requires forall k :: 0 <= k < |c.rows| ==> c.rows[k] < |log|
    ensures |rows| == |c.rows|
  {
    seq(|c.rows|, k requires 0 <= k < |c.rows| => Decision(log[c.rows[k]].key.target, log[c.rows[k]].payload))
  }

  /** The call has written its whole plan, for the log it had read. */
  ghost predicate Carried(log: Log, h: Hash, c: Call) {
    && EngineOutput(c.verdicts) && Placed(log, h, c)
    && IsPlan(log[..c.read], h, c.verdicts, RowsOf(log, c))
  }

  /** From `from` on, the rows of the hash are those of the two calls. */
  ghost predicate TwoCalls(log: Log, from: nat, h: Hash, a: Call, b: Call) {
    && from <= a.read && from <= b.read && Carried(log, h, a) && Carried(log, h, b) && Orderly(log, from)
    && forall i :: from <= i < |log| && log[i].key.hash == h ==> i in a.rows || i in b.rows
  }

  /** The call has a row for the target at `i`. */
  predicate WritesAt(log: Log, c: Call, t: string, i: int) {
    0 <= i < |log| && i in c.rows && log[i].key.target == t
  }

  /** The call writes the target, and the other does not write it afterwards. */
  ghost predicate HasLastWord(log: Log, c: Call, other: Call, t: string) {
    exists i :: WritesAt(log, c, t, i) && forall j :: WritesAt(log, other, t, j) ==> j < i
  }

  lemma {:induction false} CurrentAt(log: Log, from: nat, h: Hash, t: string, i: nat)
    requires from <= i < |log| && Orderly(log, from) && log[i].key == Key(h, t)
    requires forall j :: i < j < |log| ==> log[j].key != Key(h, t)
    ensures Current(log, h, t) == Some(log[i].payload)
    decreases |log|
  {
    LastRowView(log);
    if i < |log| - 1 {
      CurrentAt(log[..|log| - 1], from, h, t, i);
    }
  }

  lemma {:induction false} CurrentSame(log: Log, from: nat, h: Hash, t: string)
    requires from <= |log| && Orderly(log, from)
    requires forall j :: from <= j < |log| ==> log[j].key != Key(h, t)
    ensures Current(log, h, t) == Current(log[..from], h, t)
    decreases |log|
  {
    if from == |log| {
      assert log[..from] == log;
    } else {
      var front := log[..|log| - 1];
      LastRowView(log);
      CurrentSame(front, from, h, t);
      assert front[..from] == log[..from];
    }
  }

  /** The place of a row in the plan of its call. */
  lemma PlanOfRow(log: Log, h: Hash, c: Call, t: string, i: nat) returns (k: nat)
    requires Placed(log, h, c) && WritesAt(log, c, t, i)
    ensures k < |c.rows| && c.rows[k] == i && RowsOf(log, c)[k] == Decision(t, log[i].payload)
  {
    k :| 0 <= k < |c.rows| && c.rows[k] == i;
  }

  /** What a call writes, it wants. */
  lemma RowShows(log: Log, h: Hash, c: Call, t: string, i: nat)
    requires Carried(log, h, c) && WritesAt(log, c, t, i)
    ensures c.read <= i && log[i].key == Key(h, t) && Shown(Some(log[i].payload)) == VerdictFor(c.verdicts, t)
    ensures Differs(log[..c.read], h, c.verdicts, t)
  {
    var k := PlanOfRow(log, h, c, t, i);
    var d := RowsOf(log, c)[k];
    assert d.verdict == Wanted(c.verdicts, d.target);
    VerdictForOf(c.verdicts, t);
  }

  lemma OneRow(log: Log, h: Hash, c: Call, t: string, i: nat, j: nat)
    requires Carried(log, h, c) && WritesAt(log, c, t, i) && WritesAt(log, c, t, j)
    ensures i == j
  {
    var k := PlanOfRow(log, h, c, t, i);
    var l := PlanOfRow(log, h, c, t, j);
    var plan := RowsOf(log, c);
    assert plan[k].target == plan[l].target;
  }

  /** A call writes exactly the targets it saw differ, once each, with the verdict it wants. */
  lemma CallWrites(log: Log, h: Hash, c: Call, t: string)
    requires Carried(log, h, c)
    ensures forall i :: WritesAt(log, c, t, i) ==>
      c.read <= i && log[i].key == Key(h, t) && Shown(Some(log[i].payload)) == VerdictFor(c.verdicts, t)
    ensures (exists i :: WritesAt(log, c, t, i)) <==> Differs(log[..c.read], h, c.verdicts, t)
    ensures forall i, j :: WritesAt(log, c, t, i) && WritesAt(log, c, t, j) ==> i == j
  {
    forall i | WritesAt(log, c, t, i)
      ensures c.read <= i && log[i].key == Key(h, t) && Shown(Some(log[i].payload)) == VerdictFor(c.verdicts, t)
      ensures Differs(log[..c.read], h, c.verdicts, t)
    {
      RowShows(log, h, c, t, i);
    }
    forall i, j | WritesAt(log, c, t, i) && WritesAt(log, c, t, j) ensures i == j {
      OneRow(log, h, c, t, i, j);
    }
    if Differs(log[..c.read], h, c.verdicts, t) {
      DifferenceHasRow(log, h, c, t);
    }
  }

  lemma DifferenceHasRow(log: Log, h: Hash, c: Call, t: string)
    requires Carried(log, h, c) && Differs(log[..c.read], h, c.verdicts, t)
    ensures exists i :: WritesAt(log, c, t, i)
  {
    var plan := RowsOf(log, c);
    assert Decides(plan, t);
    var k :| 0 <= k < |plan| && plan[k].target == t;
    assert WritesAt(log, c, t, c.rows[k]);
  }

  lemma WrittenByEither(log: Log, from: nat, h: Hash, a: Call, b: Call, t: string)
    requires TwoCalls(log, from, h, a, b)
    ensures forall i :: from <= i < |log| && log[i].key == Key(h, t) ==>
      WritesAt(log, a, t, i) || WritesAt(log, b, t, i)
  {
  }

  /** The last row of the two calls for a target shows. */
  lemma LastWordShows(log: Log, from: nat, h: Hash, a: Call, b: Call, t: string, i: nat)
    requires TwoCalls(log, from, h, a, b) && WritesAt(log, a, t, i) && forall j :: WritesAt(log, b, t, j) ==> j <= i
    ensures Live(log, h, t) == VerdictFor(a.verdicts, t)
  {
    CallWrites(log, h, a, t);
    WrittenByEither(log, from, h, a, b, t);
    CurrentAt(log, from, h, t, i);
  }

  /** A target neither call writes shows what both read. */
  lemma NobodysWord(log: Log, from: nat, h: Hash, a: Call, b: Call, t: string)
    requires TwoCalls(log, from, h, a, b) && t != ""
    requires forall i :: !WritesAt(log, a, t, i) && !WritesAt(log, b, t, i)
    ensures Live(log, h, t) == VerdictFor(b.verdicts, t)
  {
    CallWrites(log, h, b, t);
    WrittenByEither(log, from, h, a, b, t);
    CurrentSame(log, b.read, h, t);
  }

  lemma OneRowEach(log: Log, h: Hash, a: Call, b: Call, t: string, i: nat)
    requires Carried(log, h, a) && Carried(log, h, b) && WritesAt(log, b, t, i) && !HasLastWord(log, a, b, t)
    ensures forall j :: WritesAt(log, a, t, j) ==> j <= i
  {
    CallWrites(log, h, b, t);
    forall j | WritesAt(log, a, t, j) ensures j <= i {
      assert exists k :: WritesAt(log, b, t, k) && j <= k;
    }
  }

  /** For a target the two calls judge differently, the verdict of `b` ends in the view exactly when `a` has not the
      last word on it. */
  lemma FinalVerdict(log: Log, from: nat, h: Hash, a: Call, b: Call, t: string)
    requires TwoCalls(log, from, h, a, b) && t != ""
    ensures Live(log, h, t) == VerdictFor(b.verdicts, t) <==>
      VerdictFor(a.verdicts, t) == VerdictFor(b.verdicts, t) || !HasLastWord(log, a, b, t)
  {
    if HasLastWord(log, a, b, t) {
      var i :| WritesAt(log, a, t, i) && forall j :: WritesAt(log, b, t, j) ==> j < i;
      LastWordShows(log, from, h, a, b, t, i);
    } else if i :| WritesAt(log, b, t, i) {
      OneRowEach(log, h, a, b, t, i);
      LastWordShows(log, from, h, b, a, t, i);
    } else {
      NobodysWord(log, from, h, a, b, t);
    }
  }

  /** Both calls complete, the hash ends converged on the decisions of `b` exactly when `a` has the last word on no
      target that the two judge differently. */
  lemma ScheduleConvergesIff(log: Log, from: nat, h: Hash, a: Call, b: Call)
    requires TwoCalls(log, from, h, a, b)
    ensures Converged(log, h, b.verdicts) <==>
      forall t :: t != "" && HasLastWord(log, a, b, t) ==> VerdictFor(a.verdicts, t) == VerdictFor(b.verdicts, t)
  {
    forall t | t != ""
      ensures Live(log, h, t) == VerdictFor(b.verdicts, t) <==>
        VerdictFor(a.verdicts, t) == VerdictFor(b.verdicts, t) || !HasLastWord(log, a, b, t)
    {
      FinalVerdict(log, from, h, a, b, t);
    }
  }

  lemma SeenFromOther(log: Log, from: nat, h: Hash, a: Call, b: Call, t: string, j: nat)
    requires TwoCalls(log, from, h, a, b) && WritesAt(log, b, t, j) && j < a.read
    ensures Live(log[..a.read], h, t) == VerdictFor(b.verdicts, t)
  {
    CallWrites(log, h, a, t);
    CallWrites(log, h, b, t);
    var seen := log[..a.read];
    WrittenByEither(log, from, h, a, b, t);
    assert forall i :: j < i < |seen| ==> seen[i] == log[i];
    CurrentAt(seen, from, h, t, j);
  }

  lemma SeenFromStart(log: Log, from: nat, h: Hash, a: Call, b: Call, t: string)
    requires TwoCalls(log, from, h, a, b) && forall j :: WritesAt(log, b, t, j) ==> a.read <= j
    ensures Live(log[..a.read], h, t) == Live(log[..from], h, t)
  {
    CallWrites(log, h, a, t);
    var seen := log[..a.read];
    WrittenByEither(log, from, h, a, b, t);
    assert forall i :: from <= i < |seen| ==> seen[i] == log[i];
    CurrentSame(seen, from, h, t);
    assert seen[..from] == log[..from];
  }

  /** Whether a call writes such a target at all is told by the log both started from and by the read points: it does
      when the view did not show its verdict at the start, or the other had written the target before it read. */
  lemma WritesIff(log: Log, from: nat, h: Hash, a: Call, b: Call, t: string)
    requires TwoCalls(log, from, h, a, b) && t != ""
    requires VerdictFor(a.verdicts, t) != VerdictFor(b.verdicts, t)
    ensures (exists i :: WritesAt(log, a, t, i)) <==>
      || Live(log[..from], h, t) != VerdictFor(a.verdicts, t)
      || exists j :: WritesAt(log, b, t, j) && j < a.read
  {
    CallWrites(log, h, a, t);
    if j :| WritesAt(log, b, t, j) && j < a.read {
      SeenFromOther(log, from, h, a, b, t, j);
    } else {
      SeenFromStart(log, from, h, a, b, t);
    }
  }

  // ---------- a stale writer ----------

  const WEAK := Verdict("numero_nu", "notify")

  const STRONG := Verdict("title_confirmed", DOWNLOAD)

  /** What a writer that knew fewer names wants, and what one that knows them all wants. */
  const STALE := [Decision("t", WEAK), Decision("u", WEAK)]

  const FRESH := [Decision("t", WEAK), Decision("u", STRONG)]

  function Line(id: int, h: Hash, d: Decision): Entry<Key, Verdict> { Entry(id, Key(h, d.target), "", d.verdict) }

  /** The stale writer reads the empty log and is suspended after its first row; the fresh one writes all it sees
      differ; the stale one resumes. Both plans are complete, and the stale verdict of "u" stays. */
  lemma StaleWriterWins(h: Hash)
    ensures DecisionsToWrite(LastDecisions([], h), STALE) == STALE
    ensures DecisionsToWrite(LastDecisions([Line(1, h, STALE[0])], h), FRESH) == [FRESH[1]]
    ensures !Converged([Line(1, h, STALE[0]), Line(2, h, FRESH[1]), Line(3, h, STALE[1])], h, FRESH)
    ensures Converged([Line(1, h, STALE[0]), Line(2, h, FRESH[1]), Line(3, h, STALE[1])], h, STALE)
  {
    var first := [Line(1, h, STALE[0])];
    var all := [Line(1, h, STALE[0]), Line(2, h, FRESH[1]), Line(3, h, STALE[1])];
    assert LastDecisions([], h) == map[];
    assert STALE[..1] == [STALE[0]] && STALE[..1][..0] == [];
    assert DecisionsToWrite(map[], STALE[..1]) == [STALE[0]];
    AfterFirstRow(h);
    assert FRESH[..1] == [FRESH[0]] && FRESH[..1][..0] == [];
    assert DecisionsToWrite(LastDecisions(first, h), FRESH[..1]) == [];
    LastOfThree(h, "t");
    LastOfThree(h, "u");
    assert VerdictFor(FRESH[1..], "u") == Some(STRONG);
    assert Live(all, h, "u") == Some(WEAK) && VerdictFor(FRESH, "u") == Some(STRONG);
    forall t | t != "" ensures Live(all, h, t) == VerdictFor(STALE, t) {
      LastOfThree(h, t);
      assert VerdictFor(STALE[1..], t) == if t == "u" then Some(WEAK) else None;
    }
  }

  lemma AfterFirstRow(h: Hash)
    ensures
      var persisted := LastDecisions([Line(1, h, STALE[0])], h);
      "t" in persisted && persisted["t"] == WEAK && "u" !in persisted
  {
    var first := [Line(1, h, STALE[0])];
    assert first[..0] == [];
    assert LatestOf(first, Key(h, "t")) == Some(first[0]);
    assert first[0].key.hash == h && first[0].key.target == "t";
  }

  lemma LastOfThree(h: Hash, t: string)
    ensures
      var all := [Line(1, h, STALE[0]), Line(2, h, FRESH[1]), Line(3, h, STALE[1])];
      Current(all, h, t) == if t == "t" || t == "u" then Some(WEAK) else None
  {
    var all := [Line(1, h, STALE[0]), Line(2, h, FRESH[1]), Line(3, h, STALE[1])];
    LastRowWins([], all, h, t);
    assert all[..2][..1] == all[..1] && all[..1][..0] == [];
    assert all[0..] == all;
    assert LastFor(all[..1], h, t) == if t == "t" then Some(WEAK) else None;
    assert LastFor(all[..2], h, t) == if t == "u" then Some(STRONG) else LastFor(all[..1], h, t);
    assert Current([], h, t) == None;
  }
}
