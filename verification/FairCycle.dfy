/** A search cycle comes to an end when its coroutines take turns. */
module FairCycle {
  import opened EventLoop
  import opened SearchCycle

  // ---------- what is left to do, refusals put back not counting ----------

  /** Moves a worker has left, not counting the `task_done` of a task it has put back. */
  function PendingOf(p: Phase): nat { if p.Yielding? then 0 else LeftOf(p) }

  function Pending(ws: seq<Phase>): nat {
    if ws == [] then 0 else Pending(ws[..|ws| - 1]) + PendingOf(ws[|ws| - 1])
  }

  function Yields(ws: seq<Phase>): nat {
    if ws == [] then 0 else Yields(ws[..|ws| - 1]) + One(ws[|ws| - 1].Yielding?)
  }

  /** What the main coroutine still waits for: the workers that have put a task back matter once no task is left. */
  function Waiting(s: State): nat {
    if s.main.Closing? then 0
    else |s.workers| + 1 + (if s.queue == [] then Yields(s.workers) else |s.workers|)
  }

  function Potential(s: State): nat {
    4 * Missing(s.queue, |s.workers|) + Pending(s.workers) + SentinelsIn(s.queue) + Waiting(s)
  }

  lemma {:induction false} PendingUpdate(ws: seq<Phase>, w: nat, p: Phase)
    requires w < |ws|
    ensures Pending(ws[w := p]) + PendingOf(ws[w]) == Pending(ws) + PendingOf(p)
    ensures Yields(ws[w := p]) + One(ws[w].Yielding?) == Yields(ws) + One(p.Yielding?)
  {
    var front := ws[..|ws| - 1];
    if w == |ws| - 1 {
      assert ws[w := p][..|ws| - 1] == front;
    } else {
      PendingUpdate(front, w, p);
      assert ws[w := p][..|ws| - 1] == front[w := p];
    }
  }

  lemma {:induction false} YieldsBound(ws: seq<Phase>)
    ensures Yields(ws) <= |ws|
    ensures Busy(ws) == 0 ==> Yields(ws) == 0
  {
    if ws != [] {
      YieldsBound(ws[..|ws| - 1]);
    }
  }

  // ---------- the moves that bring the end closer ----------

  /** A pull that is not a re-pick, a step of a search, of a pause or of a drop, the join; and the `task_done` of a
      task put back, once no task is left. */
  ghost predicate Advancing(s: State, m: Move) {
    match m
    case Get(_) => Enabled(s, m) && !Repick(s, m)
    case Resume(_) => s.queue == []
    case Touch(_, _) => false
    case Tick(_) => false
    case _ => true
  }

  lemma GetAdvances(s: State, t: State, w: nat, q0: seq<Item>)
    requires Inv(s, q0) && GetStep(s, t, w) && !Repick(s, Get(w))
    ensures Potential(t) < Potential(s)
  {
    GetLowers(s, t, w);
    GetSentinels(s, t, w);
    GetWaits(s, t, w);
    PendingUpdate(s.workers, w, t.workers[w]);
  }

  /** A pull gives the main coroutine no more to wait for. */
  lemma GetWaits(s: State, t: State, w: nat)
    requires MainOk(s) && GetStep(s, t, w)
    ensures Waiting(t) <= Waiting(s)
  {
    assert s.queue[|s.queue| - 1] == Top(s);
    YieldsBound(t.workers);
  }

  lemma RepickKeeps(s: State, w: nat, q0: seq<Item>)
    requires Inv(s, q0) && Repick(s, Get(w))
    ensures
      var t := Apply(s, Get(w));
      t.queue == s.queue && t.main == s.main && s.main.Joining? && t.workers == s.workers[w := Yielding]
    ensures Potential(Apply(s, Get(w))) == Potential(s)
  {
    var task := Top(s).task;
    assert s.queue[|s.queue| - 1] == Top(s) && TaskOk(s, task);
    assert task.skippedBy + {w} == task.skippedBy;
    PendingUpdate(s.workers, w, Yielding);
  }

  lemma WorkerAdvances(s: State, t: State, w: nat, q0: seq<Item>)
    requires Inv(s, q0) && WorkerStep(s, t, w)
    ensures Potential(t) <= Potential(s)
    ensures !s.workers[w].Yielding? || s.queue == [] ==> Potential(t) < Potential(s)
  {
    if s.main.Closing? {
      NobodyBusy(s.workers);
    }
    PendingUpdate(s.workers, w, t.workers[w]);
  }

  lemma JoinAdvances(s: State, q0: seq<Item>)
    requires Inv(s, q0) && Enabled(s, Join)
    ensures Potential(Apply(s, Join)) < Potential(s)
  {
    MissingSentinels(s.queue, Sentinels(|s.workers|), |s.workers|);
    SentinelsConcat(s.queue, Sentinels(|s.workers|));
  }

  /** No move makes more of what is left to do, and those that advance make less. */
  lemma MoveAdvances(s: State, m: Move, q0: seq<Item>)
    requires Inv(s, q0) && Enabled(s, m)
    ensures Potential(Apply(s, m)) <= Potential(s)
    ensures Advancing(s, m) ==> Potential(Apply(s, m)) < Potential(s)
  {
    if m.Get? {
      if Repick(s, m) {
        RepickKeeps(s, m.w, q0);
      } else {
        GetMoves(s, m.w);
        GetAdvances(s, Apply(s, m), m.w, q0);
      }
    } else if m.Join? {
      JoinAdvances(s, q0);
    } else if IsWorkerMove(m) {
      WorkerMoves(s, m);
      WorkerAdvances(s, Apply(s, m), m.w, q0);
    }
  }

  ghost predicate Idles(s: State, ms: seq<Move>)
    requires CanRun(s, ms)
    decreases |ms|
  {
    ms == [] || (!Advancing(s, ms[0]) && Idles(Apply(s, ms[0]), ms[1..]))
  }

  lemma {:induction false} RunAdvances(s: State, ms: seq<Move>, q0: seq<Item>)
    requires Inv(s, q0) && CanRun(s, ms)
    ensures Potential(After(s, ms)) <= Potential(s)
    ensures !Idles(s, ms) ==> Potential(After(s, ms)) < Potential(s)
    decreases |ms|
  {
    if ms != [] {
      MoveKeeps(s, ms[0], q0);
      MoveAdvances(s, ms[0], q0);
      RunAdvances(Apply(s, ms[0]), ms[1..], q0);
    }
  }

  // ---------- fair rounds ----------

  /** The worker gets on with its work: it pulls, or takes a step of a search, a pause or a drop. */
  predicate GetsOn(ms: seq<Move>, w: nat) {
    Get(w) in ms || Start(w) in ms || FinishRun(w) in ms || Unpause(w) in ms || FinishDrop(w) in ms
  }

  /** Nothing to do for the worker: it waits at an empty queue, or has left. */
  predicate Idle(s: State, w: nat) {
    w < |s.workers| && ((s.workers[w].Getting? && s.queue == []) || s.workers[w].Exited?)
  }

  ghost predicate IdleDuring(s: State, ms: seq<Move>, w: nat)
    requires CanRun(s, ms)
    decreases |ms|
  {
    Idle(s, w) || (ms != [] && IdleDuring(Apply(s, ms[0]), ms[1..], w))
  }

  ghost predicate JoinBlockedDuring(s: State, ms: seq<Move>)
    requires CanRun(s, ms)
    decreases |ms|
  {
    !Enabled(s, Join) || (ms != [] && JoinBlockedDuring(Apply(s, ms[0]), ms[1..]))
  }

  /** A stretch of a run in which nobody is starved: every worker gets on with its work unless it is idle at some point,
      and the main coroutine passes the join unless it is blocked there at some point. */
  ghost predicate FairRound(s: State, ms: seq<Move>) {
    && CanRun(s, ms)
    && (forall w :: 0 <= w < |s.workers| ==> GetsOn(ms, w) || IdleDuring(s, ms, w))
    && (Join in ms || JoinBlockedDuring(s, ms))
  }

  /** A move that does not advance: the clock, the inside of a run, a re-pick or its yield. */
  lemma IdleMove(s: State, m: Move, q0: seq<Item>)
    requires Inv(s, q0) && Enabled(s, m) && !Advancing(s, m)
    ensures
      var t := Apply(s, m);
      && t.queue == s.queue && t.main == s.main && |t.workers| == |s.workers|
      && (m.Get? ==> Working(s) && Top(s).Work? && m.w in Top(s).task.skippedBy)
      && (forall w :: Idle(t, w) ==> Idle(s, w))
      && (Enabled(s, Join) ==> Enabled(t, Join))
  {
    if m.Get? {
      RepickKeeps(s, m.w, q0);
    } else if Enabled(s, Join) {
      NobodyBusy(s.workers);
    }
  }

  lemma FirstGetsOn(ms: seq<Move>, w: nat)
    requires ms != [] && GetsOn(ms, w)
    ensures
      var m := ms[0];
      || GetsOn(ms[1..], w)
      || m == Get(w) || m == Start(w) || m == FinishRun(w) || m == Unpause(w) || m == FinishDrop(w)
  {
    assert ms == [ms[0]] + ms[1..];
  }

  lemma {:induction false} IdleRun(s: State, ms: seq<Move>, q0: seq<Item>)
    requires Inv(s, q0) && CanRun(s, ms) && Idles(s, ms)
    ensures forall w :: GetsOn(ms, w) ==> Working(s) && Top(s).Work? && w in Top(s).task.skippedBy
    ensures forall w :: IdleDuring(s, ms, w) ==> Idle(s, w)
    ensures Join !in ms && (Enabled(s, Join) ==> !JoinBlockedDuring(s, ms))
    decreases |ms|
  {
    if ms != [] {
      MoveKeeps(s, ms[0], q0);
      IdleMove(s, ms[0], q0);
      IdleRun(Apply(s, ms[0]), ms[1..], q0);
      assert ms == [ms[0]] + ms[1..];
      forall w | GetsOn(ms, w) ensures Working(s) && Top(s).Work? && w in Top(s).task.skippedBy {
        FirstGetsOn(ms, w);
      }
    }
  }

  /** Until everybody has exited, a fair round advances. */
  lemma FairRoundAdvances(s: State, ms: seq<Move>, q0: seq<Item>)
    requires Inv(s, q0) && FairRound(s, ms) && !Finished(s)
    ensures !Idles(s, ms)
  {
    if Idles(s, ms) {
      IdleRun(s, ms, q0);
      GoneCount(s.workers);
      if forall w :: 0 <= w < |s.workers| ==> Idle(s, w) {
        AllIdle(s, q0);
      } else {
        var w :| 0 <= w < |s.workers| && !Idle(s, w);
        assert GetsOn(ms, w);
        assert forall v :: 0 <= v < |s.workers| ==> GetsOn(ms, v) && v in Top(s).task.skippedBy;
        TopIsWork(s, q0);
        FullSize(Top(s).task.skippedBy, |s.workers|);
      }
    }
  }

  /** When every worker is idle the join is open, or all is over. */
  lemma AllIdle(s: State, q0: seq<Item>)
    requires Inv(s, q0) && forall w :: 0 <= w < |s.workers| ==> Idle(s, w)
    ensures Enabled(s, Join) || Finished(s)
  {
    GoneCount(s.workers);
    if s.main.Closing? {
      SentinelsMatchWorkers(s, q0);
      if s.queue != [] {
        forall w | 0 <= w < |s.workers| ensures s.workers[w].Exited? {
          assert Idle(s, w);
        }
      }
    } else {
      forall w | 0 <= w < |s.workers| ensures s.workers[w] == Getting && s.queue == [] {
        assert Idle(s, w) && !s.workers[w].Exited?;
      }
      assert s.workers[0] == Getting;
      IdleWorkers(s.workers);
    }
  }

  // ---------- how many rounds ----------

  ghost predicate FairRounds(s: State, rounds: seq<seq<Move>>)
    decreases |rounds|
  {
    rounds == [] ||
    (!Finished(s) && FairRound(s, rounds[0]) && FairRounds(After(s, rounds[0]), rounds[1..]))
  }

  lemma {:induction false} FairRoundsFrom(s: State, rounds: seq<seq<Move>>, q0: seq<Item>)
    requires Inv(s, q0) && FairRounds(s, rounds)
    ensures |rounds| <= Potential(s)
    decreases |rounds|
  {
    if rounds != [] {
      RunKeeps(s, rounds[0], q0);
      RunAdvances(s, rounds[0], q0);
      FairRoundAdvances(s, rounds[0], q0);
      FairRoundsFrom(After(s, rounds[0]), rounds[1..], q0);
    }
  }

  lemma {:induction false} NothingPending(ws: seq<Phase>)
    requires forall w :: 0 <= w < |ws| ==> ws[w] == Getting
    ensures Pending(ws) == 0 && Yields(ws) == 0
  {
    if ws != [] {
      NothingPending(ws[..|ws| - 1]);
    }
  }

  lemma {:induction false} NoSentinels(q: seq<Item>)
    requires forall i :: 0 <= i < |q| ==> q[i].Work?
    ensures SentinelsIn(q) == 0
  {
    if q != [] {
      NoSentinels(q[..|q| - 1]);
    }
  }

  /** A fair cycle ends, with its searches, refusals, drops, join and sentinels: from any point of it, the fair rounds
      before the last worker has exited number at most 4 x workers x keywords x channels, and two more per worker and
      one. */
  lemma FairCycleEnds(s: State, texts: seq<string>, q0: seq<Item>, n: nat, ms: seq<Move>, rounds: seq<seq<Move>>)
    requires Filled(q0, texts) && Initial(s, q0, n) && n >= 1
    requires CanRun(s, ms) && FairRounds(After(s, ms), rounds)
    ensures |rounds| <= 4 * (n * (2 * |texts|)) + 2 * n + 1
  {
    InitialInv(s, q0, texts, n);
    RunKeeps(s, ms, q0);
    RunAdvances(s, ms, q0);
    FairRoundsFrom(After(s, ms), rounds, q0);
    forall i | 0 <= i < |q0| ensures q0[i].Work? && q0[i].task.skippedBy == {} {
      FilledItem(q0, texts, i);
    }
    FreshMissing(q0, n);
    NoSentinels(q0);
    NothingPending(s.workers);
  }

  // ---------- there are fair rounds: every cycle can be brought to its end ----------

  /** At most two moves from any point of a cycle, something advances. */
  lemma Advance(s: State, q0: seq<Item>) returns (ms: seq<Move>)
    requires Inv(s, q0) && !Finished(s)
    ensures CanRun(s, ms) && !Idles(s, ms)
  {
    if w: nat :| w < |s.workers| && Away(s.workers[w]) {
      var m := match s.workers[w]
        case Dropping(_) => FinishDrop(w)
        case Starting(_) => Start(w)
        case Running(_) => FinishRun(w)
        case _ => Unpause(w);
      ms := OneMove(s, m);
    } else if Working(s) {
      ms := RefuseOrTake(s, q0);
    } else if w: nat :| w < |s.workers| && s.workers[w].Yielding? {
      if s.main.Closing? {
        NobodyBusy(s.workers);
      }
      ms := OneMove(s, Resume(w));
    } else {
      var m := Progress(s, q0);
      ms := OneMove(s, m);
    }
  }

  lemma OneMove(s: State, m: Move) returns (ms: seq<Move>)
    requires Enabled(s, m) && Advancing(s, m)
    ensures CanRun(s, ms) && !Idles(s, ms)
  {
    ms := [m];
    assert ms[1..] == [];
  }

  /** Somebody at the loop has not refused the top task. */
  lemma RefuseOrTake(s: State, q0: seq<Item>) returns (ms: seq<Move>)
    requires Inv(s, q0) && Working(s) && forall w :: 0 <= w < |s.workers| ==> !Away(s.workers[w])
    ensures CanRun(s, ms) && !Idles(s, ms)
  {
    TopIsWork(s, q0);
    GoneCount(s.workers);
    if forall w :: 0 <= w < |s.workers| ==> w in Top(s).task.skippedBy {
      FullSize(Top(s).task.skippedBy, |s.workers|);
    }
    var w :| 0 <= w < |s.workers| && w !in Top(s).task.skippedBy;
    if s.workers[w].Yielding? {
      var t := Apply(s, Resume(w));
      assert t.workers[w].Getting? && Top(t) == Top(s);
      ms := OneMove(t, Get(w));
      FirstMove(s, Resume(w), ms);
      ms := [Resume(w)] + ms;
    } else {
      ms := OneMove(s, Get(w));
    }
  }

  lemma {:induction false} LastState(s: State, ms: seq<Move>)
    requires CanRun(s, ms)
    ensures forall w :: Idle(After(s, ms), w) ==> IdleDuring(s, ms, w)
    ensures !Enabled(After(s, ms), Join) ==> JoinBlockedDuring(s, ms)
    decreases |ms|
  {
    if ms != [] {
      LastState(Apply(s, ms[0]), ms[1..]);
    }
  }

  /** From any point of a cycle there is a run to its end, and it is fair. */
  lemma {:induction false} CanFinish(s: State, q0: seq<Item>) returns (ms: seq<Move>)
    requires Inv(s, q0)
    ensures FairRound(s, ms) && Finished(After(s, ms))
    decreases Potential(s)
  {
    ms := [];
    if !Finished(s) {
      var first := Advance(s, q0);
      RunKeeps(s, first, q0);
      RunAdvances(s, first, q0);
      var rest := CanFinish(After(s, first), q0);
      RunsJoin(s, first, rest);
      ms := first + rest;
    }
    PullsAreBounded(s, ms, q0);
    LastState(s, ms);
  }
}
