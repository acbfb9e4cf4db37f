/** Whose turn it is in a search cycle (run_search_cycle.py). */
module EventLoop {
  import opened SearchCycle

  // ---------- rounds: everybody at the loop takes a turn ----------

  /** Not at the loop: the worker awaits something outside, or is about to. */
  predicate Away(p: Phase) { p.Starting? || p.Running? || p.Pausing? || p.Dropping? }

  ghost predicate AwayDuring(s: State, ms: seq<Move>, w: nat)
    requires CanRun(s, ms) && w < |s.workers|
    decreases |ms|
  {
    Away(s.workers[w]) || (ms != [] && w < |Apply(s, ms[0]).workers| && AwayDuring(Apply(s, ms[0]), ms[1..], w))
  }

  /** A fair stretch of a run: every worker pulls in it, unless it is away at some point. */
  ghost predicate Round(s: State, ms: seq<Move>) {
    CanRun(s, ms) && forall w :: 0 <= w < |s.workers| ==> Get(w) in ms || AwayDuring(s, ms, w)
  }

  /** Tasks remain and the main coroutine waits for them. */
  predicate Working(s: State) { s.main.Joining? && s.queue != [] }

  /** A move that is not a productive pull leaves the queue alone, and whoever pulls has refused the top task. */
  lemma BarrenMove(s: State, m: Move, q0: seq<Item>)
    requires Inv(s, q0) && Working(s) && Enabled(s, m) && !Productive(s, m)
    ensures Apply(s, m).queue == s.queue && Working(Apply(s, m))
    ensures Top(s).Work? && (m.Get? ==> m.w in Top(s).task.skippedBy)
  {
    assert s.queue[|s.queue| - 1] == Top(s);
    if m.Get? {
      var task := Top(s).task;
      assert TaskOk(s, task);
      assert task.skippedBy + {m.w} == task.skippedBy;
    }
  }

  lemma {:induction false} BarrenRun(s: State, ms: seq<Move>, q0: seq<Item>)
    requires Inv(s, q0) && Working(s) && CanRun(s, ms) && ProductivePulls(s, ms) == 0
    ensures Top(s).Work? && After(s, ms).queue == s.queue && Working(After(s, ms))
    ensures forall w: nat :: Get(w) in ms ==> w in Top(s).task.skippedBy
    decreases |ms|
  {
    assert s.queue[|s.queue| - 1] == Top(s);
    if ms != [] {
      MoveKeeps(s, ms[0], q0);
      BarrenMove(s, ms[0], q0);
      BarrenRun(Apply(s, ms[0]), ms[1..], q0);
      forall w: nat | Get(w) in ms ensures w in Top(s).task.skippedBy {
        assert ms == [ms[0]] + ms[1..];
      }
    }
  }

  lemma {:induction false} FullSize(a: set<nat>, n: nat)
    requires forall v :: 0 <= v < n ==> v in a
    ensures |a| >= n
    decreases n
  {
    if n > 0 {
      FullSize(a - {n - 1}, n - 1);
    }
  }

  /** A round without a productive pull needs a worker that has not refused the top task and is away. */
  lemma BarrenRoundNeedsAway(s: State, ms: seq<Move>, q0: seq<Item>)
    requires Inv(s, q0) && Working(s) && Round(s, ms) && ProductivePulls(s, ms) == 0
    ensures Top(s).Work?
    ensures exists w :: 0 <= w < |s.workers| && w !in Top(s).task.skippedBy && AwayDuring(s, ms, w)
  {
    BarrenRun(s, ms, q0);
    assert s.queue[|s.queue| - 1] == Top(s) && TaskOk(s, Top(s).task);
    if forall w :: 0 <= w < |s.workers| ==> w in Top(s).task.skippedBy {
      FullSize(Top(s).task.skippedBy, |s.workers|);
    }
  }

  /** While nobody goes away, every pull refuses one task, which collects the refusals. */
  lemma {:induction false} RefusalsCollect(s: State, ms: seq<Move>, q0: seq<Item>) returns (task: SearchTask)
    requires Inv(s, q0) && Working(s) && CanRun(s, ms) && Top(s).Work? && AllHere(s, ms)
    ensures After(s, ms).queue == Popped(s) + [Work(task)] && |After(s, ms).workers| == |s.workers|
    ensures Top(s).task.skippedBy <= task.skippedBy && forall w: nat :: Get(w) in ms ==> w in task.skippedBy
    decreases |ms|
  {
    if ms == [] {
      task := Top(s).task;
      assert s.queue == Popped(s) + [Top(s)];
    } else {
      var t := Apply(s, ms[0]);
      MoveKeeps(s, ms[0], q0);
      NobodyAway(s, ms);
      NobodyLeaves(s, ms[0], q0);
      task := RefusalsCollect(t, ms[1..], q0);
      assert ms == [ms[0]] + ms[1..];
    }
  }

  ghost predicate AllHere(s: State, ms: seq<Move>)
    requires CanRun(s, ms)
  {
    forall w :: 0 <= w < |s.workers| ==> !AwayDuring(s, ms, w)
  }

  lemma NobodyAway(s: State, ms: seq<Move>)
    requires CanRun(s, ms) && ms != [] && AllHere(s, ms)
    ensures |Apply(s, ms[0]).workers| == |s.workers| && AllHere(Apply(s, ms[0]), ms[1..])
    ensures forall w :: 0 <= w < |s.workers| ==> !Away(s.workers[w]) && !Away(Apply(s, ms[0]).workers[w])
  {
    var t := Apply(s, ms[0]);
    forall w | 0 <= w < |s.workers|
      ensures w < |t.workers| && !Away(s.workers[w]) && !AwayDuring(t, ms[1..], w) && !Away(t.workers[w])
    {
      assert !AwayDuring(s, ms, w);
    }
  }

  lemma NobodyLeaves(s: State, m: Move, q0: seq<Item>)
    requires Inv(s, q0) && Working(s) && Enabled(s, m) && Top(s).Work?
    requires forall w :: 0 <= w < |s.workers| ==> !Away(s.workers[w]) && !Away(Apply(s, m).workers[w])
    ensures
      var t := Apply(s, m);
      && Working(t) && |t.workers| == |s.workers| && Top(t).Work? && Popped(t) == Popped(s)
      && Top(s).task.skippedBy <= Top(t).task.skippedBy && (m.Get? ==> m.w in Top(t).task.skippedBy)
  {
    if m.Get? {
      GetMoves(s, m.w);
    }
  }

  /** A round in which tasks remain sends somebody away: to a search, or to report a drop. */
  lemma SomebodyGoesAway(s: State, ms: seq<Move>, q0: seq<Item>)
    requires Inv(s, q0) && Working(s) && Round(s, ms)
    ensures exists w :: 0 <= w < |s.workers| && AwayDuring(s, ms, w)
  {
    assert s.queue[|s.queue| - 1] == Top(s);
    if AllHere(s, ms) {
      var task := RefusalsCollect(s, ms, q0);
      var t := After(s, ms);
      RunKeeps(s, ms, q0);
      assert t.queue[|t.queue| - 1] == Work(task) && TaskOk(t, task);
      FullSize(task.skippedBy, |s.workers|);
    }
  }

  // ---------- the schedule of the loop: a FIFO of the workers that can go on ----------

  predicate AtLoop(p: Phase) { p.Getting? || p.Yielding? }

  predicate CanTurn(s: State, w: nat) { w < |s.workers| && AtLoop(s.workers[w]) && s.queue != [] }

  /** A worker that has yielded first counts its task as done. */
  function Resumed(s: State, w: nat): State
    requires w < |s.workers|
  {
    if s.workers[w].Yielding? then Done(s, w) else s
  }

  function StartMoves(s: State, w: nat): seq<Move>
    requires s.queue != []
  {
    if Top(s).Work? && !Blocked(s, w, Top(s).task.job) then [Start(w)] else []
  }

  /** What a worker does in one turn, up to its next suspension. */
  function TurnMoves(s: State, w: nat): seq<Move>
    requires CanTurn(s, w)
  {
    if s.workers[w].Yielding? then [Resume(w)] + ([Get(w)] + StartMoves(s, w)) else [Get(w)] + StartMoves(s, w)
  }

  /** The state after a turn: a worker that starts is running. */
  function Turn(s: State, w: nat): State
    requires CanTurn(s, w)
  {
    var pulled := ApplyGet(Resumed(s, w), w);
    if pulled.workers[w].Starting? then pulled.(workers := pulled.workers[w := Running(pulled.workers[w].job)])
    else pulled
  }

  lemma FirstMove(s: State, m: Move, ms: seq<Move>)
    requires Enabled(s, m) && CanRun(Apply(s, m), ms)
    ensures CanRun(s, [m] + ms) && After(s, [m] + ms) == After(Apply(s, m), ms)
  {
    assert ([m] + ms)[1..] == ms && ([m] + ms)[0] == m;
  }

  lemma FirstPull(s: State, m: Move, ms: seq<Move>)
    requires Enabled(s, m) && CanRun(Apply(s, m), ms) && CanRun(s, [m] + ms)
    ensures ProductivePulls(s, [m] + ms) == One(Productive(s, m)) + ProductivePulls(Apply(s, m), ms)
  {
    assert ([m] + ms)[1..] == ms && ([m] + ms)[0] == m;
  }

  lemma StartRuns(s: State, w: nat)
    requires CanTurn(s, w)
    ensures
      var pulled := ApplyGet(Resumed(s, w), w);
      && CanRun(pulled, StartMoves(s, w)) && After(pulled, StartMoves(s, w)) == Turn(s, w)
      && ProductivePulls(pulled, StartMoves(s, w)) == 0
  {
    var pulled := ApplyGet(Resumed(s, w), w);
    GetMoves(Resumed(s, w), w);
    if StartMoves(s, w) != [] {
      assert pulled.workers[w] == Starting(Top(s).task.job);
      assert StartMoves(s, w) == [Start(w)] + [];
      FirstMove(pulled, Start(w), []);
      FirstPull(pulled, Start(w), []);
    }
  }

  /** A turn is a run, with one pull. */
  lemma TurnRuns(s: State, w: nat)
    requires CanTurn(s, w)
    ensures CanRun(s, TurnMoves(s, w)) && After(s, TurnMoves(s, w)) == Turn(s, w)
    ensures ProductivePulls(s, TurnMoves(s, w)) == One(Productive(Resumed(s, w), Get(w)))
  {
    StartRuns(s, w);
    FirstMove(Resumed(s, w), Get(w), StartMoves(s, w));
    FirstPull(Resumed(s, w), Get(w), StartMoves(s, w));
    if s.workers[w].Yielding? {
      FirstMove(s, Resume(w), [Get(w)] + StartMoves(s, w));
      FirstPull(s, Resume(w), [Get(w)] + StartMoves(s, w));
    }
  }

  /** A worker that yields goes to the end of the queue; one that goes away leaves it. */
  function Requeued(s: State, ready: seq<nat>): seq<nat>
    requires ready != [] && CanTurn(s, ready[0])
  {
    ready[1..] + (if Turn(s, ready[0]).workers[ready[0]].Yielding? then [ready[0]] else [])
  }

  /** `turns` are the workers the loop runs one after the other, while nobody who is away comes back. */
  ghost predicate Scheduled(s: State, ready: seq<nat>, turns: seq<nat>)
    decreases |turns|
  {
    turns == [] ||
    (&& ready != [] && turns[0] == ready[0] && CanTurn(s, ready[0])
     && Scheduled(Turn(s, ready[0]), Requeued(s, ready), turns[1..]))
  }

  ghost function MovesOf(s: State, ready: seq<nat>, turns: seq<nat>): seq<Move>
    requires Scheduled(s, ready, turns)
    decreases |turns|
  {
    if turns == [] then []
    else TurnMoves(s, ready[0]) + MovesOf(Turn(s, ready[0]), Requeued(s, ready), turns[1..])
  }

  lemma {:induction false} RunsJoin(s: State, ms: seq<Move>, ns: seq<Move>)
    requires CanRun(s, ms) && CanRun(After(s, ms), ns)
    ensures CanRun(s, ms + ns) && After(s, ms + ns) == After(After(s, ms), ns)
    decreases |ms|
  {
    if ms == [] {
      assert ms + ns == ns;
    } else {
      var m, rest := ms[0], ms[1..];
      RunsJoin(Apply(s, m), rest, ns);
      FirstMove(s, m, rest + ns);
      assert ms + ns == [m] + (rest + ns);
    }
  }

  lemma {:induction false} PullsJoin(s: State, ms: seq<Move>, ns: seq<Move>)
    requires CanRun(s, ms) && CanRun(After(s, ms), ns) && CanRun(s, ms + ns)
    ensures ProductivePulls(s, ms + ns) == ProductivePulls(s, ms) + ProductivePulls(After(s, ms), ns)
    decreases |ms|
  {
    if ms == [] {
      assert ms + ns == ns;
    } else {
      var m, rest := ms[0], ms[1..];
      assert (ms + ns)[0] == m && (ms + ns)[1..] == rest + ns;
      PullsJoin(Apply(s, m), rest, ns);
    }
  }

  ghost function AfterTurns(s: State, ready: seq<nat>, turns: seq<nat>): State
    requires Scheduled(s, ready, turns)
    decreases |turns|
  {
    if turns == [] then s else AfterTurns(Turn(s, ready[0]), Requeued(s, ready), turns[1..])
  }

  /** A schedule is a run of the cycle. */
  lemma {:induction false} ScheduleRuns(s: State, ready: seq<nat>, turns: seq<nat>)
    requires Scheduled(s, ready, turns)
    ensures CanRun(s, MovesOf(s, ready, turns))
    ensures After(s, MovesOf(s, ready, turns)) == AfterTurns(s, ready, turns)
    decreases |turns|
  {
    if turns != [] {
      TurnRuns(s, ready[0]);
      ScheduleRuns(Turn(s, ready[0]), Requeued(s, ready), turns[1..]);
      RunsJoin(s, TurnMoves(s, ready[0]), MovesOf(Turn(s, ready[0]), Requeued(s, ready), turns[1..]));
    }
  }

  /** The pulls of a schedule are those of its first turn and those of the rest. */
  lemma SchedulePulls(s: State, ready: seq<nat>, turns: seq<nat>)
    requires Scheduled(s, ready, turns) && turns != []
    ensures CanRun(s, TurnMoves(s, ready[0])) && CanRun(s, MovesOf(s, ready, turns))
    ensures
      var t, next := Turn(s, ready[0]), Requeued(s, ready);
      && CanRun(t, MovesOf(t, next, turns[1..]))
      && ProductivePulls(s, MovesOf(s, ready, turns))
           == ProductivePulls(s, TurnMoves(s, ready[0])) + ProductivePulls(t, MovesOf(t, next, turns[1..]))
  {
    var t, next := Turn(s, ready[0]), Requeued(s, ready);
    TurnRuns(s, ready[0]);
    ScheduleRuns(t, next, turns[1..]);
    RunsJoin(s, TurnMoves(s, ready[0]), MovesOf(t, next, turns[1..]));
    PullsJoin(s, TurnMoves(s, ready[0]), MovesOf(t, next, turns[1..]));
  }

  // ---------- exactly when a pass of the loop is barren ----------

  /** The worker is blocked for the top task and has refused it before. */
  predicate Refused(s: State, w: nat)
    requires s.queue != []
  {
    Top(s).Work? && Blocked(s, w, Top(s).task.job) && w in Top(s).task.skippedBy
  }

  /** The turn of a worker is barren exactly when it has refused the top task. */
  lemma BarrenTurn(s: State, w: nat)
    requires Working(s) && CanTurn(s, w) && Top(s).Work?
    ensures CanRun(s, TurnMoves(s, w))
    ensures ProductivePulls(s, TurnMoves(s, w)) == 0 <==> Refused(s, w)
  {
    TurnRuns(s, w);
    assert Top(Resumed(s, w)) == Top(s);
  }

  /** A worker that is blocked for the top task refuses it, once more or for the first time; unless every other worker
      has refused it, it yields, and nothing else changes. */
  lemma BlockedTurn(s: State, w: nat)
    requires CanTurn(s, w) && Top(s).Work? && Blocked(s, w, Top(s).task.job)
    requires |Top(s).task.skippedBy + {w}| < |s.workers|
    ensures
      var t, task := Turn(s, w), Top(s).task;
      && t.queue == Popped(s) + [Work(SearchTask(task.job, task.skippedBy + {w}))]
      && t.workers == s.workers[w := Yielding]
      && t.registry == s.registry && t.now == s.now && t.main == s.main
      && t.ran == s.ran && t.dropped == s.dropped
  {
    assert Top(Resumed(s, w)) == Top(s);
  }

  lemma TurnKeeps(s: State, w: nat, q0: seq<Item>)
    requires Inv(s, q0) && CanTurn(s, w)
    ensures Inv(Turn(s, w), q0)
  {
    TurnRuns(s, w);
    RunKeeps(s, TurnMoves(s, w), q0);
  }

  /** After a barren turn the top task and who has refused it are as they were. */
  lemma BarrenTurnStays(s: State, w: nat, q0: seq<Item>)
    requires Inv(s, q0) && Working(s) && CanTurn(s, w) && Refused(s, w)
    ensures Inv(Turn(s, w), q0) && Working(Turn(s, w))
    ensures Turn(s, w).queue == s.queue && Turn(s, w).workers == s.workers[w := Yielding]
    ensures forall v :: Refused(Turn(s, w), v) <==> Refused(s, v)
  {
    TurnKeeps(s, w, q0);
    var task := Top(s).task;
    assert s.queue[|s.queue| - 1] == Top(s) && TaskOk(s, task);
    assert task.skippedBy + {w} == task.skippedBy;
    BlockedTurn(s, w);
    assert Popped(s) + [Work(SearchTask(task.job, task.skippedBy))] == s.queue;
  }

  /** The first turn of a pass, and what is left of it. */
  lemma PassStep(s: State, pass: seq<nat>, rest: seq<nat>) returns (rest': seq<nat>)
    requires pass != [] && Scheduled(s, pass + rest, pass)
    ensures CanTurn(s, pass[0]) && Scheduled(Turn(s, pass[0]), pass[1..] + rest', pass[1..])
    ensures CanRun(s, TurnMoves(s, pass[0])) && CanRun(s, MovesOf(s, pass + rest, pass))
    ensures
      var t, moves := Turn(s, pass[0]), MovesOf(Turn(s, pass[0]), pass[1..] + rest', pass[1..]);
      && CanRun(t, moves)
      && ProductivePulls(s, MovesOf(s, pass + rest, pass))
           == ProductivePulls(s, TurnMoves(s, pass[0])) + ProductivePulls(t, moves)
  {
    SchedulePulls(s, pass + rest, pass);
    rest' := Requeued(s, pass + rest)[|pass| - 1..];
    assert Requeued(s, pass + rest) == pass[1..] + rest';
  }

  ghost predicate AllRefuse(s: State, pass: seq<nat>)
    requires s.queue != []
  {
    forall w :: w in pass ==> Refused(s, w)
  }

  lemma AllRefuseCons(s: State, t: State, pass: seq<nat>)
    requires pass != [] && s.queue != [] && t.queue != [] && forall v :: Refused(t, v) <==> Refused(s, v)
    ensures AllRefuse(s, pass) <==> Refused(s, pass[0]) && AllRefuse(t, pass[1..])
  {
    assert forall w :: w in pass <==> w == pass[0] || w in pass[1..];
  }

  /** The loop passes over the workers at the head of its queue without a productive pull exactly when each of them is
      blocked for the top task and has refused it before. */
  lemma {:induction false} BarrenPassIff(s: State, pass: seq<nat>, rest: seq<nat>, q0: seq<Item>)
    requires Inv(s, q0) && Working(s) && Scheduled(s, pass + rest, pass)
    ensures CanRun(s, MovesOf(s, pass + rest, pass))
    ensures ProductivePulls(s, MovesOf(s, pass + rest, pass)) == 0 <==> AllRefuse(s, pass)
    decreases |pass|
  {
    if pass != [] {
      var rest' := PassStep(s, pass, rest);
      TopIsWork(s, q0);
      BarrenTurn(s, pass[0]);
      if Refused(s, pass[0]) {
        BarrenTurnStays(s, pass[0], q0);
        BarrenPassIff(Turn(s, pass[0]), pass[1..], rest', q0);
        AllRefuseCons(s, Turn(s, pass[0]), pass);
      } else {
        assert pass[0] in pass;
      }
    }
  }

  lemma TopIsWork(s: State, q0: seq<Item>)
    requires Inv(s, q0) && Working(s)
    ensures Top(s).Work? && TaskOk(s, Top(s).task)
  {
    assert s.queue[|s.queue| - 1] == Top(s);
  }

  // ---------- a search that lasts keeps the loop spinning ----------

  /** Worker 1 is away with a search, and every worker of the queue is backed off. */
  ghost predicate Spinning(s: State, ready: seq<nat>) {
    && Working(s) && |s.workers| >= 2 && s.workers[1].Running? && ready != []
    && Top(s).Work? && 1 !in Top(s).task.skippedBy && (forall v :: v in Top(s).task.skippedBy ==> v < |s.workers|)
    && forall w :: w in ready ==>
         w < |s.workers| && w != 1 && AtLoop(s.workers[w]) && InBackoff(s, InstanceKey(w))
  }

  lemma SomebodyMissing(a: set<nat>, v: nat, n: nat)
    requires v < n && v !in a && forall x :: x in a ==> x < n
    ensures |a| < n
  {
    SizeBelow(a + {v}, n);
  }

  lemma SpinningTurn(s: State, ready: seq<nat>)
    requires Spinning(s, ready)
    ensures CanTurn(s, ready[0]) && Spinning(Turn(s, ready[0]), Requeued(s, ready))
    ensures
      var t := Turn(s, ready[0]);
      t.ran == s.ran && t.dropped == s.dropped && t.workers[1] == s.workers[1] && |t.queue| == |s.queue|
  {
    var w := ready[0];
    assert w in ready && forall v :: v in ready[1..] ==> v in ready;
    SomebodyMissing(Top(s).task.skippedBy + {w}, 1, |s.workers|);
    BlockedTurn(s, w);
  }

  lemma {:induction false} SpinsOn(s: State, ready: seq<nat>, k: nat) returns (turns: seq<nat>)
    requires Spinning(s, ready)
    ensures |turns| == k && Scheduled(s, ready, turns)
    ensures
      var t := AfterTurns(s, ready, turns);
      t.ran == s.ran && t.dropped == s.dropped && |t.workers| >= 2 && t.workers[1] == s.workers[1]
    decreases k
  {
    turns := [];
    if k > 0 {
      SpinningTurn(s, ready);
      var later := SpinsOn(Turn(s, ready[0]), Requeued(s, ready), k - 1);
      turns := [ready[0]] + later;
      assert turns[1..] == later;
    }
  }

  /** The workers in the order they were created. */
  function Created(n: nat): (r: seq<nat>)
    ensures |r| == n && forall i :: 0 <= i < n ==> r[i] == i
  {
    seq(n, i => i)
  }

  /** A fresh cycle in which only worker 1 is not backed off, and can take the top task. */
  ghost predicate OneHealthy(s: State, texts: seq<string>, q0: seq<Item>, n: nat) {
    && Filled(q0, texts) && texts != [] && Initial(s, q0, n) && n >= 2
    && (forall w :: 0 <= w < n && w != 1 ==> InBackoff(s, InstanceKey(w)))
    && Top(s).Work? && !Blocked(s, 1, Top(s).task.job)
  }

  /** Worker 0 refuses the first task. */
  lemma FirstTurn(s: State, texts: seq<string>, q0: seq<Item>, n: nat)
    requires OneHealthy(s, texts, q0, n)
    ensures CanTurn(s, 0) && Requeued(s, Created(n)) == Created(n)[1..] + [0]
    ensures
      var t, job := Turn(s, 0), Top(s).task.job;
      && t.queue == q0[..|q0| - 1] + [Work(SearchTask(job, {0}))] && t.workers == s.workers[0 := Yielding]
      && t.registry == s.registry && t.now == s.now && t.main == Joining
      && t.ran == multiset{} && t.dropped == multiset{}
  {
    FilledItem(q0, texts, |q0| - 1);
    assert {} + {0} == {0};
    BlockedTurn(s, 0);
  }

  /** Worker 1 takes it and searches. */
  lemma SecondTurn(s: State, texts: seq<string>, q0: seq<Item>, n: nat)
    requires OneHealthy(s, texts, q0, n) && CanTurn(s, 0)
    ensures
      var t := Turn(s, 0);
      && CanTurn(t, 1) && Requeued(t, Created(n)[1..] + [0]) == Created(n)[2..] + [0]
      && Turn(t, 1).queue == q0[..|q0| - 1] && Turn(t, 1).workers == t.workers[1 := Running(Top(s).task.job)]
      && Turn(t, 1).registry == s.registry && Turn(t, 1).now == s.now && Turn(t, 1).main == Joining
      && Turn(t, 1).ran == multiset{} && Turn(t, 1).dropped == multiset{}
  {
    FirstTurn(s, texts, q0, n);
    var t, ready := Turn(s, 0), Created(n)[1..] + [0];
    assert ready[0] == 1 && ready[1..] == Created(n)[2..] + [0];
    SearchTurn(t, 1);
    assert Popped(t) == q0[..|q0| - 1];
  }

  lemma NowSpinning(s: State, texts: seq<string>, q0: seq<Item>, n: nat)
    requires OneHealthy(s, texts, q0, n) && CanTurn(s, 0) && CanTurn(Turn(s, 0), 1)
    ensures Spinning(Turn(Turn(s, 0), 1), Created(n)[2..] + [0])
  {
    FirstTurn(s, texts, q0, n);
    SecondTurn(s, texts, q0, n);
    OthersSpin(Turn(Turn(s, 0), 1), texts, q0, n);
  }

  lemma OthersSpin(t: State, texts: seq<string>, q0: seq<Item>, n: nat)
    requires Filled(q0, texts) && texts != [] && t.queue == q0[..|q0| - 1] && t.main.Joining?
    requires |t.workers| == n >= 2 && t.workers[1].Running?
    requires forall w :: 0 <= w < n && w != 1 ==> AtLoop(t.workers[w]) && InBackoff(t, InstanceKey(w))
    ensures Spinning(t, Created(n)[2..] + [0])
  {
    FilledItem(q0, texts, |q0| - 2);
    assert Top(t) == q0[|q0| - 2];
    forall w | w in Created(n)[2..] + [0] ensures w < n && w != 1 {
      assert w in Created(n)[2..] || w == 0;
    }
  }

  /** A worker that is not blocked for the top task is away with it after its turn. */
  lemma SearchTurn(s: State, w: nat)
    requires CanTurn(s, w) && Top(s).Work? && !Blocked(s, w, Top(s).task.job)
    ensures
      var t := Turn(s, w);
      && t.queue == Popped(s) && t.workers == s.workers[w := Running(Top(s).task.job)]
      && t.registry == s.registry && t.now == s.now && t.main == s.main
      && t.ran == s.ran && t.dropped == s.dropped
  {
    assert Top(Resumed(s, w)) == Top(s);
  }

  /** A fresh cycle in which only worker 1 is not backed off: the loop's own schedule has it search the task worker 0
      refuses, and from then on, for as long as that search lasts, the others refuse the next task for ever. */
  lemma SpinsWhileSearching(s: State, texts: seq<string>, q0: seq<Item>, n: nat, k: nat) returns (turns: seq<nat>)
    requires OneHealthy(s, texts, q0, n)
    ensures |turns| == k + 2 && Scheduled(s, Created(n), turns)
    ensures CanRun(s, MovesOf(s, Created(n), turns))
    ensures
      var t := After(s, MovesOf(s, Created(n), turns));
      t.ran == multiset{} && t.dropped == multiset{} && |t.workers| >= 2 && t.workers[1] == Running(Top(s).task.job)
  {
    FirstTurn(s, texts, q0, n);
    SecondTurn(s, texts, q0, n);
    NowSpinning(s, texts, q0, n);
    var ready := Created(n)[2..] + [0];
    var later := SpinsOn(Turn(Turn(s, 0), 1), ready, k);
    turns := [0] + ([1] + later);
    Prepended(Turn(s, 0), Created(n)[1..] + [0], later);
    Prepended(s, Created(n), [1] + later);
    ScheduleRuns(s, Created(n), turns);
  }

  lemma Prepended(s: State, ready: seq<nat>, later: seq<nat>)
    requires ready != [] && CanTurn(s, ready[0]) && Scheduled(Turn(s, ready[0]), Requeued(s, ready), later)
    ensures Scheduled(s, ready, [ready[0]] + later)
    ensures AfterTurns(s, ready, [ready[0]] + later) == AfterTurns(Turn(s, ready[0]), Requeued(s, ready), later)
  {
    assert ([ready[0]] + later)[1..] == later;
  }
}
