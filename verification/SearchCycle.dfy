/** The work queue of one search cycle (application/run_search_cycle.py). */
module SearchCycle {
  import opened Order

  datatype Channel = Global | Kad

  datatype Job = Job(keyword: string, channel: Channel)

  /** `skippedBy`: the workers that refused the task. A worker is named by its position. */
  datatype SearchTask = SearchTask(job: Job, skippedBy: set<nat>)

  datatype Item = Work(task: SearchTask) | Sentinel

  /** Where a worker is suspended. */
  datatype Phase =
    | Getting
    | Dropping(job: Job)
    | Yielding
    | Starting(job: Job)
    | Running(job: Job)
    | Pausing
    | Exited

  datatype Key = InstanceKey(worker: nat) | ChannelKey(worker: nat, channel: Channel)

  /** The main coroutine: waiting in `queue.join()`, or past it with the sentinels posted. */
  datatype Main = Joining | Closing

  /** `refusals` and `selfSkips` are history: who refused what, and how often `run_task` skipped. */
  datatype State = State(
    queue: seq<Item>,
    unfinished: int,
    workers: seq<Phase>,
    ran: multiset<Job>,
    dropped: multiset<Job>,
    registry: map<Key, int>,
    now: int,
    main: Main,
    refusals: set<(nat, Job)>,
    selfSkips: nat)

  predicate InBackoff(s: State, k: Key) {
    k in s.registry && s.now < s.registry[k]
  }

  predicate Blocked(s: State, w: nat, job: Job) {
    InBackoff(s, InstanceKey(w)) || InBackoff(s, ChannelKey(w, job.channel))
  }

  // ---------- the moves ----------

  /** N workers share a LIFO queue, a blocked task goes back with one more refusal, and the cycle ends by join and
      sentinels. Each move is the code between two awaits; the model cuts at `task_done` and at the start of `run_task`
      as well, and lets any worker move next. So what holds of all its runs holds of those of the event loop; which
      runs a loop with a FIFO ready queue takes is the subject of `EventLoop`. */
  datatype Move =
    | Get(w: nat)
    | FinishDrop(w: nat)
    | Resume(w: nat)
    | Start(w: nat)
    | Touch(w: nat, registry: map<Key, int>)
    | FinishRun(w: nat)
    | Unpause(w: nat)
    | Tick(now: int)
    | Join

  function KeyOwner(k: Key): nat { k.worker }

  /** A worker only touches its own backoff keys. */
  ghost predicate OwnKeysOnly(before: map<Key, int>, after: map<Key, int>, w: nat) {
    forall k: Key :: KeyOwner(k) != w ==>
      (k in before <==> k in after) && (k in before && k in after ==> before[k] == after[k])
  }

  ghost predicate Enabled(s: State, m: Move) {
    match m
    case Get(w) => w < |s.workers| && s.workers[w].Getting? && s.queue != []
    case FinishDrop(w) => w < |s.workers| && s.workers[w].Dropping?
    case Resume(w) => w < |s.workers| && s.workers[w].Yielding?
    case Start(w) => w < |s.workers| && s.workers[w].Starting?
    case Touch(w, registry) => w < |s.workers| && s.workers[w].Running? && OwnKeysOnly(s.registry, registry, w)
    case FinishRun(w) => w < |s.workers| && s.workers[w].Running?
    case Unpause(w) => w < |s.workers| && s.workers[w].Pausing?
    case Tick(_) => true
    case Join => s.main.Joining? && s.unfinished == 0
  }

  function Top(s: State): Item
    requires s.queue != []
  {
    s.queue[|s.queue| - 1]
  }

  function Popped(s: State): seq<Item>
    requires s.queue != []
  {
    s.queue[..|s.queue| - 1]
  }

  /** `task_done()`, then back to `queue.get()`. */
  function Done(s: State, w: nat): State
    requires w < |s.workers|
  {
    s.(unfinished := s.unfinished - 1, workers := s.workers[w := Getting])
  }

  function ApplyGet(s: State, w: nat): State
    requires w < |s.workers| && s.queue != []
  {
    match Top(s)
    case Sentinel => s.(queue := Popped(s), unfinished := s.unfinished - 1, workers := s.workers[w := Exited])
    case Work(task) =>
      if Blocked(s, w, task.job) then
        var skipped := task.skippedBy + {w};
        var refused := s.(refusals := s.refusals + {(w, task.job)});
        if |skipped| >= |s.workers| then
          refused.(queue := Popped(s), workers := s.workers[w := Dropping(task.job)])
        else
          refused.(queue := Popped(s) + [Work(SearchTask(task.job, skipped))], unfinished := s.unfinished + 1,
                   workers := s.workers[w := Yielding])
      else
        s.(queue := Popped(s), workers := s.workers[w := Starting(task.job)])
  }

  function Sentinels(n: nat): (r: seq<Item>)
    ensures |r| == n && forall i :: 0 <= i < n ==> r[i] == Sentinel
  {
    seq(n, _ => Sentinel)
  }

  function Apply(s: State, m: Move): State
    requires Enabled(s, m)
  {
    match m
    case Get(w) => ApplyGet(s, w)
    case FinishDrop(w) => Done(s, w).(dropped := s.dropped + multiset{s.workers[w].job})
    case Resume(w) => Done(s, w)
    case Start(w) =>
      // the backoff check at the head of run_task
      if Blocked(s, w, s.workers[w].job) then
        AfterRun(s, w).(selfSkips := s.selfSkips + 1)
      else
        s.(workers := s.workers[w := Running(s.workers[w].job)])
    case Touch(w, registry) => s.(registry := registry)
    case FinishRun(w) => AfterRun(s, w)
    case Unpause(w) => Done(s, w)
    case Tick(now) => s.(now := now)
    case Join =>
      s.(main := Closing, queue := s.queue + Sentinels(|s.workers|), unfinished := s.unfinished + |s.workers|)
  }

  /** `run_task` returned: pause if items remain, else `task_done` at once. */
  function AfterRun(s: State, w: nat): State
    requires w < |s.workers| && (s.workers[w].Running? || s.workers[w].Starting?)
  {
    var t := s.(ran := s.ran + multiset{s.workers[w].job});
    if s.queue != [] then t.(workers := s.workers[w := Pausing]) else Done(t, w)
  }

  // ---------- what a worker refuses, and what it runs ----------

  /** The registry holds a later instant for the key. */
  predicate Waits(registry: map<Key, int>, now: int, k: Key) { k in registry && now < registry[k] }

  /** A worker whose own key, or whose key for the channel of the task, is in the registry with an instant still to come
      refuses the task and never starts it. */
  lemma BackedOffRefuses(s: State, w: nat)
    requires Enabled(s, Get(w)) && Top(s).Work?
    requires Waits(s.registry, s.now, InstanceKey(w))
          || Waits(s.registry, s.now, ChannelKey(w, Top(s).task.job.channel))
    ensures
      var t, task := Apply(s, Get(w)), Top(s).task;
      && t.refusals == s.refusals + {(w, task.job)}
      && t.workers == s.workers[w := if |task.skippedBy + {w}| < |s.workers| then Yielding else Dropping(task.job)]
      && t.queue == if |task.skippedBy + {w}| < |s.workers|
                    then s.queue[|s.queue| - 1 := Work(SearchTask(task.job, task.skippedBy + {w}))]
                    else s.queue[..|s.queue| - 1]
  {
  }

  /** A worker for which neither holds takes the last item of the queue and starts it; the key of the other channel does
      not matter, nor do the keys of other workers. */
  lemma FreeTakes(s: State, w: nat)
    requires Enabled(s, Get(w)) && Top(s).Work?
    requires !Waits(s.registry, s.now, InstanceKey(w))
    requires !Waits(s.registry, s.now, ChannelKey(w, Top(s).task.job.channel))
    ensures
      var t, item := Apply(s, Get(w)), s.queue[|s.queue| - 1];
      && item.Work? && t.queue == s.queue[..|s.queue| - 1] && t.refusals == s.refusals
      && t.workers == s.workers[w := Starting(item.task.job)]
  {
  }

  /** `run_task` searches exactly when neither holds; otherwise it returns at once. */
  lemma StartSearches(s: State, w: nat)
    requires Enabled(s, Start(w))
    ensures
      var t, job := Apply(s, Start(w)), s.workers[w].job;
      var waits := Waits(s.registry, s.now, InstanceKey(w)) || Waits(s.registry, s.now, ChannelKey(w, job.channel));
      && (!waits ==> t == s.(workers := s.workers[w := Running(job)]))
      && (waits ==>
            t == Apply(s.(workers := s.workers[w := Running(job)]), FinishRun(w)).(selfSkips := s.selfSkips + 1))
  {
  }

  /** A run that returns is counted as run, and the worker pauses exactly when items remain; a reported drop
      is counted as dropped; and no other move counts anything as either. */
  lemma RunsAndDrops(s: State, m: Move)
    requires Enabled(s, m)
    ensures
      var t := Apply(s, m);
      match m
      case FinishRun(w) =>
        && t.ran == s.ran + multiset{s.workers[w].job} && t.dropped == s.dropped && t.queue == s.queue
        && t.workers == s.workers[w := if s.queue == [] then Getting else Pausing]
        && t.unfinished == if s.queue == [] then s.unfinished - 1 else s.unfinished
      case FinishDrop(w) =>
        && t.ran == s.ran && t.dropped == s.dropped + multiset{s.workers[w].job}
        && t.workers == s.workers[w := Getting] && t.unfinished == s.unfinished - 1
      case Start(w) => t.dropped == s.dropped && (t.workers[w].Running? ==> t.ran == s.ran)
      case Join => t.ran == s.ran && t.dropped == s.dropped && t.queue == s.queue + Sentinels(|s.workers|)
      case _ => t.ran == s.ran && t.dropped == s.dropped
  {
  }

  // ---------- the shape of a move ----------

  /** One worker goes on, short of `get`: nothing else moves but the counter, down at `task_done`. */
  ghost predicate WorkerStep(s: State, t: State, w: nat) {
    && w < |s.workers| == |t.workers| && IsBusy(s.workers[w])
    && (t.workers[w].Getting? || t.workers[w].Running? || t.workers[w].Pausing?)
    && t.workers == s.workers[w := t.workers[w]]
    && t.queue == s.queue && t.main == s.main
    && t.refusals == s.refusals && t.registry == s.registry && t.now == s.now
    && t.unfinished == s.unfinished - One(t.workers[w].Getting?)
    && LeftOf(t.workers[w]) < LeftOf(s.workers[w])
  }

  predicate IsWorkerMove(m: Move) { m.FinishDrop? || m.Resume? || m.Start? || m.FinishRun? || m.Unpause? }

  lemma WorkerMoves(s: State, m: Move)
    requires Enabled(s, m) && IsWorkerMove(m)
    ensures WorkerStep(s, Apply(s, m), m.w)
  {
  }

  /** A worker takes the top item: it leaves, drops, puts back with one more refusal, or starts. */
  ghost predicate GetStep(s: State, t: State, w: nat) {
    && w < |s.workers| == |t.workers| && s.workers[w].Getting? && s.queue != []
    && t.workers == s.workers[w := t.workers[w]]
    && t.main == s.main && t.registry == s.registry && t.now == s.now
    && t.ran == s.ran && t.dropped == s.dropped
    && match Top(s)
       case Sentinel =>
         t.workers[w].Exited? && t.queue == Popped(s) && t.unfinished == s.unfinished - 1 && t.refusals == s.refusals
       case Work(task) =>
         var skipped := task.skippedBy + {w};
         if t.workers[w].Yielding? then
           && Blocked(s, w, task.job) && |skipped| < |s.workers| && t.refusals == s.refusals + {(w, task.job)}
           && t.queue == Popped(s) + [Work(SearchTask(task.job, skipped))] && t.unfinished == s.unfinished + 1
         else
           && t.queue == Popped(s) && t.unfinished == s.unfinished
           && if t.workers[w].Dropping? then
                && t.workers[w].job == task.job && Blocked(s, w, task.job)
                && |skipped| >= |s.workers| && t.refusals == s.refusals + {(w, task.job)}
              else
                t.workers[w] == Starting(task.job) && !Blocked(s, w, task.job) && t.refusals == s.refusals
  }

  lemma GetMoves(s: State, w: nat)
    requires Enabled(s, Get(w))
    ensures GetStep(s, ApplyGet(s, w), w)
  {
  }

  // ---------- counting jobs and workers ----------

  predicate Holds(p: Phase, job: Job) {
    match p
    case Dropping(j) => j == job
    case Starting(j) => j == job
    case Running(j) => j == job
    case _ => false
  }

  predicate IsBusy(p: Phase) { !p.Getting? && !p.Exited? }

  function One(b: bool): nat { if b then 1 else 0 }

  /** Workers that hold `job` between `get` and the end of its drop or its run. */
  function Held(ws: seq<Phase>, job: Job): nat {
    if ws == [] then 0 else Held(ws[..|ws| - 1], job) + One(Holds(ws[|ws| - 1], job))
  }

  /** Workers between `get` and `task_done`. */
  function Busy(ws: seq<Phase>): nat {
    if ws == [] then 0 else Busy(ws[..|ws| - 1]) + One(IsBusy(ws[|ws| - 1]))
  }

  function Gone(ws: seq<Phase>): nat {
    if ws == [] then 0 else Gone(ws[..|ws| - 1]) + One(ws[|ws| - 1].Exited?)
  }

  predicate Carries(x: Item, job: Job) { x.Work? && x.task.job == job }

  function Queued(q: seq<Item>, job: Job): nat {
    if q == [] then 0 else Queued(q[..|q| - 1], job) + One(Carries(q[|q| - 1], job))
  }

  lemma {:induction false} HeldUpdate(ws: seq<Phase>, w: nat, p: Phase, job: Job)
    requires w < |ws|
    ensures Held(ws[w := p], job) + One(Holds(ws[w], job)) == Held(ws, job) + One(Holds(p, job))
  {
    var front := ws[..|ws| - 1];
    if w == |ws| - 1 {
      assert ws[w := p][..|ws| - 1] == front;
    } else {
      HeldUpdate(front, w, p, job);
      assert ws[w := p][..|ws| - 1] == front[w := p];
    }
  }

  lemma {:induction false} BusyUpdate(ws: seq<Phase>, w: nat, p: Phase)
    requires w < |ws|
    ensures Busy(ws[w := p]) + One(IsBusy(ws[w])) == Busy(ws) + One(IsBusy(p))
    ensures Gone(ws[w := p]) + One(ws[w].Exited?) == Gone(ws) + One(p.Exited?)
  {
    var front := ws[..|ws| - 1];
    if w == |ws| - 1 {
      assert ws[w := p][..|ws| - 1] == front;
    } else {
      BusyUpdate(front, w, p);
      assert ws[w := p][..|ws| - 1] == front[w := p];
    }
  }

  lemma QueuedSnoc(q: seq<Item>, x: Item, job: Job)
    ensures Queued(q + [x], job) == Queued(q, job) + One(Carries(x, job))
  {
    assert (q + [x])[..|q|] == q;
  }

  lemma {:induction false} NobodyBusy(ws: seq<Phase>)
    requires Busy(ws) == 0
    ensures forall job :: Held(ws, job) == 0
    ensures forall w :: 0 <= w < |ws| ==> !IsBusy(ws[w])
  {
    if ws != [] {
      NobodyBusy(ws[..|ws| - 1]);
      assert forall w :: 0 <= w < |ws| - 1 ==> ws[w] == ws[..|ws| - 1][w];
    }
  }

  lemma {:induction false} SomebodyBusy(ws: seq<Phase>) returns (w: nat)
    requires Busy(ws) > 0
    ensures w < |ws| && IsBusy(ws[w])
  {
    if IsBusy(ws[|ws| - 1]) {
      w := |ws| - 1;
    } else {
      w := SomebodyBusy(ws[..|ws| - 1]);
    }
  }

  lemma {:induction false} GoneCount(ws: seq<Phase>)
    ensures Gone(ws) <= |ws|
    ensures Gone(ws) == |ws| <==> forall w :: 0 <= w < |ws| ==> ws[w].Exited?
    ensures Gone(ws) == 0 <==> forall w :: 0 <= w < |ws| ==> !ws[w].Exited?
  {
    if ws != [] {
      var front, last := ws[..|ws| - 1], ws[|ws| - 1];
      GoneCount(front);
      assert (forall w :: 0 <= w < |ws| ==> ws[w].Exited?) <==>
        (forall w :: 0 <= w < |front| ==> front[w].Exited?) && last.Exited?;
      assert (forall w :: 0 <= w < |ws| ==> !ws[w].Exited?) <==>
        (forall w :: 0 <= w < |front| ==> !front[w].Exited?) && !last.Exited?;
    }
  }

  // ---------- conservation ----------

  /** Each enqueued job is still queued, in hand, run or dropped, and only one of these. */
  ghost predicate Conserved(s: State, q0: seq<Item>, job: Job) {
    Queued(q0, job) == Queued(s.queue, job) + Held(s.workers, job) + s.ran[job] + s.dropped[job]
  }

  /** `unfinished` is the queue plus the workers between `get` and `task_done`. */
  ghost predicate Counted(s: State) {
    s.unfinished == |s.queue| + Busy(s.workers)
  }

  lemma {:induction false} SentinelsCarryNoJob(q: seq<Item>, job: Job)
    requires forall i :: 0 <= i < |q| ==> q[i].Sentinel?
    ensures Queued(q, job) == 0
  {
    if q != [] {
      SentinelsCarryNoJob(q[..|q| - 1], job);
    }
  }

  lemma {:induction false} QueuedConcat(q: seq<Item>, r: seq<Item>, job: Job)
    ensures Queued(q + r, job) == Queued(q, job) + Queued(r, job)
  {
    if r == [] {
      assert q + r == q;
    } else {
      assert (q + r)[..|q + r| - 1] == q + r[..|r| - 1];
      QueuedConcat(q, r[..|r| - 1], job);
    }
  }

  lemma GetConserves(s: State, t: State, w: nat, q0: seq<Item>, job: Job)
    requires Conserved(s, q0, job) && GetStep(s, t, w)
    ensures Conserved(t, q0, job)
  {
    HeldUpdate(s.workers, w, t.workers[w], job);
    if t.workers[w].Yielding? {
      QueuedSnoc(Popped(s), t.queue[|t.queue| - 1], job);
    }
  }

  /** A job leaves a worker's hands by being run or dropped. */
  lemma WorkerLetsGo(s: State, m: Move, job: Job)
    requires Enabled(s, m) && IsWorkerMove(m)
    ensures
      var t := Apply(s, m);
      t.ran[job] + t.dropped[job] + One(Holds(t.workers[m.w], job))
        == s.ran[job] + s.dropped[job] + One(Holds(s.workers[m.w], job))
  {
  }

  lemma WorkerConserves(s: State, t: State, w: nat, q0: seq<Item>, job: Job)
    requires Conserved(s, q0, job) && WorkerStep(s, t, w)
    requires t.ran[job] + t.dropped[job] + One(Holds(t.workers[w], job))
          == s.ran[job] + s.dropped[job] + One(Holds(s.workers[w], job))
    ensures Conserved(t, q0, job)
  {
    HeldUpdate(s.workers, w, t.workers[w], job);
  }

  lemma MoveConserves(s: State, m: Move, q0: seq<Item>, job: Job)
    requires Conserved(s, q0, job) && Enabled(s, m)
    ensures Conserved(Apply(s, m), q0, job)
  {
    if m.Get? {
      GetMoves(s, m.w);
      GetConserves(s, Apply(s, m), m.w, q0, job);
    } else if m.Join? {
      QueuedConcat(s.queue, Sentinels(|s.workers|), job);
      SentinelsCarryNoJob(Sentinels(|s.workers|), job);
    } else if IsWorkerMove(m) {
      WorkerMoves(s, m);
      WorkerLetsGo(s, m, job);
      WorkerConserves(s, Apply(s, m), m.w, q0, job);
    }
  }

  lemma MoveCounts(s: State, m: Move)
    requires Counted(s) && Enabled(s, m)
    ensures Counted(Apply(s, m))
  {
    if m.Get? {
      GetMoves(s, m.w);
      GetCounts(s, Apply(s, m), m.w);
    } else if IsWorkerMove(m) {
      WorkerMoves(s, m);
      WorkerCounts(s, Apply(s, m), m.w);
    }
  }

  lemma GetCounts(s: State, t: State, w: nat)
    requires Counted(s) && GetStep(s, t, w)
    ensures Counted(t)
  {
    BusyUpdate(s.workers, w, t.workers[w]);
  }

  lemma WorkerCounts(s: State, t: State, w: nat)
    requires Counted(s) && WorkerStep(s, t, w)
    ensures Counted(t)
  {
    BusyUpdate(s.workers, w, t.workers[w]);
  }

  // ---------- who refused what ----------

  ghost predicate AllRefused(s: State, job: Job) {
    forall w :: 0 <= w < |s.workers| ==> (w, job) in s.refusals
  }

  /** A queued task's refusals are real, and somebody has not refused it yet. */
  ghost predicate TaskOk(s: State, task: SearchTask) {
    && |task.skippedBy| < |s.workers|
    && forall w :: w in task.skippedBy ==> w < |s.workers| && (w, task.job) in s.refusals
  }

  ghost predicate QueueOk(s: State) {
    forall i :: 0 <= i < |s.queue| && s.queue[i].Work? ==> TaskOk(s, s.queue[i].task)
  }

  /** A task being dropped was refused by everyone. */
  ghost predicate WorkerOk(s: State, w: nat)
    requires w < |s.workers|
  {
    s.workers[w].Dropping? ==> AllRefused(s, s.workers[w].job)
  }

  ghost predicate WorkersOk(s: State) {
    forall w :: 0 <= w < |s.workers| ==> WorkerOk(s, w)
  }

  ghost predicate DropsOk(s: State) {
    forall job :: job in s.dropped ==> AllRefused(s, job)
  }

  lemma {:induction false} SizeBelow(a: set<nat>, n: nat)
    requires forall v :: v in a ==> v < n
    ensures |a| <= n
    decreases n
  {
    if n > 0 {
      SizeBelow(a - {n - 1}, n - 1);
    } else {
      assert a == {};
    }
  }

  /** As many refusals as workers means every worker refused. */
  lemma {:induction false} EveryoneIn(a: set<nat>, n: nat)
    requires forall v :: v in a ==> v < n
    requires |a| >= n
    ensures forall v :: 0 <= v < n ==> v in a
    decreases n
  {
    if n > 0 {
      if n - 1 !in a {
        SizeBelow(a, n - 1);
      }
      var rest := a - {n - 1};
      EveryoneIn(rest, n - 1);
      forall v | 0 <= v < n ensures v in a {
        if v < n - 1 { assert v in rest; }
      }
    }
  }

  lemma GetRefuses(s: State, t: State, w: nat)
    requires QueueOk(s) && WorkersOk(s) && DropsOk(s) && GetStep(s, t, w)
    ensures QueueOk(t) && WorkersOk(t) && DropsOk(t)
  {
    var top := Top(s);
    if top.Work? {
      assert TaskOk(s, top.task);
      if t.workers[w].Dropping? {
        EveryoneIn(top.task.skippedBy + {w}, |s.workers|);
      }
    }
    forall i | 0 <= i < |t.queue| && t.queue[i].Work? ensures TaskOk(t, t.queue[i].task) {
      if i < |s.queue| - 1 {
        assert TaskOk(s, s.queue[i].task);
      }
    }
    forall v | 0 <= v < |t.workers| ensures WorkerOk(t, v) {
      assert WorkerOk(s, v);
    }
    forall job | job in t.dropped ensures AllRefused(t, job) {
      assert AllRefused(s, job);
    }
  }

  /** No refusal and no queued task changes, and what is dropped now was being dropped. */
  lemma RefusalsStay(s: State, t: State)
    requires QueueOk(s) && WorkersOk(s) && DropsOk(s)
    requires |t.workers| == |s.workers| && t.refusals == s.refusals
    requires forall i :: 0 <= i < |t.queue| && t.queue[i].Work? ==> i < |s.queue| && t.queue[i] == s.queue[i]
    requires forall v :: 0 <= v < |t.workers| && t.workers[v].Dropping? ==> t.workers[v] == s.workers[v]
    requires forall job :: job in t.dropped ==>
      job in s.dropped || exists v :: 0 <= v < |s.workers| && s.workers[v] == Dropping(job)
    ensures QueueOk(t) && WorkersOk(t) && DropsOk(t)
  {
    forall i | 0 <= i < |t.queue| && t.queue[i].Work? ensures TaskOk(t, t.queue[i].task) {
      assert TaskOk(s, s.queue[i].task);
    }
    forall v | 0 <= v < |t.workers| ensures WorkerOk(t, v) {
      assert WorkerOk(s, v);
    }
    forall job | job in t.dropped ensures AllRefused(t, job) {
      if job in s.dropped {
        assert AllRefused(s, job);
      } else {
        var v :| 0 <= v < |s.workers| && s.workers[v] == Dropping(job);
        assert WorkerOk(s, v);
      }
    }
  }

  lemma MoveRefuses(s: State, m: Move)
    requires QueueOk(s) && WorkersOk(s) && DropsOk(s) && Enabled(s, m)
    ensures var t := Apply(s, m); QueueOk(t) && WorkersOk(t) && DropsOk(t)
  {
    if m.Get? {
      GetMoves(s, m.w);
      GetRefuses(s, Apply(s, m), m.w);
    } else {
      RefusalsStay(s, Apply(s, m));
    }
  }

  // ---------- the two ends of the cycle ----------

  ghost predicate MainOk(s: State) {
    match s.main
    case Joining =>
      && (forall i :: 0 <= i < |s.queue| ==> s.queue[i].Work?)
      && Gone(s.workers) == 0
    case Closing =>
      && (forall i :: 0 <= i < |s.queue| ==> s.queue[i].Sentinel?)
      && Busy(s.workers) == 0
      && |s.queue| + Gone(s.workers) == |s.workers|
  }

  lemma MoveMain(s: State, m: Move)
    requires |s.workers| >= 1 && Counted(s) && MainOk(s) && Enabled(s, m)
    ensures MainOk(Apply(s, m))
  {
    if m.Get? {
      GetMoves(s, m.w);
      GetMain(s, Apply(s, m), m.w);
    } else if IsWorkerMove(m) {
      WorkerMoves(s, m);
      WorkerMain(s, Apply(s, m), m.w);
    }
  }

  lemma GetMain(s: State, t: State, w: nat)
    requires MainOk(s) && GetStep(s, t, w)
    ensures MainOk(t)
  {
    assert s.queue[|s.queue| - 1] == Top(s);
    BusyUpdate(s.workers, w, t.workers[w]);
  }

  lemma WorkerMain(s: State, t: State, w: nat)
    requires MainOk(s) && WorkerStep(s, t, w)
    ensures MainOk(t)
  {
    if s.main.Closing? {
      NobodyBusy(s.workers);
    }
    BusyUpdate(s.workers, w, t.workers[w]);
  }

  // ---------- every reachable state ----------

  ghost predicate Inv(s: State, q0: seq<Item>) {
    && |s.workers| >= 1
    && (forall job :: Conserved(s, q0, job))
    && Counted(s) && MainOk(s)
    && QueueOk(s) && WorkersOk(s) && DropsOk(s)
  }

  lemma MoveKeeps(s: State, m: Move, q0: seq<Item>)
    requires Inv(s, q0) && Enabled(s, m)
    ensures Inv(Apply(s, m), q0)
  {
    forall job ensures Conserved(Apply(s, m), q0, job) {
      MoveConserves(s, m, q0, job);
    }
    MoveCounts(s, m);
    MoveMain(s, m);
    MoveRefuses(s, m);
  }

  ghost predicate CanRun(s: State, ms: seq<Move>)
    decreases |ms|
  {
    ms == [] || (Enabled(s, ms[0]) && CanRun(Apply(s, ms[0]), ms[1..]))
  }

  ghost function After(s: State, ms: seq<Move>): State
    requires CanRun(s, ms)
    decreases |ms|
  {
    if ms == [] then s else After(Apply(s, ms[0]), ms[1..])
  }

  lemma {:induction false} RunKeeps(s: State, ms: seq<Move>, q0: seq<Item>)
    requires Inv(s, q0) && CanRun(s, ms)
    ensures Inv(After(s, ms), q0)
    decreases |ms|
  {
    if ms != [] {
      MoveKeeps(s, ms[0], q0);
      RunKeeps(Apply(s, ms[0]), ms[1..], q0);
    }
  }

  // ---------- the start of a cycle ----------

  function FirstSeen(s: seq<string>, k: string): nat {
    if s == [] || s[0] == k then 0 else 1 + FirstSeen(s[1..], k)
  }

  lemma {:induction false} FirstSeenAt(s: seq<string>, i: nat)
    requires i < |s|
    ensures FirstSeen(s, s[i]) <= i
    ensures FirstSeen(s, s[i]) == i <==> s[i] !in s[..i]
  {
    if i > 0 {
      assert s[i] == s[1..][i - 1];
      assert s[..i] == [s[0]] + s[1..][..i - 1];
      if s[0] != s[i] {
        FirstSeenAt(s[1..], i - 1);
      }
    }
  }

  /** Ordered, deduplicated, non-empty keywords (domain/search/keywords.py). */
  method GenerateKeywords(keywords: seq<string>) returns (result: seq<string>)
    ensures Distinct(result)
    ensures forall k :: k in result <==> k in keywords && k != ""
    ensures forall i, j :: 0 <= i < j < |result| ==> FirstSeen(keywords, result[i]) < FirstSeen(keywords, result[j])
  {
    result := [];
    for i := 0 to |keywords|
      invariant Distinct(result)
      invariant forall k :: k in result <==> k in keywords[..i] && k != ""
      invariant forall a :: 0 <= a < |result| ==> FirstSeen(keywords, result[a]) < i
      invariant forall a, b :: 0 <= a < b < |result| ==> FirstSeen(keywords, result[a]) < FirstSeen(keywords, result[b])
    {
      assert keywords[..i + 1] == keywords[..i] + [keywords[i]];
      FirstSeenAt(keywords, i);
      if keywords[i] != "" && keywords[i] !in result {
        result := result + [keywords[i]];
      }
    }
    assert keywords[..|keywords|] == keywords;
  }

  ghost predicate FreshTask(x: Item, job: Job) { x == Work(SearchTask(job, {})) }

  ghost predicate Filled(q: seq<Item>, texts: seq<string>) {
    && |q| == 2 * |texts|
    && forall i :: 0 <= i < |texts| ==>
         FreshTask(q[2 * i], Job(texts[i], Global)) && FreshTask(q[2 * i + 1], Job(texts[i], Kad))
  }

  /** One task per keyword and channel, in the shuffled order. */
  method FillQueue(texts: seq<string>) returns (q: seq<Item>)
    ensures Filled(q, texts)
  {
    q := [];
    for i := 0 to |texts|
      invariant Filled(q, texts[..i])
    {
      q := q + [Work(SearchTask(Job(texts[i], Global), {}))] + [Work(SearchTask(Job(texts[i], Kad), {}))];
    }
    assert texts[..|texts|] == texts;
  }

  lemma {:induction false} FilledCounts(q: seq<Item>, texts: seq<string>, job: Job)
    requires Filled(q, texts) && Distinct(texts)
    ensures Queued(q, job) == One(job.keyword in texts)
    decreases |texts|
  {
    if texts != [] {
      var n := |texts| - 1;
      var front, q1 := texts[..n], q[..2 * n + 1];
      assert q1[..2 * n] == q[..2 * n];
      FilledCounts(q[..2 * n], front, job);
      assert FreshTask(q[2 * n], Job(texts[n], Global)) && FreshTask(q[2 * n + 1], Job(texts[n], Kad));
      assert q1 == q[..|q| - 1];
      assert Queued(q, job) == Queued(q1, job) + One(Carries(q[2 * n + 1], job));
      assert Queued(q1, job) == Queued(q[..2 * n], job) + One(Carries(q[2 * n], job));
      match job.channel {
        case Global => assert job == Job(job.keyword, Global);
        case Kad => assert job == Job(job.keyword, Kad);
      }
      assert One(Carries(q[2 * n], job)) + One(Carries(q[2 * n + 1], job)) == One(job.keyword == texts[n]);
      assert texts == front + [texts[n]] && texts[n] !in front;
    }
  }

  ghost predicate Initial(s: State, q0: seq<Item>, n: nat) {
    && s.queue == q0 && s.unfinished == |q0|
    && |s.workers| == n && (forall w :: 0 <= w < n ==> s.workers[w] == Getting)
    && s.ran == multiset{} && s.dropped == multiset{}
    && s.main == Joining && s.refusals == {} && s.selfSkips == 0
  }

  lemma {:induction false} IdleWorkers(ws: seq<Phase>)
    requires forall w :: 0 <= w < |ws| ==> ws[w] == Getting
    ensures Busy(ws) == 0 && Gone(ws) == 0
  {
    if ws != [] {
      IdleWorkers(ws[..|ws| - 1]);
    }
  }

  lemma InitialInv(s: State, q0: seq<Item>, texts: seq<string>, n: nat)
    requires Initial(s, q0, n) && n >= 1 && Filled(q0, texts)
    ensures Inv(s, q0)
  {
    IdleWorkers(s.workers);
    NobodyBusy(s.workers);
    forall i | 0 <= i < |q0| ensures q0[i].Work? && TaskOk(s, q0[i].task) {
      FilledItem(q0, texts, i);
    }
  }

  lemma FilledItem(q: seq<Item>, texts: seq<string>, i: nat)
    requires Filled(q, texts) && i < |q|
    ensures q[i].Work? && q[i].task.skippedBy == {}
  {
    var k := i / 2;
    assert FreshTask(q[2 * k], Job(texts[k], Global)) && FreshTask(q[2 * k + 1], Job(texts[k], Kad));
  }

  // ---------- what a cycle guarantees, over every interleaving ----------

  /** Once `join` can return, and ever after, each job was run or dropped exactly once. */
  lemma JoinedIsComplete(s: State, q0: seq<Item>, job: Job)
    requires Inv(s, q0) && (s.unfinished == 0 || s.main.Closing?)
    ensures s.ran[job] + s.dropped[job] == Queued(q0, job)
  {
    NobodyBusy(s.workers);
    if s.main.Closing? {
      SentinelsCarryNoJob(s.queue, job);
    }
    assert Conserved(s, q0, job);
  }

  lemma CycleRunsOrDropsEachOnce(s: State, texts: seq<string>, q0: seq<Item>, n: nat, ms: seq<Move>, job: Job)
    requires Filled(q0, texts) && Distinct(texts) && Initial(s, q0, n) && n >= 1
    requires CanRun(s, ms)
    requires After(s, ms).unfinished == 0 || After(s, ms).main.Closing?
    ensures After(s, ms).ran[job] + After(s, ms).dropped[job] == One(job.keyword in texts)
  {
    InitialInv(s, q0, texts, n);
    RunKeeps(s, ms, q0);
    JoinedIsComplete(After(s, ms), q0, job);
    FilledCounts(q0, texts, job);
  }

  /** A dropped job was refused, while blocked, by every worker of this cycle. */
  lemma DropsAreUnanimous(s: State, texts: seq<string>, q0: seq<Item>, n: nat, ms: seq<Move>, job: Job)
    requires Filled(q0, texts) && Initial(s, q0, n) && n >= 1
    requires CanRun(s, ms)
    ensures job in After(s, ms).dropped ==> AllRefused(After(s, ms), job)
  {
    InitialInv(s, q0, texts, n);
    RunKeeps(s, ms, q0);
  }

  // ---------- the second backoff check ----------

  /** The clock does not step back between a worker's two backoff checks. */
  ghost predicate Steady(s: State, m: Move) {
    m.Tick? && m.now < s.now ==> forall w :: 0 <= w < |s.workers| ==> !s.workers[w].Starting?
  }

  ghost predicate SteadyRun(s: State, ms: seq<Move>)
    requires CanRun(s, ms)
    decreases |ms|
  {
    ms == [] || (Steady(s, ms[0]) && SteadyRun(Apply(s, ms[0]), ms[1..]))
  }

  /** Nobody about to run is blocked, and nobody has been so far. */
  ghost predicate NoSelfSkip(s: State) {
    && s.selfSkips == 0
    && forall w :: 0 <= w < |s.workers| && s.workers[w].Starting? ==> !Blocked(s, w, s.workers[w].job)
  }

  lemma MoveSkipsNothing(s: State, m: Move)
    requires NoSelfSkip(s) && Enabled(s, m) && Steady(s, m)
    ensures NoSelfSkip(Apply(s, m))
  {
    if m.Get? {
      GetMoves(s, m.w);
    } else if m.Touch? {
      assert forall w, channel :: KeyOwner(InstanceKey(w)) == w && KeyOwner(ChannelKey(w, channel)) == w;
    }
  }

  /** The check at the head of `run_task` never takes effect, unless the clock steps back just before it. */
  lemma {:induction false} RunTaskNeverSkips(s: State, ms: seq<Move>)
    requires NoSelfSkip(s) && CanRun(s, ms) && SteadyRun(s, ms)
    ensures NoSelfSkip(After(s, ms))
    decreases |ms|
  {
    if ms != [] {
      MoveSkipsNothing(s, ms[0]);
      RunTaskNeverSkips(Apply(s, ms[0]), ms[1..]);
    }
  }

  /** When it does, the task counts as run and has not been searched: in any fresh cycle, with a worker whose backoff
      has just ended and a clock that steps back before `run_task` reads it. */
  lemma ClockBackSkips(s: State, texts: seq<string>, q0: seq<Item>, n: nat, w: nat, now: int)
    requires Filled(q0, texts) && texts != [] && Initial(s, q0, n) && w < n
    requires InstanceKey(w) in s.registry && now < s.registry[InstanceKey(w)]
    requires Top(s).Work? && !Blocked(s, w, Top(s).task.job)
    ensures CanRun(s, [Get(w), Tick(now), Start(w)])
    ensures
      var t := After(s, [Get(w), Tick(now), Start(w)]);
      t.selfSkips == 1 && t.ran == multiset{Top(s).task.job} && t.dropped == multiset{}
  {
    FilledItem(q0, texts, |q0| - 1);
    var t := Apply(s, Get(w));
    assert t.workers[w] == Starting(Top(s).task.job);
    TwoMoves(t, Tick(now), Start(w));
    assert [Get(w), Tick(now), Start(w)][1..] == [Tick(now), Start(w)];
  }

  lemma TwoMoves(s: State, m1: Move, m2: Move)
    requires Enabled(s, m1) && Enabled(Apply(s, m1), m2)
    ensures CanRun(s, [m1, m2]) && After(s, [m1, m2]) == Apply(Apply(s, m1), m2)
  {
    var t, u := Apply(s, m1), Apply(Apply(s, m1), m2);
    assert [m1, m2][1..] == [m2] && [m2][1..] == [];
    assert CanRun(u, []) && CanRun(t, [m2]);
    assert After(t, [m2]) == After(u, []) == u;
  }

  /** After the join every worker takes exactly one sentinel: those left are for those not gone. */
  lemma SentinelsMatchWorkers(s: State, q0: seq<Item>)
    requires Inv(s, q0) && s.main.Closing?
    ensures |s.queue| == |s.workers| - Gone(s.workers)
    ensures s.queue == [] <==> forall w :: 0 <= w < |s.workers| ==> s.workers[w].Exited?
  {
    GoneCount(s.workers);
  }

  ghost predicate Finished(s: State) {
    s.main.Closing? && forall w :: 0 <= w < |s.workers| ==> s.workers[w].Exited?
  }

  /** No deadlock: until everybody has exited, some coroutine can take a step. */
  lemma Progress(s: State, q0: seq<Item>) returns (m: Move)
    requires Inv(s, q0) && !Finished(s)
    ensures Enabled(s, m) && !m.Tick? && !m.Touch?
  {
    if Busy(s.workers) > 0 {
      var w := SomebodyBusy(s.workers);
      m := match s.workers[w]
        case Dropping(_) => FinishDrop(w)
        case Yielding => Resume(w)
        case Starting(_) => Start(w)
        case Running(_) => FinishRun(w)
        case _ => Unpause(w);
    } else if s.queue == [] && s.main.Joining? {
      m := Join;
    } else {
      NobodyBusy(s.workers);
      GoneCount(s.workers);
      var w :| 0 <= w < |s.workers| && !s.workers[w].Exited?;
      m := Get(w);
    }
  }

  // ---------- how long a cycle can last ----------

  /** How many workers have not refused yet, summed over the queued tasks. */
  function Missing(q: seq<Item>, n: nat): nat {
    if q == [] then 0
    else Missing(q[..|q| - 1], n) + MissingOf(q[|q| - 1], n)
  }

  function MissingOf(x: Item, n: nat): nat {
    if x.Work? && |x.task.skippedBy| < n then n - |x.task.skippedBy| else 0
  }

  /** A worker takes back a task it has itself refused. */
  ghost predicate Repick(s: State, m: Move) {
    && m.Get? && Enabled(s, m) && Top(s).Work?
    && Blocked(s, m.w, Top(s).task.job) && m.w in Top(s).task.skippedBy
  }

  ghost predicate Productive(s: State, m: Move) {
    m.Get? && Enabled(s, m) && Top(s).Work? && !Repick(s, m)
  }

  lemma MissingSnoc(q: seq<Item>, x: Item, n: nat)
    ensures Missing(q + [x], n) == Missing(q, n) + MissingOf(x, n)
  {
    assert (q + [x])[..|q|] == q;
  }

  lemma {:induction false} MissingSentinels(q: seq<Item>, r: seq<Item>, n: nat)
    requires forall i :: 0 <= i < |r| ==> r[i].Sentinel?
    ensures Missing(q + r, n) == Missing(q, n)
  {
    if r == [] {
      assert q + r == q;
    } else {
      assert (q + r)[..|q + r| - 1] == q + r[..|r| - 1];
      MissingSentinels(q, r[..|r| - 1], n);
    }
  }

  /** Every pull but a re-pick lowers the potential, and no move raises it. */
  lemma MoveLowers(s: State, m: Move, q0: seq<Item>)
    requires Inv(s, q0) && Enabled(s, m)
    ensures Missing(Apply(s, m).queue, |s.workers|) <= Missing(s.queue, |s.workers|)
    ensures Productive(s, m) ==> Missing(Apply(s, m).queue, |s.workers|) < Missing(s.queue, |s.workers|)
  {
    if m.Get? {
      GetMoves(s, m.w);
      GetLowers(s, Apply(s, m), m.w);
    } else if m.Join? {
      MissingSentinels(s.queue, Sentinels(|s.workers|), |s.workers|);
    }
  }

  lemma GetLowers(s: State, t: State, w: nat)
    requires QueueOk(s) && GetStep(s, t, w)
    ensures Missing(t.queue, |s.workers|) <= Missing(s.queue, |s.workers|)
    ensures Top(s).Work? && !Repick(s, Get(w)) ==> Missing(t.queue, |s.workers|) < Missing(s.queue, |s.workers|)
  {
    if Top(s).Work? {
      var skipped := Top(s).task.skippedBy;
      assert TaskOk(s, Top(s).task);
      if t.workers[w].Yielding? {
        if w in skipped {
          assert skipped + {w} == skipped;
        } else {
          assert |skipped + {w}| == |skipped| + 1;
        }
        MissingSnoc(Popped(s), t.queue[|t.queue| - 1], |s.workers|);
      }
    }
  }

  ghost function ProductivePulls(s: State, ms: seq<Move>): nat
    requires CanRun(s, ms)
    decreases |ms|
  {
    if ms == [] then 0
    else (if Productive(s, ms[0]) then 1 else 0) + ProductivePulls(Apply(s, ms[0]), ms[1..])
  }

  lemma OnePull(s: State, m: Move, t: State, q0: seq<Item>)
    requires Inv(s, q0) && Enabled(s, m) && t == Apply(s, m)
    ensures Inv(t, q0) && |t.workers| == |s.workers|
    ensures (if Productive(s, m) then 1 else 0) + Missing(t.queue, |s.workers|) <= Missing(s.queue, |s.workers|)
  {
    MoveKeeps(s, m, q0);
    MoveLowers(s, m, q0);
  }

  lemma {:induction false} PullsAreBounded(s: State, ms: seq<Move>, q0: seq<Item>)
    requires Inv(s, q0) && CanRun(s, ms)
    ensures |After(s, ms).workers| == |s.workers|
    ensures ProductivePulls(s, ms) + Missing(After(s, ms).queue, |s.workers|) <= Missing(s.queue, |s.workers|)
    decreases |ms|
  {
    if ms != [] {
      OnePull(s, ms[0], Apply(s, ms[0]), q0);
      PullsAreBounded(Apply(s, ms[0]), ms[1..], q0);
    }
  }

  lemma {:induction false} FreshMissing(q: seq<Item>, n: nat)
    requires forall i :: 0 <= i < |q| ==> q[i].Work? && q[i].task.skippedBy == {}
    ensures Missing(q, n) == n * |q|
  {
    if q != [] {
      FreshMissing(q[..|q| - 1], n);
    }
  }

  /** In any interleaving of a cycle, the pulls that are not re-picks number at most
      workers x keywords x 2. */
  lemma CyclePulls(s: State, texts: seq<string>, q0: seq<Item>, n: nat, ms: seq<Move>)
    requires Filled(q0, texts) && Initial(s, q0, n) && n >= 1 && CanRun(s, ms)
    ensures ProductivePulls(s, ms) <= n * (2 * |texts|)
  {
    InitialInv(s, q0, texts, n);
    PullsAreBounded(s, ms, q0);
    forall i | 0 <= i < |q0| ensures q0[i].Work? && q0[i].task.skippedBy == {} {
      FilledItem(q0, texts, i);
    }
    FreshMissing(q0, n);
  }

  /** Moves a worker has left before it is back at `get`. */
  function LeftOf(p: Phase): nat {
    match p
    case Starting(_) => 3
    case Running(_) => 2
    case Getting => 0
    case Exited => 0
    case _ => 1
  }

  function Left(ws: seq<Phase>): nat {
    if ws == [] then 0 else Left(ws[..|ws| - 1]) + LeftOf(ws[|ws| - 1])
  }

  function SentinelsIn(q: seq<Item>): nat {
    if q == [] then 0 else SentinelsIn(q[..|q| - 1]) + One(q[|q| - 1].Sentinel?)
  }

  /** Everything that remains to be done, refusals weighing as much as a whole task. */
  function Effort(s: State): int {
    4 * Missing(s.queue, |s.workers|) + Left(s.workers) + SentinelsIn(s.queue)
      + (if s.main.Joining? then |s.workers| + 1 else 0)
  }

  lemma {:induction false} LeftUpdate(ws: seq<Phase>, w: nat, p: Phase)
    requires w < |ws|
    ensures Left(ws[w := p]) + LeftOf(ws[w]) == Left(ws) + LeftOf(p)
  {
    var front := ws[..|ws| - 1];
    if w == |ws| - 1 {
      assert ws[w := p][..|ws| - 1] == front;
    } else {
      LeftUpdate(front, w, p);
      assert ws[w := p][..|ws| - 1] == front[w := p];
    }
  }

  lemma {:induction false} SentinelsConcat(q: seq<Item>, r: seq<Item>)
    requires forall i :: 0 <= i < |r| ==> r[i].Sentinel?
    ensures SentinelsIn(q + r) == SentinelsIn(q) + |r|
  {
    if r == [] {
      assert q + r == q;
    } else {
      assert (q + r)[..|q + r| - 1] == q + r[..|r| - 1];
      SentinelsConcat(q, r[..|r| - 1]);
    }
  }

  lemma GetFalls(s: State, t: State, w: nat)
    requires QueueOk(s) && GetStep(s, t, w) && !Repick(s, Get(w))
    ensures Effort(t) < Effort(s)
  {
    GetLowers(s, t, w);
    GetSentinels(s, t, w);
    LeftUpdate(s.workers, w, t.workers[w]);
  }

  /** A pull takes the top sentinel, or none. */
  lemma GetSentinels(s: State, t: State, w: nat)
    requires GetStep(s, t, w)
    ensures SentinelsIn(t.queue) + One(Top(s).Sentinel?) == SentinelsIn(s.queue)
  {
    if t.workers[w].Yielding? {
      assert t.queue[..|t.queue| - 1] == Popped(s);
    }
  }

  lemma WorkerFalls(s: State, t: State, w: nat)
    requires WorkerStep(s, t, w)
    ensures Effort(t) < Effort(s)
  {
    LeftUpdate(s.workers, w, t.workers[w]);
  }

  /** Apart from the clock, from what happens inside a run, and from re-picks, every move is progress. */
  lemma MoveFalls(s: State, m: Move, q0: seq<Item>)
    requires Inv(s, q0) && Enabled(s, m) && !m.Tick? && !m.Touch? && !Repick(s, m)
    ensures Effort(Apply(s, m)) < Effort(s)
  {
    if m.Get? {
      GetMoves(s, m.w);
      GetFalls(s, Apply(s, m), m.w);
    } else if m.Join? {
      MoveLowers(s, m, q0);
      SentinelsConcat(s.queue, Sentinels(|s.workers|));
    } else {
      WorkerMoves(s, m);
      WorkerFalls(s, Apply(s, m), m.w);
    }
  }

  ghost function Steps(ms: seq<Move>): nat {
    if ms == [] then 0 else (if ms[0].Tick? || ms[0].Touch? then 0 else 1) + Steps(ms[1..])
  }

  /** A single worker never re-picks, so its cycle takes at most this many steps and then must end. */
  lemma {:induction false} SingleWorkerTerminates(s: State, ms: seq<Move>, q0: seq<Item>)
    requires Inv(s, q0) && |s.workers| == 1 && CanRun(s, ms)
    ensures Steps(ms) <= Effort(s)
    decreases |ms|
  {
    if ms != [] {
      MoveKeeps(s, ms[0], q0);
      SingleWorkerNeverRepicks(s, ms[0], q0);
      SingleWorkerTerminates(Apply(s, ms[0]), ms[1..], q0);
      if ms[0].Tick? || ms[0].Touch? {
        assert Effort(Apply(s, ms[0])) == Effort(s);
      } else {
        MoveFalls(s, ms[0], q0);
      }
    }
  }

  lemma SingleWorkerNeverRepicks(s: State, m: Move, q0: seq<Item>)
    requires Inv(s, q0) && |s.workers| == 1
    ensures !Repick(s, m)
  {
    if m.Get? && Enabled(s, m) && Top(s).Work? {
      assert TaskOk(s, Top(s).task);
      assert |Top(s).task.skippedBy| == 0;
    }
  }

  /** A re-pick and its yield change nothing. */
  lemma RepickIsAStutter(s: State, w: nat, q0: seq<Item>)
    requires Inv(s, q0) && Repick(s, Get(w))
    ensures CanRun(s, [Get(w), Resume(w)]) && After(s, [Get(w), Resume(w)]) == s
  {
    var task := Top(s).task;
    assert TaskOk(s, task);
    assert task.skippedBy + {w} == task.skippedBy;
    var t := Apply(s, Get(w));
    assert t.refusals == s.refusals;
    assert t.queue == s.queue;
    assert Apply(t, Resume(w)).workers == s.workers;
    TwoMoves(s, Get(w), Resume(w));
  }
}
