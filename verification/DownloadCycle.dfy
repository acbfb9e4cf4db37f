/** One iteration of the download loop, and any run of iterations (run_download_cycle.py). */
module DownloadCycle {
  import opened Downloads
  import opened Options

  datatype DownloadCandidate = DownloadCandidate(hash: Hash, target: string)

  datatype TargetState = TargetState(id: string, status: string)

  /** `_target_status`: the first target with this id; a vanished target counts as complete. */
  function TargetStatus(targets: seq<TargetState>, id: string): string {
    if targets == [] then "complete"
    else if targets[0].id == id then targets[0].status
    else TargetStatus(targets[1..], id)
  }

  /** The status of the first target with the id; "complete" when there is none. */
  lemma {:induction false} TargetStatusIs(targets: seq<TargetState>, id: string)
    ensures
      || (TargetStatus(targets, id) == "complete" && forall i :: 0 <= i < |targets| ==> targets[i].id != id)
      || exists i :: IsFirstWith(targets, id, i) && TargetStatus(targets, id) == targets[i].status
  {
    if targets != [] {
      if targets[0].id == id {
        assert IsFirstWith(targets, id, 0);
      } else {
        TargetStatusIs(targets[1..], id);
        assert forall i :: 0 < i < |targets| ==> targets[i] == targets[1..][i - 1];
        if i :| IsFirstWith(targets[1..], id, i) && TargetStatus(targets[1..], id) == targets[1..][i].status {
          assert IsFirstWith(targets, id, i + 1);
        }
      }
    }
  }

  predicate IsFirstWith(targets: seq<TargetState>, id: string, i: int) {
    0 <= i < |targets| && targets[i].id == id && forall j :: 0 <= j < i ==> targets[j].id != id
  }

  datatype AdmissionFault = AtLookup | AtObservation | AtRecord

  datatype LinkFault = AtObservation | AtMark

  /** Which database calls of one cycle fail. The loops of steps 1, 2 and 3 name theirs by position in the
      list they walk; `stamp` tells which hashes a failing stamp has reached. */
  datatype Faults = Faults(
    monitorRead: bool,
    monitorWrites: set<nat>,
    completionRead: bool,
    completionWrites: set<nat>,
    targetReads: set<nat>,
    stamp: Option<set<Hash>>,
    expiry: bool,
    admissions: map<nat, AdmissionFault>,
    linkRead: bool,
    links: map<Hash, LinkFault>)

  const NO_FAULTS := Faults(false, {}, false, {}, {}, None, false, map[], false, map[])

  /** What the world answers during one cycle; `None` is an unreachable daemon or an unmeasurable disk.
      `observations` gives the size of the last observation of a hash, when it has one; the daemon refuses
      the links of the `rejected` hashes and is gone when asked for the `unreachable` ones. The clock is read once for
      the stamp, once for the cutoff, and for each row that is queued, which a hash is at most once. */
  datatype World = World(
    queue: Option<seq<DownloadEntry>>,
    shared: Option<seq<Hash>>,
    free: Option<int>,
    candidates: Read<seq<DownloadCandidate>>,
    observations: map<Hash, int>,
    rejected: set<Hash>,
    unreachable: set<Hash>,
    stampedAt: int,
    expiredAt: int,
    queuedAt: Hash -> int,
    faults: Faults) {
    /** The daemon answered both reads, so the cycle goes through its five steps. */
    predicate Reachable() { queue.Some? && shared.Some? }
  }

  datatype Charge = Charge(hash: Hash, size: int)

  function Total(charges: seq<Charge>): int {
    if charges == [] then 0 else Total(charges[..|charges| - 1]) + charges[|charges| - 1].size
  }

  lemma TotalSnoc(charges: seq<Charge>, c: Charge)
    ensures Total([]) == 0 && Total(charges + [c]) == Total(charges) + c.size
  {
    assert (charges + [c])[..|charges|] == charges;
  }

  datatype Admission = Abort | Pass | Defer(size: int) | Admit(size: int)

  lemma StatesAfterSet(rows: Table, h: Hash, state: DownloadState)
    requires h in rows
    ensures StatesOf(SetRow(rows, h, state)) == StatesOf(rows)[h := state]
  {
  }

  // ---------- step 1: monitor ----------

  predicate NeedsMark(rows: Table, h: Hash) {
    h in rows && !rows[h].state.Completed? && !rows[h].state.Downloading?
  }

  /** The walk over the queue ends at entry `i`: the first of its hash, which needs a write, and the write fails. */
  ghost predicate StopsAt(rows: Table, queue: seq<DownloadEntry>, writes: set<nat>, i: nat)
    requires i < |queue|
  {
    i in writes && NeedsMark(rows, queue[i].hash) && forall k :: 0 <= k < i ==> queue[k].hash != queue[i].hash
  }

  ghost predicate ClearUpTo(rows: Table, queue: seq<DownloadEntry>, writes: set<nat>, j: nat)
    requires j < |queue|
  {
    forall i :: 0 <= i <= j ==> !StopsAt(rows, queue, writes, i)
  }

  /** The walk meets `h` before any write that fails. */
  ghost predicate Reached(rows: Table, queue: seq<DownloadEntry>, writes: set<nat>, h: Hash) {
    exists j :: 0 <= j < |queue| && queue[j].hash == h && ClearUpTo(rows, queue, writes, j)
  }

  /** A tracked hash of the queue that the walk reaches becomes DOWNLOADING, unless it is COMPLETED. */
  ghost function MarkedRow(rows: Table, queue: seq<DownloadEntry>, writes: set<nat>, h: Hash): Row
    requires h in rows
  {
    if NeedsMark(rows, h) && Reached(rows, queue, writes, h) then rows[h].(state := Downloading) else rows[h]
  }

  ghost predicate Marked(before: Table, after: Table, queue: seq<DownloadEntry>, writes: set<nat>) {
    && after.Keys == before.Keys
    && forall h :: h in before ==> after[h] == MarkedRow(before, queue, writes, h)
  }

  ghost predicate MetBefore(queue: seq<DownloadEntry>, n: nat, h: Hash)
    requires n <= |queue|
  {
    exists k :: 0 <= k < n && queue[k].hash == h
  }

  /** What the walk has done after `n` entries, all its writes having succeeded. */
  ghost predicate MarkedSoFar(before: Table, now: Table, queue: seq<DownloadEntry>, writes: set<nat>, n: nat)
    requires n <= |queue|
  {
    && now.Keys == before.Keys
    && (forall i :: 0 <= i < n ==> !StopsAt(before, queue, writes, i))
    && forall h :: h in before ==>
         now[h] == if NeedsMark(before, h) && MetBefore(queue, n, h)
                   then before[h].(state := Downloading) else before[h]
  }

  // ---------- step 2: completions ----------

  /** Tracked, not transferring, and not completed yet: what is due to complete once it is shared. */
  predicate Due(rows: Table, transferring: set<Hash>, h: Hash) {
    h in rows && h !in transferring && !rows[h].state.Completed?
  }

  /** The entry, among the first `n`, at which `set_state` succeeds for `h`, if it is due. */
  function WriteAt(shared: seq<Hash>, writes: set<nat>, n: nat, h: Hash): (r: Option<nat>)
    requires n <= |shared|
    ensures r.Some? ==> r.value < n && shared[r.value] == h && r.value !in writes
    ensures r.Some? ==> forall i :: 0 <= i < r.value && shared[i] == h ==> i in writes
    ensures r.None? ==> forall i :: 0 <= i < n && shared[i] == h ==> i in writes
  {
    if n == 0 then None
    else
      var r := WriteAt(shared, writes, n - 1, h);
      if r.Some? then r
      else if shared[n - 1] == h && n - 1 !in writes then Some(n - 1)
      else None
  }

  /** `h` has its event among those emitted since `before`. */
  ghost predicate NotifiedSince(before: seq<Hash>, after: seq<Hash>, h: Hash) {
    exists i :: |before| <= i < |after| && after[i] == h
  }

  /** After `n` entries: exactly the due hashes whose own write succeeded are COMPLETED, and exactly those
      whose own `get_target_id` then succeeded are notified, whatever failed for other hashes. */
  ghost predicate Completing(before: Snapshot, now: Snapshot, shared: seq<Hash>, transferring: set<Hash>,
                             faults: Faults, n: nat)
    requires n <= |shared|
  {
    && Advances(before, now) && now.rows.Keys == before.rows.Keys
    && (forall h :: h in before.rows ==>
          now.rows[h] == CompletedRow(before.rows, shared, transferring, faults.completionWrites, n, h))
    && forall h ::
         NotifiedSince(before.completions, now.completions, h) <==>
         Notified(before.rows, shared, transferring, faults, n, h)
  }

  function CompletedRow(rows: Table, shared: seq<Hash>, transferring: set<Hash>, writes: set<nat>, n: nat, h: Hash): Row
    requires n <= |shared| && h in rows
  {
    if Due(rows, transferring, h) && WriteAt(shared, writes, n, h).Some? then rows[h].(state := Completed) else rows[h]
  }

  predicate Notified(rows: Table, shared: seq<Hash>, transferring: set<Hash>, faults: Faults, n: nat, h: Hash)
    requires n <= |shared|
  {
    && Due(rows, transferring, h)
    && WriteAt(shared, faults.completionWrites, n, h).Some?
    && WriteAt(shared, faults.completionWrites, n, h).value !in faults.targetReads
  }

  // ---------- step 2b: presence, then expiry ----------

  /** Stamp first, condemn after; a failed stamp condemns nothing. */
  function AfterPresence(rows: Table, visible: set<Hash>, stampedAt: int, cutoff: int, faults: Faults): Table {
    if faults.stamp.Some? then Stamp(rows, faults.stamp.value * visible, stampedAt)
    else if faults.expiry then Stamp(rows, visible, stampedAt)
    else Expire(Stamp(rows, visible, stampedAt), cutoff)
  }

  // ---------- step 3: admission ----------

  ghost predicate NonNegativeSizes(world: World) {
    forall h :: h in world.observations ==> world.observations[h] >= 0
  }

  function Hashes(charges: seq<Charge>): set<Hash> {
    set i | 0 <= i < |charges| :: charges[i].hash
  }

  /** A charge is for a candidate, at its observed size, towards an incomplete target. */
  ghost predicate Requested(world: World, targets: seq<TargetState>, target: string, c: Charge) {
    && world.candidates.Got? && DownloadCandidate(c.hash, target) in world.candidates.value
    && c.hash in world.observations && c.size == world.observations[c.hash]
    && TargetStatus(targets, target) != "complete"
  }

  ghost predicate QueuedFor(rows: Table, world: World, targets: seq<TargetState>, c: Charge) {
    && c.hash in rows && rows[c.hash] == Row(rows[c.hash].target, Queued, c.size, world.queuedAt(c.hash))
    && Requested(world, targets, rows[c.hash].target, c)
  }

  /** The new rows are the admitted hashes, each QUEUED and each admitted once; no other row changes. */
  ghost predicate Admitted(before: Table, after: Table, world: World, targets: seq<TargetState>,
                           admitted: seq<Charge>)
  {
    && after.Keys == before.Keys + Hashes(admitted)
    && (forall h :: h in before ==> after[h] == before[h])
    && (forall i :: 0 <= i < |admitted| ==>
          admitted[i].hash !in before && QueuedFor(after, world, targets, admitted[i]))
    && (forall i, j :: 0 <= i < j < |admitted| ==> admitted[i].hash != admitted[j].hash)
  }

  /** After every admission the free space, less what is still to come, stays at or above the floor. */
  ghost predicate FloorKept(free: int, outstanding: int, admitted: seq<Charge>, minFree: int) {
    forall k :: 0 < k <= |admitted| ==> free - outstanding - Total(admitted[..k]) >= minFree
  }

  ghost predicate NothingDeferredFits(free: int, outstanding: int, admitted: seq<Charge>, deferred: seq<Charge>,
                                      minFree: int) {
    forall i :: 0 <= i < |deferred| ==> free - outstanding - Total(admitted) - deferred[i].size < minFree
  }

  /** A candidate ends with a row, or has no observation, a complete target, or no room. */
  ghost predicate Settled(world: World, targets: seq<TargetState>, rows: Table, deferred: seq<Charge>,
                          c: DownloadCandidate) {
    || c.hash in rows
    || c.hash !in world.observations
    || TargetStatus(targets, c.target) == "complete"
    || Charge(c.hash, world.observations[c.hash]) in deferred
  }

  ghost predicate AllSettled(world: World, targets: seq<TargetState>, rows: Table, deferred: seq<Charge>,
                             cs: seq<DownloadCandidate>) {
    forall c :: c in cs ==> Settled(world, targets, rows, deferred, c)
  }

  /** The candidates read, none without them or without a measured disk. */
  function Considered(world: World): seq<DownloadCandidate> {
    if world.free.None? || world.candidates.ReadFailed? then [] else world.candidates.value
  }

  /** What step 3 promises: `reached` candidates are settled, and it stops short only at a failing call. */
  ghost predicate AdmissionDone(rows: Table, world: World, targets: seq<TargetState>, outstanding: int, minFree: int,
                                admitted: seq<Charge>, deferred: seq<Charge>, reached: nat) {
    && (Considered(world) == [] ==> admitted == [] && deferred == [])
    && (world.free.Some? ==> FloorKept(world.free.value, outstanding, admitted, minFree))
    && (world.free.Some? && NonNegativeSizes(world) ==>
          NothingDeferredFits(world.free.value, outstanding, admitted, deferred, minFree))
    && reached <= |Considered(world)|
    && AllSettled(world, targets, rows, deferred, Considered(world)[..reached])
    && (reached < |Considered(world)| ==> reached in world.faults.admissions)
    && LookedUp(world, reached)
  }

  /** The lookups of the first `n` candidates have not failed. */
  ghost predicate LookedUp(world: World, n: nat) {
    forall k :: 0 <= k < n && k in world.faults.admissions ==> world.faults.admissions[k] != AtLookup
  }

  // ---------- step 4: links ----------

  /** The rows a link is due for. */
  function Linkable(rows: Table, world: World): set<Hash> {
    set h | h in rows && rows[h].state.Queued? && h in world.observations
  }

  /** What stops the links at a QUEUED row: a failing read or write of its own, or a daemon gone. */
  predicate Obstructed(world: World, h: Hash) {
    || (h in world.faults.links && world.faults.links[h] == LinkFault.AtObservation)
    || (h in world.observations && h in world.unreachable)
    || (h in world.observations && h in world.rejected && h in world.faults.links)
  }

  /** Links were sent for some linkable rows; those rejected are FAILED, nothing else changed. */
  ghost predicate Linked(before: Table, after: Table, world: World, sent: set<Hash>) {
    && sent <= Linkable(before, world)
    && after.Keys == before.Keys
    && (forall h :: h in sent ==> !Obstructed(world, h))
    && forall h :: h in before ==>
         after[h] == if h in sent && h in world.rejected then before[h].(state := Failed) else before[h]
  }

  /** Sending stops short only when the states cannot be read or at an obstructed row, which stays QUEUED. */
  ghost predicate LinksComplete(before: Table, world: World, sent: set<Hash>) {
    || sent == Linkable(before, world)
    || world.faults.linkRead
    || exists h :: h in before && before[h].state.Queued? && h !in sent && Obstructed(world, h)
  }

  // ---------- the five steps ----------

  class DownloadLoop {
    const repo: DownloadRepository
    const targets: seq<TargetState>
    const minFree: int
    const lostAfter: int
    var completions: seq<Hash>

    ghost function Now(): Snapshot
      reads this, repo
    {
      Snapshot(repo.rows, completions)
    }

    constructor (repo: DownloadRepository, targets: seq<TargetState>, minFree: int, lostAfter: int)
      ensures this.repo == repo && completions == []
      ensures this.targets == targets && this.minFree == minFree && this.lostAfter == lostAfter
    {
      this.repo := repo;
      this.targets := targets;
      this.minFree := minFree;
      this.lostAfter := lostAfter;
      completions := [];
    }

    /** Marks the queue's tracked hashes up to the first write that fails, and no other row. */
    method Monitor(states: map<Hash, DownloadState>, queue: seq<DownloadEntry>, writes: set<nat>) returns (r: Outcome)
      requires states == StatesOf(repo.rows)
      modifies repo
      ensures Marked(old(repo.rows), repo.rows, queue, writes)
      ensures r.RepositoryError? <==> exists i :: 0 <= i < |queue| && StopsAt(old(repo.rows), queue, writes, i)
    {
      ghost var before := repo.rows;
      var known := states;
      for i := 0 to |queue|
        invariant known == StatesOf(repo.rows)
        invariant MarkedSoFar(before, repo.rows, queue, writes, i)
      {
        var h := queue[i].hash;
        ghost var was := repo.rows;
        if h in known && known[h] != Completed && known[h] != Downloading {
          StatesAfterSet(repo.rows, h, Downloading);
          r := repo.SetState(h, Downloading, i in writes);
          NeedsFirstMark(before, was, queue, writes, i);
          if r.RepositoryError? {
            StoppedIsMarked(before, repo.rows, queue, writes, i);
            return;
          }
          known := known[h := Downloading];
        }
        MarkStep(before, was, repo.rows, queue, writes, i);
      }
      AllAreMarked(before, repo.rows, queue, writes);
      r := Done;
    }

    /** `set_state`, then `get_target_id`, then the event: the event needs both calls to succeed. */
    method RecordCompletion(h: Hash, writeFails: bool, readFails: bool) returns (r: Outcome)
      requires h in repo.rows
      modifies repo, this`completions
      ensures repo.rows == if writeFails then old(repo.rows) else SetRow(old(repo.rows), h, Completed)
      ensures completions == if writeFails || readFails then old(completions) else old(completions) + [h]
      ensures r.RepositoryError? <==> writeFails || readFails
    {
      r := repo.SetState(h, Completed, writeFails);
      if r.RepositoryError? {
        return;
      }
      var target := repo.GetTargetId(h, readFails);
      if target.ReadFailed? {
        return RepositoryError;
      }
      completions := completions + [h];
    }

    /** Exactly the due hashes complete, each up to its own calls: a failure on one hash skips that hash only. */
    method HandleCompletions(states: map<Hash, DownloadState>, transferring: set<Hash>, shared: seq<Hash>,
                             faults: Faults)
      requires states == StatesOf(repo.rows)
      modifies repo, this`completions
      ensures Completing(old(Now()), Now(), shared, transferring, faults, |shared|)
    {
      ghost var before := Now();
      var known := states;
      CompletionStarts(before, shared, transferring, faults);
      for i := 0 to |shared|
        invariant known == StatesOf(repo.rows)
        invariant Completing(before, Now(), shared, transferring, faults, i)
      {
        known := HandleEntry(known, transferring, shared, faults, i, before);
      }
    }

    /** One entry of the shared list; `known` mirrors the states of the table. */
    method HandleEntry(known: map<Hash, DownloadState>, transferring: set<Hash>, shared: seq<Hash>, faults: Faults,
                       i: nat, ghost before: Snapshot)
      returns (known': map<Hash, DownloadState>)
      requires i < |shared| && known == StatesOf(repo.rows)
      requires Completing(before, Now(), shared, transferring, faults, i)
      modifies repo, this`completions
      ensures known' == StatesOf(repo.rows)
      ensures Completing(before, Now(), shared, transferring, faults, i + 1)
    {
      var h := shared[i];
      known' := known;
      if h !in known || known[h] == Completed || h in transferring {
        CompletionPassed(before, Now(), shared, transferring, faults, i);
        return;
      }
      StatesAfterSet(repo.rows, h, Completed);
      var r := RecordCompletion(h, i in faults.completionWrites, i in faults.targetReads);
      if i !in faults.completionWrites {
        known' := known[h := Completed];
      }
      CompletionTaken(before, old(Now()), Now(), shared, transferring, faults, i);
    }

    method PresenceAndExpiry(visible: set<Hash>, stampedAt: int, expiredAt: int, faults: Faults)
      modifies repo
      ensures repo.rows == AfterPresence(old(repo.rows), visible, stampedAt, expiredAt - lostAfter, faults)
    {
      var r := repo.MarkSeen(visible, stampedAt, faults.stamp);
      if r.Done? {
        var lost := repo.ExpireLost(expiredAt, lostAfter, faults.expiry);
      }
    }

    /** Whether a candidate not known yet, and observed, would be queued. */
    predicate Fits(world: World, c: DownloadCandidate, free: int, charged: int) {
      && c.hash in world.observations
      && TargetStatus(targets, c.target) != "complete"
      && free - charged - world.observations[c.hash] >= minFree
    }

    /** One candidate: known already, without observation, refused by the policy, or queued. */
    method ConsiderCandidate(world: World, c: DownloadCandidate, fault: Option<AdmissionFault>, free: int, charged: int)
      returns (r: Admission)
      modifies repo
      ensures r.Abort? <==>
        || fault == Some(AtLookup)
        || (fault == Some(AdmissionFault.AtObservation) && c.hash !in old(repo.rows))
        || (fault == Some(AtRecord) && c.hash !in old(repo.rows) && Fits(world, c, free, charged))
      ensures !r.Admit? ==> repo.rows == old(repo.rows)
      ensures r.Pass? ==>
        c.hash in repo.rows || c.hash !in world.observations || TargetStatus(targets, c.target) == "complete"
      ensures r.Admit? || r.Defer? ==>
        && c.hash !in old(repo.rows) && TargetStatus(targets, c.target) != "complete"
        && c.hash in world.observations && r.size == world.observations[c.hash]
        && (r.Admit? <==> free - charged - r.size >= minFree)
      ensures r.Admit? ==> repo.rows == old(repo.rows)[c.hash := Row(c.target, Queued, r.size, world.queuedAt(c.hash))]
    {
      var known := repo.IsDownloaded(c.hash, fault == Some(AtLookup));
      if known.ReadFailed? {
        return Abort;
      }
      if known.value {
        return Pass;
      }
      if fault == Some(AdmissionFault.AtObservation) {
        return Abort;
      }
      if c.hash !in world.observations {
        return Pass;
      }
      var size := world.observations[c.hash];
      var verdict := DownloadPolicy("download", TargetStatus(targets, c.target), false, free, charged, size, minFree);
      if verdict != Download {
        return if verdict == SkipDiskCap then Defer(size) else Pass;
      }
      var queued := repo.RecordQueued(c.hash, c.target, size, world.queuedAt(c.hash), fault == Some(AtRecord));
      r := if queued.Done? then Admit(size) else Abort;
    }

    /** Admission never eats into the floor, charges a hash once, and defers only what does not fit. */
    method QueueNewCandidates(world: World, outstanding: int)
      returns (admitted: seq<Charge>, deferred: seq<Charge>, reached: nat)
      modifies repo
      ensures Admitted(old(repo.rows), repo.rows, world, targets, admitted)
      ensures AdmissionDone(repo.rows, world, targets, outstanding, minFree, admitted, deferred, reached)
    {
      admitted, deferred, reached := [], [], 0;
      if world.free.None? || world.candidates.ReadFailed? {
        return;
      }
      var free, candidates := world.free.value, world.candidates.value;
      var charged := outstanding;
      ghost var before := repo.rows;
      while reached < |candidates|
        invariant charged == outstanding + Total(admitted)
        invariant Going(before, repo.rows, world, targets, free, outstanding, admitted, deferred, minFree, reached)
      {
        ghost var was := repo.rows;
        var c := candidates[reached];
        var r := ConsiderCandidate(world, c, FaultAt(world.faults.admissions, reached), free, charged);
        if r.Abort? {
          return;
        }
        CandidateDone(before, was, repo.rows, world, targets, free, outstanding, admitted, deferred, minFree, reached, r);
        charged := if r.Admit? then charged + r.size else charged;
        admitted := if r.Admit? then admitted + [Charge(c.hash, r.size)] else admitted;
        deferred := if r.Defer? then deferred + [Charge(c.hash, r.size)] else deferred;
        reached := reached + 1;
      }
      assert candidates[..|candidates|] == candidates;
    }

    /** Every QUEUED row with an observation has its link sent; a rejected link fails its own row and no
        other; what stops the walk is the states' read or a row's own obstacle. */
    method AddLinks(world: World) returns (sent: set<Hash>)
      modifies repo
      ensures Linked(old(repo.rows), repo.rows, world, sent)
      ensures LinksComplete(old(repo.rows), world, sent)
    {
      sent := {};
      var states := repo.ActiveStates(world.faults.linkRead);
      if states.ReadFailed? {
        return;
      }
      ghost var before := repo.rows;
      var pending := set h | h in states.value && states.value[h] == Queued;
      while pending != {}
        invariant Linked(before, repo.rows, world, sent)
        invariant forall h :: h in pending ==> h in before && before[h].state == Queued && h !in sent
        invariant forall h :: h in Linkable(before, world) ==> h in sent || h in pending
      {
        var h :| h in pending;
        pending := pending - {h};
        if h in world.faults.links && world.faults.links[h] == LinkFault.AtObservation {
          return;
        }
        if h !in world.observations {
          continue;
        }
        if h in world.unreachable {
          return;
        }
        ghost var was := repo.rows;
        if h in world.rejected {
          var r := repo.SetState(h, Failed, h in world.faults.links);
          if r.RepositoryError? {
            return;
          }
        }
        LinkSent(before, was, repo.rows, world, sent, h);
        sent := sent + {h};
      }
    }

    // ---------- one cycle, any run of cycles ----------

    /** Step 1 with its own repository failures absorbed. */
    method MonitorStep(world: World)
      requires world.queue.Some?
      modifies repo
      ensures MonitorDone(old(repo.rows), repo.rows, world)
    {
      var states := repo.ActiveStates(world.faults.monitorRead);
      if states.Got? {
        var r := Monitor(states.value, world.queue.value, world.faults.monitorWrites);
      }
    }

    /** Step 2, on states read afresh, with its own repository failures absorbed. */
    method CompletionStep(world: World)
      requires world.Reachable()
      modifies repo, this`completions
      ensures CompletionDone(old(Now()), Now(), world)
    {
      ghost var before := Now();
      var states := repo.ActiveStates(world.faults.completionRead);
      if states.Got? {
        HandleCompletions(states.value, Transferring(world.queue.value), world.shared.value, world.faults);
      }
    }

    /** The five steps, each failing on its own; only an unreachable daemon ends the cycle early. */
    method RunDownloadCycle(world: World) returns (report: Report)
      modifies repo, this`completions
      ensures CycleSpec(old(Now()), Now(), world, targets, minFree, lostAfter, report)
    {
      ghost var s0 := Now();
      report := Report([], [], 0, {});
      if world.queue.None? {
        return;
      }
      MonitorStep(world);
      ghost var s1 := Now();
      assert MonitorDone(s0.rows, s1.rows, world);
      if world.shared.None? {
        MonitoringAdvances(s0, s1, world);
        return;
      }
      CompletionStep(world);
      ghost var s2 := Now();
      assert CompletionDone(s1, s2, world);
      ghost var t3, t4;
      report, t3, t4 := LaterSteps(world);
      CycleOutcome(s0, s1, s2, t3, t4, Now(), world, targets, minFree, lostAfter, report);
    }

    /** Steps 2b, 3 and 4; `t3` and `t4` are the tables between them. */
    method LaterSteps(world: World) returns (report: Report, ghost t3: Table, ghost t4: Table)
      requires world.Reachable()
      modifies repo
      ensures LaterDone(old(repo.rows), t3, t4, repo.rows, world, targets, minFree, lostAfter, report)
    {
      ghost var t2 := repo.rows;
      PresenceAndExpiry(Visible(world), world.stampedAt, world.expiredAt, world.faults);
      t3 := repo.rows;
      assert t3 == AfterPresence(t2, Visible(world), world.stampedAt, world.expiredAt - lostAfter, world.faults);
      var admitted, deferred, reached := QueueNewCandidates(world, Outstanding(world.queue.value));
      t4 := repo.rows;
      assert Admitted(t3, t4, world, targets, admitted);
      var sent := AddLinks(world);
      report := Report(admitted, deferred, reached, sent);
    }

    /** One cycle after the other; `history` holds the state before the first and after each. */
    method Run(worlds: seq<World>) returns (reports: seq<Report>, ghost history: seq<Snapshot>)
      modifies repo, this`completions
      ensures |reports| == |worlds| && IsRun(history, worlds, targets, minFree, lostAfter, reports)
      ensures history[0] == old(Now()) && history[|worlds|] == Now()
    {
      reports, history := [], [Now()];
      for i := 0 to |worlds|
        invariant |reports| == i && IsRun(history, worlds[..i], targets, minFree, lostAfter, reports)
        invariant history[0] == old(Now()) && history[i] == Now()
      {
        var report := RunDownloadCycle(worlds[i]);
        assert worlds[..i + 1] == worlds[..i] + [worlds[i]];
        reports := reports + [report];
        history := history + [Now()];
      }
      assert worlds[..|worlds|] == worlds;
    }
  }

  function FaultAt(faults: map<nat, AdmissionFault>, i: nat): Option<AdmissionFault> {
    if i in faults then Some(faults[i]) else None
  }

  /** What a cycle did in steps 3 and 4; `reached` counts the candidates considered to the end. */
  datatype Report = Report(admitted: seq<Charge>, deferred: seq<Charge>, reached: nat, sent: set<Hash>)

  /** Everything amuled shows this cycle: its queue and its shared files. */
  function Visible(world: World): set<Hash>
    requires world.Reachable()
  {
    QueueHashes(world.queue.value) + set h | h in world.shared.value
  }

  // ---------- what each step promises ----------

  ghost predicate MonitorDone(before: Table, after: Table, world: World)
    requires world.queue.Some?
  {
    && after.Keys == before.Keys
    && forall h :: h in before ==> after[h] == MonitoredRow(before, world, h)
  }

  ghost function MonitoredRow(rows: Table, world: World, h: Hash): Row
    requires world.queue.Some? && h in rows
  {
    if world.faults.monitorRead then rows[h] else MarkedRow(rows, world.queue.value, world.faults.monitorWrites, h)
  }

  ghost predicate CompletionDone(before: Snapshot, after: Snapshot, world: World)
    requires world.Reachable()
  {
    if world.faults.completionRead then after == before
    else
      var shared := world.shared.value;
      Completing(before, after, shared, Transferring(world.queue.value), world.faults, |shared|)
  }

  ghost predicate LaterDone(t2: Table, t3: Table, t4: Table, t5: Table, world: World, targets: seq<TargetState>,
                            minFree: int, lostAfter: int, report: Report)
    requires world.Reachable()
  {
    && t3 == AfterPresence(t2, Visible(world), world.stampedAt, world.expiredAt - lostAfter, world.faults)
    && Admitted(t3, t4, world, targets, report.admitted)
    && AdmissionDone(t4, world, targets, Outstanding(world.queue.value), minFree,
                     report.admitted, report.deferred, report.reached)
    && Linked(t4, t5, world, report.sent) && LinksComplete(t4, world, report.sent)
  }

  // ---------- what a whole cycle promises ----------

  /** The entry of the shared list at which `h` becomes COMPLETED in this cycle, if it does. */
  function CompletesAt(rows: Table, world: World, h: Hash): Option<nat> {
    if !world.Reachable() || world.faults.completionRead || !Due(rows, Transferring(world.queue.value), h) then None
    else WriteAt(world.shared.value, world.faults.completionWrites, |world.shared.value|, h)
  }

  /** A row ends COMPLETED exactly when it was, or when it is due, shared, and its own write succeeds after a
      successful read of the states; it is notified exactly when, besides, its own `get_target_id` succeeds. */
  ghost predicate CompletionsExact(start: Snapshot, end: Snapshot, world: World) {
    forall h ::
      && (IsCompleted(end.rows, h) <==> IsCompleted(start.rows, h) || CompletesAt(start.rows, world, h).Some?)
      && (NotifiedSince(start.completions, end.completions, h) <==> ReadSucceeds(start.rows, world, h))
  }

  /** `h` becomes COMPLETED in this cycle, and its own `get_target_id` succeeds. */
  predicate ReadSucceeds(rows: Table, world: World, h: Hash) {
    var at := CompletesAt(rows, world, h);
    at.Some? && at.value !in world.faults.targetReads
  }

  /** The daemon shows `h`, in its queue or among its shared files. */
  ghost predicate Shows(world: World, h: Hash) {
    && world.queue.Some? && world.shared.Some?
    && (h in world.shared.value || exists i :: 0 <= i < |world.queue.value| && world.queue.value[i].hash == h)
  }

  /** The stamp of this cycle reaches `h`. */
  ghost predicate Stamps(world: World, h: Hash) {
    Shows(world, h) && (world.faults.stamp.Some? ==> h in world.faults.stamp.value)
  }

  predicate PresenceClear(world: World) { world.faults.stamp.None? && !world.faults.expiry }

  ghost function Seen(row: Row, world: World, h: Hash): Row {
    if Stamps(world, h) then row.(lastSeen := world.stampedAt) else row
  }

  /** Step 2b on one row: seen first, then failed if it has been lost for too long. */
  ghost function PresenceRow(row: Row, world: World, lostAfter: int, h: Hash): Row {
    var seen := Seen(row, world, h);
    if PresenceClear(world) && IsLost(seen, world.expiredAt - lostAfter) then seen.(state := Failed) else seen
  }

  /** A row after steps 1 and 2. */
  ghost function FollowedRow(rows: Table, world: World, h: Hash): Row
    requires world.Reachable() && h in rows
  {
    if CompletesAt(rows, world, h).Some? then rows[h].(state := Completed) else MonitoredRow(rows, world, h)
  }

  /** A row when the links are sent. */
  ghost function RowAtLinks(rows: Table, world: World, lostAfter: int, h: Hash): Row
    requires world.Reachable() && h in rows
  {
    PresenceRow(FollowedRow(rows, world, h), world, lostAfter, h)
  }

  /** The table when the links are sent: the rows of the start, and the admitted ones. */
  ghost function AtLinks(start: Table, end: Table, world: World, lostAfter: int): Table
    requires world.Reachable()
  {
    map h | h in end :: if h in start then RowAtLinks(start, world, lostAfter, h) else end[h].(state := Queued)
  }

  /** The row is failed for its absence in this cycle. */
  ghost predicate FailsForAbsence(start: Table, world: World, lostAfter: int, h: Hash) {
    && world.Reachable() && h in start && PresenceClear(world)
    && IsLost(Seen(FollowedRow(start, world, h), world, h), world.expiredAt - lostAfter)
  }

  /** The rows admitted are new, each charged once, and never eat into the floor; each ends QUEUED, or FAILED
      if its link is rejected, stamped with the instant it was queued. */
  ghost predicate AdmissionsFit(start: Table, end: Table, world: World, targets: seq<TargetState>, minFree: int,
                                report: Report)
    requires world.queue.Some?
  {
    && end.Keys == start.Keys + Hashes(report.admitted)
    && (forall i :: 0 <= i < |report.admitted| ==> AdmittedRow(start, end, world, targets, report, report.admitted[i]))
    && (forall i, j :: 0 <= i < j < |report.admitted| ==> report.admitted[i].hash != report.admitted[j].hash)
    && AdmissionDone(end, world, targets, Outstanding(world.queue.value), minFree,
                     report.admitted, report.deferred, report.reached)
  }

  ghost predicate AdmittedRow(start: Table, end: Table, world: World, targets: seq<TargetState>, report: Report,
                              c: Charge)
  {
    && c.hash !in start && c.hash in end && end[c.hash].size == c.size && end[c.hash].lastSeen == world.queuedAt(c.hash)
    && Requested(world, targets, end[c.hash].target, c)
    && end[c.hash].state == if c.hash in report.sent && c.hash in world.rejected then Failed else Queued
  }

  /** Everything one cycle promises: the whole table after it, row by row, what it admits, the links it sends and
      the events it emits. Each clause depends on the failures of its own step alone. */
  ghost predicate CycleSpec(start: Snapshot, end: Snapshot, world: World, targets: seq<TargetState>, minFree: int,
                            lostAfter: int, report: Report) {
    && Advances(start, end) && CompletionsExact(start, end, world)
    && if world.queue.None? then end == start && report == Report([], [], 0, {})
       else if world.shared.None? then
         && MonitorDone(start.rows, end.rows, world) && end.completions == start.completions
         && report == Report([], [], 0, {})
       else
         var linking := AtLinks(start.rows, end.rows, world, lostAfter);
         && AdmissionsFit(start.rows, end.rows, world, targets, minFree, report)
         && Linked(linking, end.rows, world, report.sent) && LinksComplete(linking, world, report.sent)
  }

  ghost predicate IsRun(history: seq<Snapshot>, worlds: seq<World>, targets: seq<TargetState>, minFree: int,
                        lostAfter: int, reports: seq<Report>) {
    && |reports| == |worlds| && |history| == |worlds| + 1
    && forall i, j :: 0 <= i && j == i + 1 && j < |history| ==>
         CycleSpec(history[i], history[j], worlds[i], targets, minFree, lostAfter, reports[i])
  }

  lemma RunStep(history: seq<Snapshot>, worlds: seq<World>, targets: seq<TargetState>, minFree: int, lostAfter: int,
                reports: seq<Report>, k: nat)
    requires IsRun(history, worlds, targets, minFree, lostAfter, reports) && k < |worlds|
    ensures CycleSpec(history[k], history[k + 1], worlds[k], targets, minFree, lostAfter, reports[k])
  {
  }

  // ---------- from the steps to the cycle ----------

  /** What the five steps promise one by one makes the promise of the cycle. */
  lemma CycleOutcome(s0: Snapshot, s1: Snapshot, s2: Snapshot, t3: Table, t4: Table, s5: Snapshot, world: World,
                     targets: seq<TargetState>, minFree: int, lostAfter: int, report: Report)
    requires world.Reachable()
    requires MonitorDone(s0.rows, s1.rows, world) && s1.completions == s0.completions
    requires CompletionDone(s1, s2, world)
    requires LaterDone(s2.rows, t3, t4, s5.rows, world, targets, minFree, lostAfter, report)
    requires s5.completions == s2.completions
    ensures CycleSpec(s0, s5, world, targets, minFree, lostAfter, report)
  {
    LaterAdvance(s2, t3, t4, s5, world, targets, minFree, lostAfter, report);
    CycleAdvances(s0, s1, s2, s5, world);
    CompletionsLast(s0, s1, s2, s5, world);
    RowsFollowed(s0, s1, s2, world);
    AdmissionsStay(s0.rows, s2.rows, t3, t4, s5.rows, world, targets, minFree, lostAfter, report);
    LinkingTable(s0.rows, s2.rows, t3, t4, s5.rows, world, targets, minFree, lostAfter, report);
  }

  lemma MonitoringAdvances(a: Snapshot, b: Snapshot, world: World)
    requires world.queue.Some? && MonitorDone(a.rows, b.rows, world) && a.completions == b.completions
    ensures Advances(a, b) && forall h :: IsCompleted(a.rows, h) <==> IsCompleted(b.rows, h)
  {
  }

  lemma CompletionStepKeeps(a: Snapshot, b: Snapshot, world: World)
    requires world.Reachable() && CompletionDone(a, b, world)
    ensures Advances(a, b) && a.rows.Keys == b.rows.Keys
  {
  }

  /** Row by row, the table after steps 1 and 2. */
  lemma RowsFollowed(s0: Snapshot, s1: Snapshot, s2: Snapshot, world: World)
    requires world.Reachable()
    requires MonitorDone(s0.rows, s1.rows, world) && CompletionDone(s1, s2, world)
    ensures s2.rows.Keys == s0.rows.Keys
    ensures forall h :: h in s0.rows ==> s2.rows[h] == FollowedRow(s0.rows, world, h)
  {
    var transferring := Transferring(world.queue.value);
    forall h | h in s0.rows ensures h in s2.rows && s2.rows[h] == FollowedRow(s0.rows, world, h) {
      assert Due(s0.rows, transferring, h) <==> Due(s1.rows, transferring, h);
      assert s1.rows[h] == MonitoredRow(s0.rows, world, h);
    }
  }

  /** The presence step, row by row. */
  lemma PresenceRows(t2: Table, t3: Table, world: World, lostAfter: int, h: Hash)
    requires world.Reachable() && h in t2
    requires t3 == AfterPresence(t2, Visible(world), world.stampedAt, world.expiredAt - lostAfter, world.faults)
    ensures h in t3 && t3[h] == PresenceRow(t2[h], world, lostAfter, h)
  {
  }

  lemma LaterAdvance(s2: Snapshot, t3: Table, t4: Table, s5: Snapshot, world: World, targets: seq<TargetState>,
                     minFree: int, lostAfter: int, report: Report)
    requires world.Reachable() && s5.completions == s2.completions
    requires LaterDone(s2.rows, t3, t4, s5.rows, world, targets, minFree, lostAfter, report)
    ensures Advances(s2, s5)
    ensures forall h :: IsCompleted(s5.rows, h) <==> IsCompleted(s2.rows, h)
  {
    forall h ensures IsCompleted(s5.rows, h) <==> IsCompleted(s2.rows, h) {
      if h in s2.rows {
        PresenceRows(s2.rows, t3, world, lostAfter, h);
        assert t4[h] == t3[h];
      } else if h in s5.rows {
        NewRow(s2.rows, t3, t4, s5.rows, world, targets, minFree, lostAfter, report, h);
      }
    }
    forall h | h in s2.rows ensures h in s5.rows {
      PresenceRows(s2.rows, t3, world, lostAfter, h);
      assert h in t4;
    }
  }

  /** A row the cycle did not start with is an admitted one. */
  lemma NewRow(t2: Table, t3: Table, t4: Table, t5: Table, world: World, targets: seq<TargetState>, minFree: int,
               lostAfter: int, report: Report, h: Hash)
    requires world.Reachable() && h !in t2 && h in t5
    requires LaterDone(t2, t3, t4, t5, world, targets, minFree, lostAfter, report)
    ensures t4[h] == t5[h].(state := Queued)
    ensures t5[h].state == if h in report.sent && h in world.rejected then Failed else Queued
  {
    assert t3.Keys == t2.Keys;
    var i :| 0 <= i < |report.admitted| && report.admitted[i].hash == h;
    assert QueuedFor(t4, world, targets, report.admitted[i]);
  }

  lemma CycleAdvances(s0: Snapshot, s1: Snapshot, s2: Snapshot, s5: Snapshot, world: World)
    requires world.Reachable()
    requires MonitorDone(s0.rows, s1.rows, world) && s1.completions == s0.completions && CompletionDone(s1, s2, world)
    requires Advances(s2, s5)
    ensures Advances(s0, s5)
  {
    MonitoringAdvances(s0, s1, world);
    CompletionStepKeeps(s1, s2, world);
    AdvancesTransitive(s0, s1, s2);
    AdvancesTransitive(s0, s2, s5);
  }

  lemma CompletionsLast(s0: Snapshot, s1: Snapshot, s2: Snapshot, s5: Snapshot, world: World)
    requires world.Reachable()
    requires MonitorDone(s0.rows, s1.rows, world) && s1.completions == s0.completions && CompletionDone(s1, s2, world)
    requires s5.completions == s2.completions
    requires forall h :: IsCompleted(s5.rows, h) <==> IsCompleted(s2.rows, h)
    ensures CompletionsExact(s0, s5, world)
  {
    MonitoringAdvances(s0, s1, world);
    forall h
      ensures IsCompleted(s2.rows, h) <==> IsCompleted(s0.rows, h) || CompletesAt(s0.rows, world, h).Some?
      ensures NotifiedSince(s0.completions, s2.completions, h) <==> ReadSucceeds(s0.rows, world, h)
    {
      assert IsCompleted(s0.rows, h) <==> IsCompleted(s1.rows, h);
      assert Due(s0.rows, Transferring(world.queue.value), h) <==> Due(s1.rows, Transferring(world.queue.value), h);
    }
  }

  lemma AdmissionsStay(start: Table, t2: Table, t3: Table, t4: Table, end: Table, world: World,
                       targets: seq<TargetState>, minFree: int, lostAfter: int, report: Report)
    requires world.Reachable() && t2.Keys == start.Keys
    requires LaterDone(t2, t3, t4, end, world, targets, minFree, lostAfter, report)
    ensures AdmissionsFit(start, end, world, targets, minFree, report)
  {
    assert t3.Keys == t2.Keys;
    forall i | 0 <= i < |report.admitted|
      ensures AdmittedRow(start, end, world, targets, report, report.admitted[i])
    {
      assert QueuedFor(t4, world, targets, report.admitted[i]);
    }
    SettledAfterLinks(world, targets, t4, end, report);
  }

  lemma SettledAfterLinks(world: World, targets: seq<TargetState>, before: Table, after: Table, report: Report)
    requires report.reached <= |Considered(world)|
    requires AllSettled(world, targets, before, report.deferred, Considered(world)[..report.reached])
    requires Linked(before, after, world, report.sent)
    ensures AllSettled(world, targets, after, report.deferred, Considered(world)[..report.reached])
  {
    forall c | c in Considered(world)[..report.reached] ensures Settled(world, targets, after, report.deferred, c) {
      assert Settled(world, targets, before, report.deferred, c);
    }
  }

  /** The table the links are sent from, told from the two ends of the cycle. */
  lemma LinkingTable(start: Table, t2: Table, t3: Table, t4: Table, end: Table, world: World,
                     targets: seq<TargetState>, minFree: int, lostAfter: int, report: Report)
    requires world.Reachable() && t2.Keys == start.Keys
    requires forall h :: h in start ==> t2[h] == FollowedRow(start, world, h)
    requires LaterDone(t2, t3, t4, end, world, targets, minFree, lostAfter, report)
    ensures t4 == AtLinks(start, end, world, lostAfter)
  {
    forall h | h in t4 ensures t4[h] == AtLinks(start, end, world, lostAfter)[h] {
      if h in start {
        PresenceRows(t2, t3, world, lostAfter, h);
        assert t4[h] == t3[h];
      } else {
        NewRow(t2, t3, t4, end, world, targets, minFree, lostAfter, report, h);
      }
    }
  }

  // ---------- what follows for a row and for a link ----------

  /** What a whole cycle makes of a row it starts with, stamp and state: marked, completed, seen, lost or rejected each
      exactly when its step says so, and otherwise left as it was. */
  lemma CycleRow(start: Snapshot, end: Snapshot, world: World, targets: seq<TargetState>, minFree: int,
                 lostAfter: int, report: Report, h: Hash)
    requires CycleSpec(start, end, world, targets, minFree, lostAfter, report) && world.Reachable()
    requires h in start.rows
    ensures h in end.rows
    ensures end.rows[h] == if h in report.sent && h in world.rejected
                           then RowAtLinks(start.rows, world, lostAfter, h).(state := Failed)
                           else RowAtLinks(start.rows, world, lostAfter, h)
    ensures h in report.sent ==> RowAtLinks(start.rows, world, lostAfter, h).state.Queued?
  {
    assert AtLinks(start.rows, end.rows, world, lostAfter)[h] == RowAtLinks(start.rows, world, lostAfter, h);
  }

  /** A row ends FAILED exactly when it fails for its absence, or its link is rejected, or it was FAILED and neither
      the queue nor the shared files revived it. */
  lemma FailuresExact(start: Snapshot, end: Snapshot, world: World, targets: seq<TargetState>, minFree: int,
                      lostAfter: int, report: Report, h: Hash)
    requires CycleSpec(start, end, world, targets, minFree, lostAfter, report) && world.Reachable()
    requires h in start.rows
    ensures h in end.rows
    ensures end.rows[h].state.Failed? <==>
      || FailsForAbsence(start.rows, world, lostAfter, h)
      || (h in report.sent && h in world.rejected)
      || FollowedRow(start.rows, world, h).state.Failed?
  {
    CycleRow(start, end, world, targets, minFree, lostAfter, report, h);
  }

  /** A tracked hash the monitor reaches ends the cycle DOWNLOADING or COMPLETED, whatever fails later, unless the
      clock moves by more than `lost_after` between the stamp and the cutoff. */
  lemma QueueFollowed(start: Snapshot, end: Snapshot, world: World, targets: seq<TargetState>, minFree: int,
                      lostAfter: int, report: Report, h: Hash)
    requires CycleSpec(start, end, world, targets, minFree, lostAfter, report) && world.Reachable()
    requires h in start.rows && !world.faults.monitorRead
    requires Reached(start.rows, world.queue.value, world.faults.monitorWrites, h)
    requires world.expiredAt - world.stampedAt <= lostAfter
    ensures h in end.rows && (end.rows[h].state.Downloading? || end.rows[h].state.Completed?)
  {
    assert h in Visible(world);
    CycleRow(start, end, world, targets, minFree, lostAfter, report, h);
  }

  /** Every row QUEUED when the links are sent, old or new, has its link sent, unless it has no observation to build
      it from, the states cannot be read, or some QUEUED row left unsent is obstructed. */
  lemma LinksSent(start: Snapshot, end: Snapshot, world: World, targets: seq<TargetState>, minFree: int,
                  lostAfter: int, report: Report, h: Hash)
    requires CycleSpec(start, end, world, targets, minFree, lostAfter, report) && world.Reachable()
    requires h in end.rows && h in world.observations && !world.faults.linkRead
    requires AtLinks(start.rows, end.rows, world, lostAfter)[h].state.Queued?
    requires forall g :: g in end.rows && end.rows[g].state.Queued? && g !in report.sent ==> !Obstructed(world, g)
    ensures h in report.sent
    ensures end.rows[h].state == if h in world.rejected then Failed else Queued
  {
    var linking := AtLinks(start.rows, end.rows, world, lostAfter);
    assert h in Linkable(linking, world);
    assert forall g :: g in linking && linking[g].state.Queued? && g !in report.sent ==> end.rows[g] == linking[g];
  }

  /** The floor of a cycle, on the bytes: after every admission the free space, less what the entries of the queue
      still have to fetch, less what was admitted, is at or above the floor; and nothing deferred would have fit. */
  lemma CycleFloor(start: Snapshot, end: Snapshot, world: World, targets: seq<TargetState>, minFree: int,
                   lostAfter: int, report: Report)
    requires CycleSpec(start, end, world, targets, minFree, lostAfter, report)
    requires world.Reachable() && world.free.Some?
    ensures forall k :: 0 < k <= |report.admitted| ==>
      world.free.value - BytesToCome(world.queue.value) - Total(report.admitted[..k]) >= minFree
    ensures NonNegativeSizes(world) ==> forall i :: 0 <= i < |report.deferred| ==>
      world.free.value - BytesToCome(world.queue.value) - Total(report.admitted) - report.deferred[i].size < minFree
  {
    OutstandingIs(world.queue.value);
  }

  lemma FirstTwo(charges: seq<Charge>, c: Charge)
    requires forall i :: 0 <= i < |charges| ==> charges[i] == c
    ensures |charges| <= 1 || charges[0].hash == charges[1].hash
  {
  }

  /** A single new candidate that fits is the one admitted, whatever the other candidates already have. */
  lemma OnlyNewcomer(start: Table, end: Table, world: World, targets: seq<TargetState>, minFree: int, report: Report,
                     c: DownloadCandidate)
    requires world.queue.Some? && AdmissionsFit(start, end, world, targets, minFree, report)
    requires world.free.Some? && world.candidates.Got? && world.faults.admissions == map[] && NonNegativeSizes(world)
    requires c in world.candidates.value && c.hash !in start && c.hash in world.observations
    requires forall x :: x in world.candidates.value ==> x.hash in start || x == c
    requires TargetStatus(targets, c.target) != "complete"
    requires world.free.value - Outstanding(world.queue.value) - world.observations[c.hash] >= minFree
    ensures report.admitted == [Charge(c.hash, world.observations[c.hash])]
  {
    var cs := world.candidates.value;
    assert report.reached == |cs| && cs[..|cs|] == cs;
    assert Settled(world, targets, end, report.deferred, c);
    forall i | 0 <= i < |report.admitted| ensures report.admitted[i] == Charge(c.hash, world.observations[c.hash]) {
      assert AdmittedRow(start, end, world, targets, report, report.admitted[i]);
    }
    FirstTwo(report.admitted, Charge(c.hash, world.observations[c.hash]));
    assert Hashes([]) == {};
  }

  // ---------- inside the steps ----------

  /** A row that still needs its mark at entry `i` meets the queue there for the first time. */
  lemma NeedsFirstMark(before: Table, now: Table, queue: seq<DownloadEntry>, writes: set<nat>, i: nat)
    requires i < |queue| && MarkedSoFar(before, now, queue, writes, i) && NeedsMark(now, queue[i].hash)
    ensures NeedsMark(before, queue[i].hash) && !MetBefore(queue, i, queue[i].hash)
    ensures StopsAt(before, queue, writes, i) <==> i in writes
  {
  }

  lemma MarkStep(before: Table, was: Table, now: Table, queue: seq<DownloadEntry>, writes: set<nat>, i: nat)
    requires i < |queue| && MarkedSoFar(before, was, queue, writes, i) && !StopsAt(before, queue, writes, i)
    requires now == if NeedsMark(was, queue[i].hash) then SetRow(was, queue[i].hash, Downloading) else was
    ensures MarkedSoFar(before, now, queue, writes, i + 1)
  {
    forall h ensures MetBefore(queue, i + 1, h) <==> MetBefore(queue, i, h) || queue[i].hash == h {
    }
  }

  lemma StoppedIsMarked(before: Table, now: Table, queue: seq<DownloadEntry>, writes: set<nat>, i: nat)
    requires i < |queue| && MarkedSoFar(before, now, queue, writes, i) && StopsAt(before, queue, writes, i)
    ensures Marked(before, now, queue, writes)
  {
    forall h ensures Reached(before, queue, writes, h) <==> MetBefore(queue, i, h) {
      if MetBefore(queue, i, h) {
        var k :| 0 <= k < i && queue[k].hash == h;
        assert ClearUpTo(before, queue, writes, k);
      }
    }
  }

  lemma AllAreMarked(before: Table, now: Table, queue: seq<DownloadEntry>, writes: set<nat>)
    requires MarkedSoFar(before, now, queue, writes, |queue|)
    ensures Marked(before, now, queue, writes)
    ensures forall i :: 0 <= i < |queue| ==> !StopsAt(before, queue, writes, i)
  {
    forall h ensures Reached(before, queue, writes, h) <==> MetBefore(queue, |queue|, h) {
      if MetBefore(queue, |queue|, h) {
        var k :| 0 <= k < |queue| && queue[k].hash == h;
        assert ClearUpTo(before, queue, writes, k);
      }
    }
  }

  lemma CompletionStarts(now: Snapshot, shared: seq<Hash>, transferring: set<Hash>, faults: Faults)
    ensures Completing(now, now, shared, transferring, faults, 0)
  {
  }

  /** An entry whose hash is not due, or no longer, changes nothing. */
  lemma CompletionPassed(before: Snapshot, now: Snapshot, shared: seq<Hash>, transferring: set<Hash>, faults: Faults,
                         i: nat)
    requires i < |shared| && Completing(before, now, shared, transferring, faults, i)
    requires shared[i] in now.rows ==> now.rows[shared[i]].state.Completed? || shared[i] in transferring
    ensures Completing(before, now, shared, transferring, faults, i + 1)
  {
    var h := shared[i];
    assert Due(before.rows, transferring, h) ==> WriteAt(shared, faults.completionWrites, i, h).Some?;
    forall g
      ensures Notified(before.rows, shared, transferring, faults, i + 1, g) <==>
        Notified(before.rows, shared, transferring, faults, i, g)
      ensures g in before.rows ==>
        CompletedRow(before.rows, shared, transferring, faults.completionWrites, i + 1, g)
          == CompletedRow(before.rows, shared, transferring, faults.completionWrites, i, g)
    {
      WriteAtNext(shared, faults.completionWrites, i, g);
    }
  }

  /** An entry whose hash is due. */
  lemma CompletionTaken(before: Snapshot, was: Snapshot, now: Snapshot, shared: seq<Hash>, transferring: set<Hash>,
                        faults: Faults, i: nat)
    requires i < |shared| && Completing(before, was, shared, transferring, faults, i)
    requires shared[i] in was.rows && !was.rows[shared[i]].state.Completed? && shared[i] !in transferring
    requires now.rows == if i in faults.completionWrites then was.rows else SetRow(was.rows, shared[i], Completed)
    requires now.completions ==
      if i in faults.completionWrites || i in faults.targetReads then was.completions else was.completions + [shared[i]]
    ensures Completing(before, now, shared, transferring, faults, i + 1)
  {
    var h := shared[i];
    assert Due(before.rows, transferring, h) && WriteAt(shared, faults.completionWrites, i, h).None?;
    CompletionAdvances(was, now, h);
    AdvancesTransitive(before, was, now);
    NotificationsKept(before.completions, was.completions, now.completions, h);
    forall g
      ensures Notified(before.rows, shared, transferring, faults, i + 1, g) <==>
        Notified(before.rows, shared, transferring, faults, i, g) || (now.completions != was.completions && g == h)
    {
      WriteAtNext(shared, faults.completionWrites, i, g);
    }
    forall g | g in before.rows
      ensures now.rows[g] == CompletedRow(before.rows, shared, transferring, faults.completionWrites, i + 1, g)
    {
      WriteAtNext(shared, faults.completionWrites, i, g);
    }
  }

  lemma WriteAtNext(shared: seq<Hash>, writes: set<nat>, i: nat, g: Hash)
    requires i < |shared|
    ensures g != shared[i] ==> WriteAt(shared, writes, i + 1, g) == WriteAt(shared, writes, i, g)
    ensures WriteAt(shared, writes, i, g).Some? ==> WriteAt(shared, writes, i + 1, g) == WriteAt(shared, writes, i, g)
    ensures g == shared[i] && WriteAt(shared, writes, i, g).None? ==>
      WriteAt(shared, writes, i + 1, g) == if i in writes then None else Some(i)
  {
  }

  lemma CompletionAdvances(a: Snapshot, b: Snapshot, h: Hash)
    requires h in a.rows && !a.rows[h].state.Completed?
    requires b == a || (b.rows == SetRow(a.rows, h, Completed)
                        && (b.completions == a.completions || b.completions == a.completions + [h]))
    ensures Advances(a, b)
  {
  }

  lemma NotificationsKept(before: seq<Hash>, was: seq<Hash>, after: seq<Hash>, h: Hash)
    requires before <= was && (after == was || after == was + [h])
    ensures forall g :: NotifiedSince(before, after, g) <==> NotifiedSince(before, was, g) || (after != was && g == h)
  {
    if after != was {
      assert after[|was|] == h;
    }
    forall g ensures NotifiedSince(before, after, g) <==> NotifiedSince(before, was, g) || (after != was && g == h) {
      if NotifiedSince(before, was, g) {
        var i :| |before| <= i < |was| && was[i] == g;
        assert after[i] == g;
      }
      if NotifiedSince(before, after, g) {
        var i :| |before| <= i < |after| && after[i] == g;
        assert i < |was| ==> was[i] == g;
      }
    }
  }

  lemma SettledGrows(world: World, targets: seq<TargetState>, was: Table, rows: Table, wasDeferred: seq<Charge>,
                     deferred: seq<Charge>, cs: seq<DownloadCandidate>, c: DownloadCandidate)
    requires AllSettled(world, targets, was, wasDeferred, cs) && Settled(world, targets, rows, deferred, c)
    requires was.Keys <= rows.Keys && wasDeferred <= deferred
    ensures AllSettled(world, targets, rows, deferred, cs + [c])
  {
    forall x | x in cs ensures Settled(world, targets, rows, deferred, x) {
      assert Settled(world, targets, was, wasDeferred, x);
    }
  }

  lemma AdmittedGrows(before: Table, was: Table, now: Table, world: World, targets: seq<TargetState>,
                      admitted: seq<Charge>, c: Charge)
    requires Admitted(before, was, world, targets, admitted) && c.hash !in was && QueuedFor(now, world, targets, c)
    requires now == was[c.hash := now[c.hash]]
    ensures Admitted(before, now, world, targets, admitted + [c])
  {
    var more := admitted + [c];
    assert more[|admitted|] == c;
    forall h ensures h in Hashes(more) <==> h in Hashes(admitted) + {c.hash} {
      if h in Hashes(admitted) {
        var i :| 0 <= i < |admitted| && admitted[i].hash == h;
        assert more[i].hash == h;
      }
    }
    assert Hashes(more) == Hashes(admitted) + {c.hash};
    forall i | 0 <= i < |admitted| ensures QueuedFor(now, world, targets, admitted[i]) && admitted[i].hash != c.hash {
      assert QueuedFor(was, world, targets, admitted[i]);
    }
  }

  lemma FloorStays(free: int, outstanding: int, admitted: seq<Charge>, c: Charge, minFree: int)
    requires FloorKept(free, outstanding, admitted, minFree)
    requires free - outstanding - Total(admitted) - c.size >= minFree
    ensures FloorKept(free, outstanding, admitted + [c], minFree)
  {
    var more := admitted + [c];
    TotalSnoc(admitted, c);
    forall k | 0 < k <= |more| ensures free - outstanding - Total(more[..k]) >= minFree {
      assert more[..k] == if k <= |admitted| then admitted[..k] else more;
    }
  }

  lemma DeferredStay(free: int, outstanding: int, admitted: seq<Charge>, c: Charge, deferred: seq<Charge>, minFree: int)
    ensures c.size >= 0 && NothingDeferredFits(free, outstanding, admitted, deferred, minFree)
      ==> NothingDeferredFits(free, outstanding, admitted + [c], deferred, minFree)
  {
    TotalSnoc(admitted, c);
  }

  /** What holds between two candidates. */
  ghost predicate Admitting(before: Table, rows: Table, world: World, targets: seq<TargetState>, free: int,
                            outstanding: int, admitted: seq<Charge>, deferred: seq<Charge>, minFree: int) {
    && Admitted(before, rows, world, targets, admitted)
    && FloorKept(free, outstanding, admitted, minFree)
    && (NonNegativeSizes(world) ==> NothingDeferredFits(free, outstanding, admitted, deferred, minFree))
  }

  lemma AdmittingStep(before: Table, was: Table, now: Table, world: World, targets: seq<TargetState>, free: int,
                      outstanding: int, admitted: seq<Charge>, deferred: seq<Charge>, minFree: int, c: Charge)
    requires Admitting(before, was, world, targets, free, outstanding, admitted, deferred, minFree)
    requires c.hash in world.observations && c.size == world.observations[c.hash]
    requires c.hash !in was && QueuedFor(now, world, targets, c) && now == was[c.hash := now[c.hash]]
    requires free - outstanding - Total(admitted) - c.size >= minFree
    ensures Admitting(before, now, world, targets, free, outstanding, admitted + [c], deferred, minFree)
    ensures Total(admitted + [c]) == Total(admitted) + c.size
  {
    AdmittedGrows(before, was, now, world, targets, admitted, c);
    FloorStays(free, outstanding, admitted, c, minFree);
    DeferredStay(free, outstanding, admitted, c, deferred, minFree);
    TotalSnoc(admitted, c);
  }

  /** What holds after `n` of the candidates read. */
  ghost predicate Going(before: Table, rows: Table, world: World, targets: seq<TargetState>, free: int,
                        outstanding: int, admitted: seq<Charge>, deferred: seq<Charge>, minFree: int, n: nat) {
    && world.candidates.Got? && n <= |world.candidates.value| && LookedUp(world, n)
    && (world.candidates.value == [] ==> admitted == [] && deferred == [])
    && Admitting(before, rows, world, targets, free, outstanding, admitted, deferred, minFree)
    && AllSettled(world, targets, rows, deferred, world.candidates.value[..n])
  }

  /** The candidate has been passed over, deferred or admitted, with `room` bytes above the floor. */
  ghost predicate Dealt(was: Table, now: Table, world: World, targets: seq<TargetState>, c: DownloadCandidate, room: int,
                        r: Admission) {
    match r
    case Abort => false
    case Pass =>
      now == was
      && (c.hash in was || c.hash !in world.observations || TargetStatus(targets, c.target) == "complete")
    case Defer(size) =>
      now == was && c.hash in world.observations && size == world.observations[c.hash] && room < size
    case Admit(size) =>
      && c.hash !in was && c.hash in world.observations && size == world.observations[c.hash] && room >= size
      && TargetStatus(targets, c.target) != "complete"
      && now == was[c.hash := Row(c.target, Queued, size, world.queuedAt(c.hash))]
  }

  lemma CandidateDone(before: Table, was: Table, now: Table, world: World, targets: seq<TargetState>, free: int,
                      outstanding: int, admitted: seq<Charge>, deferred: seq<Charge>, minFree: int, n: nat, r: Admission)
    requires Going(before, was, world, targets, free, outstanding, admitted, deferred, minFree, n)
    requires n < |world.candidates.value| && FaultAt(world.faults.admissions, n) != Some(AtLookup)
    requires Dealt(was, now, world, targets, world.candidates.value[n],
                   free - outstanding - Total(admitted) - minFree, r)
    ensures
      var h := world.candidates.value[n].hash;
      var admitted' := if r.Admit? then admitted + [Charge(h, r.size)] else admitted;
      var deferred' := if r.Defer? then deferred + [Charge(h, r.size)] else deferred;
      && Going(before, now, world, targets, free, outstanding, admitted', deferred', minFree, n + 1)
      && Total(admitted') == Total(admitted) + (if r.Admit? then r.size else 0)
  {
    var cs := world.candidates.value;
    match r {
      case Abort =>
      case Pass => SettledNext(world, targets, was, now, deferred, deferred, cs, n);
      case Defer(size) =>
        DeferStep(before, was, world, targets, free, outstanding, admitted, deferred, minFree, Charge(cs[n].hash, size));
        SettledNext(world, targets, was, now, deferred, deferred + [Charge(cs[n].hash, size)], cs, n);
      case Admit(size) =>
        AdmittingStep(before, was, now, world, targets, free, outstanding, admitted, deferred, minFree,
                      Charge(cs[n].hash, size));
        SettledNext(world, targets, was, now, deferred, deferred, cs, n);
    }
  }

  lemma DeferStep(before: Table, rows: Table, world: World, targets: seq<TargetState>, free: int, outstanding: int,
                  admitted: seq<Charge>, deferred: seq<Charge>, minFree: int, c: Charge)
    requires Admitting(before, rows, world, targets, free, outstanding, admitted, deferred, minFree)
    requires free - outstanding - Total(admitted) - c.size < minFree
    ensures Admitting(before, rows, world, targets, free, outstanding, admitted, deferred + [c], minFree)
  {
  }

  lemma SettledNext(world: World, targets: seq<TargetState>, was: Table, rows: Table, wasDeferred: seq<Charge>,
                    deferred: seq<Charge>, cs: seq<DownloadCandidate>, k: nat)
    requires k < |cs| && AllSettled(world, targets, was, wasDeferred, cs[..k])
    requires Settled(world, targets, rows, deferred, cs[k])
    requires was.Keys <= rows.Keys && wasDeferred <= deferred
    ensures AllSettled(world, targets, rows, deferred, cs[..k + 1])
  {
    SettledGrows(world, targets, was, rows, wasDeferred, deferred, cs[..k], cs[k]);
    assert cs[..k + 1] == cs[..k] + [cs[k]];
  }

  lemma LinkSent(before: Table, was: Table, now: Table, world: World, sent: set<Hash>, h: Hash)
    requires Linked(before, was, world, sent) && h in Linkable(before, world) && !Obstructed(world, h) && h !in sent
    requires now == if h in world.rejected then SetRow(was, h, Failed) else was
    ensures Linked(before, now, world, sent + {h})
  {
  }
}
