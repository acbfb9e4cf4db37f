/** The downloads table, its policy and the queue of the client. */
module Downloads {
  import opened Options
  import opened Order

  // From download_repository.py, domain/download/policy.py and ports/mule_download_client.py. Any call to the
  // repository, the catalog or the client may fail: which ones do is an input.

  type Hash = string

  datatype DownloadState = Queued | Downloading | Completed | Failed

  /** `lastSeen` is a fixed-width UTC stamp, whose text order is the order of instants. */
  datatype Row = Row(target: string, state: DownloadState, size: int, lastSeen: int)

  type Table = map<Hash, Row>

  datatype Outcome = Done | RepositoryError

  datatype Read<+T> = Got(value: T) | ReadFailed

  // ---------- the client's answers ----------

  datatype DownloadEntry = DownloadEntry(hash: Hash, sizeDone: int, sizeFull: int) {
    predicate IsComplete() { sizeFull > 0 && sizeDone >= sizeFull }

    function RemainingBytes(): int { if sizeFull - sizeDone > 0 then sizeFull - sizeDone else 0 }
  }

  /** `frozenset(entry.ed2k_hash for entry in queue)` */
  function QueueHashes(queue: seq<DownloadEntry>): set<Hash> {
    set i | 0 <= i < |queue| :: queue[i].hash
  }

  /** The hashes with an incomplete entry. */
  function Transferring(queue: seq<DownloadEntry>): set<Hash> {
    set i | 0 <= i < |queue| && !queue[i].IsComplete() :: queue[i].hash
  }

  function Outstanding(queue: seq<DownloadEntry>): int {
    if queue == [] then 0 else Outstanding(queue[..|queue| - 1]) + queue[|queue| - 1].RemainingBytes()
  }

  /** An entry counts as transferring unless its total is known and reached; so one of size 0 does. */
  lemma TransferringIs(queue: seq<DownloadEntry>, h: Hash)
    ensures h in Transferring(queue) <==>
      exists i ::
        && 0 <= i < |queue| && queue[i].hash == h
        && (queue[i].sizeFull <= 0 || queue[i].sizeDone < queue[i].sizeFull)
  {
  }

  /** The bytes still to come of every entry; one that is ahead of its total has none. */
  ghost function BytesToCome(queue: seq<DownloadEntry>): int {
    if queue == [] then 0
    else
      var e := queue[0];
      (if e.sizeDone <= e.sizeFull then e.sizeFull - e.sizeDone else 0) + BytesToCome(queue[1..])
  }

  lemma OutstandingSnoc(queue: seq<DownloadEntry>, e: DownloadEntry)
    ensures Outstanding([]) == 0
    ensures Outstanding(queue + [e]) ==
      if e.sizeDone <= e.sizeFull then Outstanding(queue) + (e.sizeFull - e.sizeDone) else Outstanding(queue)
  {
    assert (queue + [e])[..|queue|] == queue;
  }

  lemma {:induction false} BytesSnoc(queue: seq<DownloadEntry>, e: DownloadEntry)
    ensures BytesToCome(queue + [e])
         == BytesToCome(queue) + (if e.sizeDone <= e.sizeFull then e.sizeFull - e.sizeDone else 0)
  {
    if queue == [] {
      assert ([] + [e])[1..] == [];
    } else {
      BytesSnoc(queue[1..], e);
      assert (queue + [e])[1..] == queue[1..] + [e];
    }
  }

  /** What the cycle measures as outstanding is just that. */
  lemma {:induction false} OutstandingIs(queue: seq<DownloadEntry>)
    ensures Outstanding(queue) == BytesToCome(queue)
  {
    if queue != [] {
      var front, e := queue[..|queue| - 1], queue[|queue| - 1];
      assert queue == front + [e];
      OutstandingIs(front);
      OutstandingSnoc(front, e);
      BytesSnoc(front, e);
    }
  }

  // ---------- the policy ----------

  datatype Verdict = Download | SkipComplete | SkipDedup | SkipDiskCap

  function DownloadPolicy(tier: string, targetStatus: string, alreadyDownloaded: bool, free: int,
                          outstanding: int, size: int, minFree: int): (v: Verdict)
    ensures v == Download <==>
      tier == "download" && targetStatus != "complete" && !alreadyDownloaded && free - outstanding - size >= minFree
  {
    if tier != "download" then SkipComplete
    else if targetStatus == "complete" then SkipComplete
    else if alreadyDownloaded then SkipDedup
    else if free - outstanding - size < minFree then SkipDiskCap
    else Download
  }

  // ---------- the repository ----------

  function SetRow(rows: Table, h: Hash, state: DownloadState): Table
    requires h in rows
  {
    rows[h := rows[h].(state := state)]
  }

  predicate IsUnfinished(row: Row) { row.state.Queued? || row.state.Downloading? }

  predicate IsLost(row: Row, cutoff: int) { IsUnfinished(row) && row.lastSeen < cutoff }

  function Stamp(rows: Table, seen: set<Hash>, now: int): Table {
    map h | h in rows :: if h in seen then rows[h].(lastSeen := now) else rows[h]
  }

  function Expire(rows: Table, cutoff: int): Table {
    map h | h in rows :: if IsLost(rows[h], cutoff) then rows[h].(state := Failed) else rows[h]
  }

  function StatesOf(rows: Table): map<Hash, DownloadState> {
    map h | h in rows :: rows[h].state
  }

  /** Each call is told whether the database fails it (`fails`). */
  class DownloadRepository {
    var rows: Table

    constructor ()
      ensures rows == map[]
    {
      rows := map[];
    }

    /** INSERT ... ON CONFLICT DO NOTHING. */
    method RecordQueued(h: Hash, target: string, size: int, now: int, fails: bool) returns (r: Outcome)
      modifies this
      ensures r.RepositoryError? <==> fails
      ensures rows == if fails || h in old(rows) then old(rows) else old(rows)[h := Row(target, Queued, size, now)]
    {
      if fails {
        return RepositoryError;
      }
      if h !in rows {
        rows := rows[h := Row(target, Queued, size, now)];
      }
      r := Done;
    }

    /** An unknown hash is an error too. */
    method SetState(h: Hash, state: DownloadState, fails: bool) returns (r: Outcome)
      modifies this
      ensures r.RepositoryError? <==> fails || h !in old(rows)
      ensures rows == if r.Done? then SetRow(old(rows), h, state) else old(rows)
    {
      if fails || h !in rows {
        return RepositoryError;
      }
      rows := SetRow(rows, h, state);
      r := Done;
    }

    method IsDownloaded(h: Hash, fails: bool) returns (r: Read<bool>)
      ensures r == if fails then ReadFailed else Got(h in rows)
    {
      r := if fails then ReadFailed else Got(h in rows);
    }

    method ActiveStates(fails: bool) returns (r: Read<map<Hash, DownloadState>>)
      ensures r == if fails then ReadFailed else Got(StatesOf(rows))
    {
      r := if fails then ReadFailed else Got(StatesOf(rows));
    }

    method GetTargetId(h: Hash, fails: bool) returns (r: Read<Option<string>>)
      ensures r == if fails then ReadFailed else Got(if h in rows then Some(rows[h].target) else None)
    {
      r := if fails then ReadFailed else Got(if h in rows then Some(rows[h].target) else None);
    }

    /** One autocommitted UPDATE per hash: a failure part-way leaves some hashes stamped. */
    method MarkSeen(hashes: set<Hash>, now: int, fault: Option<set<Hash>>) returns (r: Outcome)
      modifies this
      ensures r.RepositoryError? <==> fault.Some?
      ensures rows == Stamp(old(rows), if fault.Some? then fault.value * hashes else hashes, now)
      ensures rows.Keys == old(rows).Keys
      ensures forall h :: h in rows ==>
        rows[h] == if h in hashes && (fault.None? || h in fault.value)
                   then old(rows)[h].(lastSeen := now) else old(rows)[h]
    {
      rows := Stamp(rows, if fault.Some? then fault.value * hashes else hashes, now);
      r := if fault.Some? then RepositoryError else Done;
    }

    method ExpireLost(now: int, maxAge: int, fails: bool) returns (r: Read<set<Hash>>)
      modifies this
      ensures r.ReadFailed? <==> fails
      ensures rows == if fails then old(rows) else Expire(old(rows), now - maxAge)
      ensures r.Got? ==> forall h :: h in r.value <==>
        && h in old(rows) && (old(rows)[h].state.Queued? || old(rows)[h].state.Downloading?)
        && old(rows)[h].lastSeen < now - maxAge
      ensures rows.Keys == old(rows).Keys
      ensures forall h :: h in rows ==>
        rows[h] == if r.Got? && h in r.value then old(rows)[h].(state := Failed) else old(rows)[h]
    {
      if fails {
        return ReadFailed;
      }
      r := Got(set h | h in rows && IsLost(rows[h], now - maxAge));
      rows := Expire(rows, now - maxAge);
    }
  }

  // ---------- what a cycle may do to the table and to the notifications ----------

  /** The table and the `DownloadCompleted` events emitted so far. */
  datatype Snapshot = Snapshot(rows: Table, completions: seq<Hash>)

  predicate IsCompleted(rows: Table, h: Hash) { h in rows && rows[h].state.Completed? }

  /** No row disappears, COMPLETED is never left, and every new event is for a row that has just become
      COMPLETED. */
  ghost predicate Advances(a: Snapshot, b: Snapshot) {
    && a.rows.Keys <= b.rows.Keys
    && (forall h :: IsCompleted(a.rows, h) ==> IsCompleted(b.rows, h))
    && a.completions <= b.completions
    && (forall i :: |a.completions| <= i < |b.completions| ==> NewlyCompleted(a, b, b.completions[i]))
    && (forall i, j :: |a.completions| <= i < j < |b.completions| ==> b.completions[i] != b.completions[j])
  }

  ghost predicate NewlyCompleted(a: Snapshot, b: Snapshot, h: Hash) {
    IsCompleted(b.rows, h) && !IsCompleted(a.rows, h)
  }

  ghost predicate Inv(s: Snapshot) {
    && Distinct(s.completions)
    && forall h :: h in s.completions ==> IsCompleted(s.rows, h)
  }

  lemma AdvancesKeepsInv(a: Snapshot, b: Snapshot)
    requires Inv(a) && Advances(a, b)
    ensures Inv(b)
  {
    forall h | h in b.completions ensures IsCompleted(b.rows, h) {
      var i :| 0 <= i < |b.completions| && b.completions[i] == h;
      if i < |a.completions| {
        assert a.completions[i] in a.completions;
      } else {
        assert NewlyCompleted(a, b, b.completions[i]);
      }
    }
    forall i, j | 0 <= i < j < |b.completions| ensures b.completions[i] != b.completions[j] {
      if i < |a.completions| <= j {
        assert a.completions[i] in a.completions;
        assert NewlyCompleted(a, b, b.completions[j]);
      }
    }
  }

  lemma AdvancesTransitive(a: Snapshot, b: Snapshot, c: Snapshot)
    requires Advances(a, b) && Advances(b, c)
    ensures Advances(a, c)
  {
    forall i | |a.completions| <= i < |c.completions| ensures NewlyCompleted(a, c, c.completions[i]) {
      if i < |b.completions| {
        assert b.completions[i] == c.completions[i];
        assert NewlyCompleted(a, b, b.completions[i]);
      } else {
        assert NewlyCompleted(b, c, c.completions[i]);
      }
    }
    forall i, j | |a.completions| <= i < j < |c.completions| ensures c.completions[i] != c.completions[j] {
      if j < |b.completions| {
        assert b.completions[i] == c.completions[i] && b.completions[j] == c.completions[j];
      } else if i < |b.completions| {
        assert NewlyCompleted(a, b, b.completions[i]);
        assert NewlyCompleted(b, c, c.completions[j]);
      }
    }
  }
}
