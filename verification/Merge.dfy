/** Merge of catalogues into one output (merge/merger.py): identities by INSERT OR IGNORE, journals by a
    NULL-safe anti-join on all their columns, one transaction per source. */
module Merge {
  import opened Options
  import opened Order

  /** The columns of a journal row except its local id; `None` is NULL. The first names the file,
      the second (for source observations) the source. */
  datatype Row = Row(hash: string, user: Option<string>, columns: seq<Option<string>>)

  /** `journals`: file_observations, source_observations, match_decisions, file_observation_ranges. */
  datatype Db = Db(version: int, files: map<string, string>, sources: map<string, string>, journals: seq<seq<Row>>)

  const JOURNALS := 4

  // ---------- NULL-safe comparison ----------

  datatype Truth = True | False | Unknown

  /** SQL `a IS b`: NULL is NULL is true. */
  predicate Is(a: Option<string>, b: Option<string>) {
    match (a, b)
    case (None, None) => true
    case (Some(x), Some(y)) => x == y
    case _ => false
  }

  /** SQL `a = b`: unknown as soon as one side is NULL. */
  function SqlEquals(a: Option<string>, b: Option<string>): Truth {
    if a.None? || b.None? then Unknown else if a.value == b.value then True else False
  }

  /** `WHERE d.c1 IS s.c1 AND d.c2 IS s.c2 ...` over rows of one table. */
  predicate IsTwin(d: Row, s: Row) {
    && d.hash == s.hash && Is(d.user, s.user) && |d.columns| == |s.columns|
    && forall i :: 0 <= i < |d.columns| ==> Is(d.columns[i], s.columns[i])
  }

  predicate EqualsTwin(d: Row, s: Row) {
    && d.hash == s.hash && SqlEquals(d.user, s.user) == True && |d.columns| == |s.columns|
    && forall i :: 0 <= i < |d.columns| ==> SqlEquals(d.columns[i], s.columns[i]) == True
  }

  /** With `IS`, the twins of a row are the row itself; with `=`, a row finds itself exactly when
      it has no NULL, so a journal with NULLs would grow at every merge. */
  lemma TwinIsEquality(d: Row, s: Row)
    ensures IsTwin(d, s) <==> d == s
    ensures EqualsTwin(d, d) <==> d.user.Some? && forall i :: 0 <= i < |d.columns| ==> d.columns[i].Some?
    ensures EqualsTwin(d, s) ==> d == s
  {
    if EqualsTwin(d, s) {
      forall i | 0 <= i < |d.columns| ensures d.columns[i] == s.columns[i] {
        assert SqlEquals(d.columns[i], s.columns[i]) == True;
      }
      assert d.columns == s.columns;
    }
    if IsTwin(d, s) {
      assert forall i :: 0 <= i < |d.columns| ==> d.columns[i] == s.columns[i];
      assert d.columns == s.columns;
    }
    if EqualsTwin(d, d) {
      forall i | 0 <= i < |d.columns| ensures d.columns[i].Some? {
        assert SqlEquals(d.columns[i], d.columns[i]) == True;
      }
    }
  }

  predicate HasTwin(journal: seq<Row>, s: Row) {
    exists i :: 0 <= i < |journal| && IsTwin(journal[i], s)
  }

  lemma HasTwinIsMember(journal: seq<Row>, s: Row)
    ensures HasTwin(journal, s) <==> s in journal
  {
    forall i | 0 <= i < |journal| ensures IsTwin(journal[i], s) <==> journal[i] == s {
      TwinIsEquality(journal[i], s);
    }
  }

  // ---------- one journal, one identity table ----------

  /** `SELECT DISTINCT ... FROM src WHERE NOT EXISTS (twin in dest)` */
  function NewRows(dest: seq<Row>, src: seq<Row>): seq<Row> {
    if src == [] then []
    else
      var rows, s := NewRows(dest, src[..|src| - 1]), src[|src| - 1];
      if HasTwin(dest, s) || s in rows then rows else rows + [s]
  }

  lemma {:induction false} NewRowsAre(dest: seq<Row>, src: seq<Row>)
    ensures forall r :: r in NewRows(dest, src) <==> r in src && r !in dest
    ensures Distinct(NewRows(dest, src))
  {
    if src != [] {
      var front, s := src[..|src| - 1], src[|src| - 1];
      assert src == front + [s];
      NewRowsAre(dest, front);
      HasTwinIsMember(dest, s);
    }
  }

  function MergeJournal(dest: seq<Row>, src: seq<Row>): seq<Row> { dest + NewRows(dest, src) }

  /** INSERT OR IGNORE: a key already present keeps its value. */
  function InsertOrIgnore(dest: map<string, string>, src: map<string, string>): map<string, string> { src + dest }

  ghost predicate SameSchema(d: Db, s: Db) {
    |d.journals| == 4 && |s.journals| == 4
  }

  function Merged(d: Db, s: Db): Db
    requires |d.journals| == |s.journals|
  {
    Db(d.version, InsertOrIgnore(d.files, s.files), InsertOrIgnore(d.sources, s.sources),
       seq(|d.journals|, i requires 0 <= i < |d.journals| => MergeJournal(d.journals[i], s.journals[i])))
  }

  /** Every destination row stays where it is, and each journal becomes the union. */
  lemma MergedIsUnion(d: Db, s: Db, i: nat)
    requires SameSchema(d, s) && i < JOURNALS
    ensures d.journals[i] <= Merged(d, s).journals[i]
    ensures forall r :: r in Merged(d, s).journals[i] <==> r in d.journals[i] || r in s.journals[i]
    ensures Distinct(d.journals[i]) ==> Distinct(Merged(d, s).journals[i])
    ensures Merged(d, s).files.Keys == d.files.Keys + s.files.Keys
    ensures Merged(d, s).sources.Keys == d.sources.Keys + s.sources.Keys
    ensures forall k :: k in d.files ==> Merged(d, s).files[k] == d.files[k]
    ensures forall k :: k in d.sources ==> Merged(d, s).sources[k] == d.sources[k]
  {
    var dest, rows := d.journals[i], NewRows(d.journals[i], s.journals[i]);
    NewRowsAre(dest, s.journals[i]);
    assert Merged(d, s).journals[i] == dest + rows;
    if Distinct(dest) {
      forall x, y | 0 <= x < |dest| && 0 <= y < |rows| ensures dest[x] != rows[y] {
        assert rows[y] in rows;
      }
    }
  }

  ghost predicate Contains(d: Db, s: Db)
    requires SameSchema(d, s)
  {
    && s.files.Keys <= d.files.Keys && s.sources.Keys <= d.sources.Keys
    && forall i :: 0 <= i < JOURNALS ==> forall r :: r in s.journals[i] ==> r in d.journals[i]
  }

  /** A source whose content is already there changes nothing, whoever brought it. */
  lemma MergedIsNoOp(d: Db, s: Db)
    requires SameSchema(d, s) && Contains(d, s)
    ensures Merged(d, s) == d
  {
    forall i | 0 <= i < JOURNALS ensures MergeJournal(d.journals[i], s.journals[i]) == d.journals[i] {
      NewRowsAre(d.journals[i], s.journals[i]);
      Inhabited(NewRows(d.journals[i], s.journals[i]));
    }
    assert Merged(d, s).journals == d.journals;
    assert Merged(d, s).files == d.files;
    assert Merged(d, s).sources == d.sources;
  }

  ghost predicate AllSameSchema(d: Db, sources: seq<Db>) {
    |d.journals| == JOURNALS && forall i :: 0 <= i < |sources| ==> |sources[i].journals| == JOURNALS
  }

  ghost function MergeAll(d: Db, sources: seq<Db>): (r: Db)
    requires AllSameSchema(d, sources)
    ensures |r.journals| == JOURNALS
  {
    if sources == [] then d else Merged(MergeAll(d, sources[..|sources| - 1]), sources[|sources| - 1])
  }

  ghost predicate RowSomewhere(d: Db, sources: seq<Db>, i: nat, r: Row)
    requires AllSameSchema(d, sources) && i < JOURNALS
  {
    r in d.journals[i] || exists s :: s in sources && |s.journals| == JOURNALS && r in s.journals[i]
  }

  ghost predicate FileSomewhere(d: Db, sources: seq<Db>, k: string) {
    k in d.files || exists s :: s in sources && k in s.files
  }

  ghost predicate SourceSomewhere(d: Db, sources: seq<Db>, k: string) {
    k in d.sources || exists s :: s in sources && k in s.sources
  }

  /** After any number of merges each table holds what the destination or some source holds. */
  lemma {:induction false} MergeAllIsUnion(d: Db, sources: seq<Db>, i: nat)
    requires AllSameSchema(d, sources) && i < JOURNALS
    ensures d.journals[i] <= MergeAll(d, sources).journals[i]
    ensures forall r :: r in MergeAll(d, sources).journals[i] <==> RowSomewhere(d, sources, i, r)
    ensures forall k :: k in MergeAll(d, sources).files <==> FileSomewhere(d, sources, k)
    ensures forall k :: k in MergeAll(d, sources).sources <==> SourceSomewhere(d, sources, k)
    decreases |sources|
  {
    if sources != [] {
      var front, s := sources[..|sources| - 1], sources[|sources| - 1];
      assert sources == front + [s];
      assert s in sources;
      MergeAllIsUnion(d, front, i);
      MergedIsUnion(MergeAll(d, front), s, i);
      forall x ensures x in sources <==> x in front || x == s { }
    }
  }

  /** The journals, as sets of rows, and the keys of files and sources do not depend on the order of the sources. */
  lemma MergeOrderIndependent(d: Db, a: seq<Db>, b: seq<Db>, i: nat)
    requires AllSameSchema(d, a) && AllSameSchema(d, b) && i < JOURNALS
    requires forall s :: s in a <==> s in b
    ensures forall r :: r in MergeAll(d, a).journals[i] <==> r in MergeAll(d, b).journals[i]
    ensures MergeAll(d, a).files.Keys == MergeAll(d, b).files.Keys
    ensures MergeAll(d, a).sources.Keys == MergeAll(d, b).sources.Keys
  {
    MergeAllIsUnion(d, a, i);
    MergeAllIsUnion(d, b, i);
    forall r ensures RowSomewhere(d, a, i, r) <==> RowSomewhere(d, b, i, r) { }
    forall k ensures FileSomewhere(d, a, k) <==> FileSomewhere(d, b, k) { }
    forall k ensures SourceSomewhere(d, a, k) <==> SourceSomewhere(d, b, k) { }
  }

  /** The values of the identity tables do depend on it: first sighting wins. Two sources commute
      exactly when they agree on the keys they share and the destination lacks. */
  lemma IdentityOrder(d: map<string, string>, a: map<string, string>, b: map<string, string>)
    ensures InsertOrIgnore(InsertOrIgnore(d, a), b) == InsertOrIgnore(InsertOrIgnore(d, b), a)
      <==> forall k :: k in a && k in b && k !in d ==> a[k] == b[k]
  {
    var ab, ba := InsertOrIgnore(InsertOrIgnore(d, a), b), InsertOrIgnore(InsertOrIgnore(d, b), a);
    forall k | k in a && k in b && k !in d ensures ab[k] == a[k] && ba[k] == b[k] {
    }
  }

  /** Merging a source again, now or after others, is a no-op. */
  lemma RemergeIsNoOp(d: Db, sources: seq<Db>, k: nat)
    requires AllSameSchema(d, sources) && k < |sources|
    ensures Merged(MergeAll(d, sources), sources[k]) == MergeAll(d, sources)
  {
    var m := MergeAll(d, sources);
    forall i: nat | i < JOURNALS ensures forall r :: r in sources[k].journals[i] ==> r in m.journals[i] {
      MergeAllIsUnion(d, sources, i);
      assert forall r :: r in sources[k].journals[i] ==> RowSomewhere(d, sources, i, r);
    }
    MergeAllIsUnion(d, sources, 0);
    assert forall f :: f in sources[k].files ==> FileSomewhere(d, sources, f);
    assert forall f :: f in sources[k].sources ==> SourceSomewhere(d, sources, f);
    MergedIsNoOp(m, sources[k]);
  }

  // ---------- the merge itself ----------

  /** A source path: it may not open, and it may be the output itself. */
  datatype Source = Source(attaches: bool, isOutput: bool, db: Db)

  datatype Result = Ok | AttachFailed | VersionMismatch | CopyFailed

  /** Foreign keys: journal rows name known files and, when they name one, known sources. */
  ghost predicate ReferencesHold(db: Db) {
    forall i, r :: 0 <= i < |db.journals| && r in db.journals[i] ==>
      r.hash in db.files && (r.user.Some? ==> r.user.value in db.sources)
  }

  lemma MergedReferences(d: Db, s: Db)
    requires SameSchema(d, s) && ReferencesHold(d) && ReferencesHold(s)
    ensures ReferencesHold(Merged(d, s))
  {
    forall i, r | 0 <= i < JOURNALS && r in Merged(d, s).journals[i]
      ensures r.hash in Merged(d, s).files && (r.user.Some? ==> r.user.value in Merged(d, s).sources)
    {
      MergedIsUnion(d, s, i);
    }
  }

  lemma TakenStep(d: Db, sources: seq<Source>, k: nat, destIsSource: bool)
    requires k < |sources| && |sources[k].db.journals| == JOURNALS
    requires AllSameSchema(d, Taken(sources[..k], destIsSource))
    ensures AllSameSchema(d, Taken(sources[..k + 1], destIsSource))
    ensures
      var m := MergeAll(d, Taken(sources[..k], destIsSource));
      MergeAll(d, Taken(sources[..k + 1], destIsSource))
        == if destIsSource && sources[k].isOutput then m else Merged(m, sources[k].db)
  {
    var taken := Taken(sources[..k], destIsSource);
    assert sources[..k + 1][..k] == sources[..k];
    if destIsSource && sources[k].isOutput {
      assert Taken(sources[..k + 1], destIsSource) == taken;
    } else {
      assert Taken(sources[..k + 1], destIsSource) == taken + [sources[k].db];
      assert (taken + [sources[k].db])[..|taken|] == taken;
    }
  }

  class Output {
    var db: Db
    ghost var failures: nat

    constructor (db: Db)
      ensures this.db == db
    {
      this.db := db;
      failures := 0;
    }

    /** One statement of the copy; any of them may fail. */
    method Step(next: Db) returns (ok: bool)
      modifies this
      ensures db == if ok then next else old(db)
      ensures failures == old(failures) + (if ok then 0 else 1)
    {
      if * {
        failures := failures + 1;
        return false;
      }
      db := next;
      ok := true;
    }

    /** Six statements, identities before the journals that refer to them, in one transaction. */
    method MergeOne(source: Source, expectedVersion: int) returns (r: Result)
      requires SameSchema(db, source.db)
      modifies this
      ensures r.Ok? ==> source.attaches && source.db.version == expectedVersion && db == Merged(old(db), source.db)
      ensures !r.Ok? ==> db == old(db)
      ensures failures == old(failures) + (if r.CopyFailed? then 1 else 0)
      ensures r.VersionMismatch? <==> source.attaches && source.db.version != expectedVersion
      ensures r.AttachFailed? <==> !source.attaches
      ensures r.Ok? && ReferencesHold(old(db)) && ReferencesHold(source.db) ==> ReferencesHold(db)
    {
      if !source.attaches {
        return AttachFailed;
      }
      if source.db.version != expectedVersion {
        return VersionMismatch;
      }
      var saved, src := db, source.db;
      var ok := Step(db.(files := InsertOrIgnore(db.files, src.files)));
      if ok {
        ok := Step(db.(sources := InsertOrIgnore(db.sources, src.sources)));
      }
      var i := 0;
      while ok && i < JOURNALS
        invariant 0 <= i <= JOURNALS && |db.journals| == JOURNALS
        invariant failures == old(failures) + (if ok then 0 else 1)
        invariant ok ==> db.version == saved.version
        invariant ok ==> db.files == Merged(saved, src).files && db.sources == Merged(saved, src).sources
        invariant ok ==> forall j :: 0 <= j < JOURNALS ==>
          db.journals[j] == if j < i then Merged(saved, src).journals[j] else saved.journals[j]
        decreases JOURNALS - i
      {
        ok := Step(db.(journals := db.journals[i := MergeJournal(db.journals[i], src.journals[i])]));
        i := i + 1;
      }
      if !ok {
        db := saved;
        return CopyFailed;
      }
      assert db.journals == Merged(saved, src).journals;
      if ReferencesHold(saved) && ReferencesHold(src) {
        MergedReferences(saved, src);
      }
      r := Ok;
    }

    /** Source by source, stopping at the first failure: what was merged before it stays, of it nothing does. */
    method MergeCatalogs(sources: seq<Source>, destIsSource: bool) returns (r: Result, done: nat)
      requires |db.journals| == JOURNALS && forall i :: 0 <= i < |sources| ==> |sources[i].db.journals| == JOURNALS
      modifies this
      ensures done <= |sources| && (r.Ok? <==> done == |sources|)
      ensures r.AttachFailed? ==> !sources[done].attaches
      ensures r.VersionMismatch? ==> sources[done].db.version != old(db).version
      ensures failures == old(failures) + (if r.CopyFailed? then 1 else 0)
      ensures AllSameSchema(old(db), Taken(sources[..done], destIsSource))
      ensures db == MergeAll(old(db), Taken(sources[..done], destIsSource))
    {
      ghost var before := db;
      var expectedVersion := db.version;
      r, done := Ok, 0;
      while done < |sources|
        invariant done <= |sources| && r.Ok? && failures == old(failures)
        invariant AllSameSchema(before, Taken(sources[..done], destIsSource))
        invariant db == MergeAll(before, Taken(sources[..done], destIsSource))
      {
        TakenStep(before, sources, done, destIsSource);
        if !(destIsSource && sources[done].isOutput) {
          r := MergeOne(sources[done], expectedVersion);
          if !r.Ok? {
            return;
          }
        }
        done := done + 1;
      }
    }
  }

  /** The sources actually merged: in `--into` mode the output itself is passed over. */
  function Taken(sources: seq<Source>, destIsSource: bool): seq<Db> {
    if sources == [] then []
    else
      var s := sources[|sources| - 1];
      Taken(sources[..|sources| - 1], destIsSource) + (if destIsSource && s.isOutput then [] else [s.db])
  }
}
