/** Which of the decisions tied at the latest stamp a merged catalogue shows. */
module MergeTies {
  import opened Journal
  import opened Latest
  import opened Merge
  import opened MergedView
  import opened Options
  import opened Order

  // ---------- the decision journal of a merge, row by row ----------

  function DecisionsOf(db: Db): seq<Row> {
    if |db.journals| == JOURNALS then db.journals[DECISIONS] else []
  }

  function MergeRows(d: seq<Row>, sources: seq<Db>): seq<Row> {
    if sources == [] then d
    else MergeJournal(MergeRows(d, sources[..|sources| - 1]), DecisionsOf(sources[|sources| - 1]))
  }

  lemma {:induction false} MergeAllRows(d: Db, sources: seq<Db>)
    requires AllSameSchema(d, sources)
    ensures MergeAll(d, sources).journals[DECISIONS] == MergeRows(DecisionsOf(d), sources)
    decreases |sources|
  {
    if sources != [] {
      MergeAllRows(d, sources[..|sources| - 1]);
    }
  }

  ghost predicate InSource(sources: seq<Db>, r: Row) {
    exists s :: s in sources && r in DecisionsOf(s)
  }

  lemma {:induction false} MergeRowsAre(d: seq<Row>, sources: seq<Db>)
    ensures d <= MergeRows(d, sources)
    ensures forall r :: r in MergeRows(d, sources) <==> r in d || InSource(sources, r)
  {
    if sources != [] {
      var front, s := sources[..|sources| - 1], sources[|sources| - 1];
      MergeRowsAre(d, front);
      NewRowsAre(MergeRows(d, front), DecisionsOf(s));
      assert sources == front + [s];
      forall r ensures InSource(sources, r) <==> InSource(front, r) || r in DecisionsOf(s) {
      }
    }
  }

  lemma {:induction false} MergeRowsJoin(d: seq<Row>, a: seq<Db>, b: seq<Db>)
    ensures MergeRows(d, a + b) == MergeRows(MergeRows(d, a), b)
  {
    if b == [] {
      assert a + b == a;
    } else {
      assert (a + b)[..|a + b| - 1] == a + b[..|b| - 1];
      MergeRowsJoin(d, a, b[..|b| - 1]);
    }
  }

  /** A row inserted is not among those before it. */
  lemma {:induction false} InsertedIsNew(d: seq<Row>, sources: seq<Db>, k: nat)
    requires |d| <= k < |MergeRows(d, sources)|
    ensures MergeRows(d, sources)[k] !in MergeRows(d, sources)[..k]
  {
    var front, s := sources[..|sources| - 1], sources[|sources| - 1];
    var before, rows := MergeRows(d, front), NewRows(MergeRows(d, front), DecisionsOf(s));
    NewRowsAre(before, DecisionsOf(s));
    if k < |before| {
      InsertedIsNew(d, front, k);
      assert MergeRows(d, sources)[..k] == before[..k];
    } else {
      assert MergeRows(d, sources)[..k] == before + rows[..k - |before|];
      assert rows[k - |before|] in rows;
    }
  }

  /** `r` occurs in the journal, and `q` before its first occurrence. */
  ghost predicate Precedes(journal: seq<Row>, q: Row, r: Row) {
    exists j :: 0 <= j < |journal| && journal[j] == r && r !in journal[..j] && q in journal[..j]
  }

  /** The rows inserted from a journal come in the order of their first occurrences. */
  lemma {:induction false} InsertedInOrder(dest: seq<Row>, journal: seq<Row>, y: nat, q: Row)
    requires y < |NewRows(dest, journal)| && q !in dest
    ensures q in NewRows(dest, journal)[..y] <==> Precedes(journal, q, NewRows(dest, journal)[y])
  {
    var front, s := journal[..|journal| - 1], journal[|journal| - 1];
    var rows := NewRows(dest, front);
    NewRowsAre(dest, front);
    HasTwinIsMember(dest, s);
    assert journal == front + [s];
    PrecedesSnoc(front, s, q, NewRows(dest, journal)[y]);
    if y < |rows| {
      InsertedInOrder(dest, front, y, q);
      assert rows[y] in rows && NewRows(dest, journal)[..y] == rows[..y];
    } else {
      assert NewRows(dest, journal) == rows + [s] && (rows + [s])[..y] == rows;
    }
  }

  lemma PrecedesSnoc(front: seq<Row>, s: Row, q: Row, r: Row)
    ensures r in front ==> (Precedes(front + [s], q, r) <==> Precedes(front, q, r))
    ensures r !in front && r == s ==> (Precedes(front + [s], q, r) <==> q in front)
  {
    var journal := front + [s];
    assert journal[..|front|] == front;
    forall j | 0 <= j < |front| ensures journal[..j] == front[..j] && journal[j] == front[j] {
    }
    if r !in front && r == s && q in front {
      assert journal[|front|] == r && q in journal[..|front|];
    }
    if Precedes(front, q, r) {
      var j :| 0 <= j < |front| && front[j] == r && r !in front[..j] && q in front[..j];
      assert journal[j] == r && r !in journal[..j] && q in journal[..j];
    }
  }

  // ---------- the view shows the last top row ----------

  ghost predicate LastTop(rows: seq<Row>, key: Key, k: nat) {
    && k < |rows| && IsTop(rows, key, rows[k])
    && forall j :: k < j < |rows| ==> !IsTop(rows, key, rows[j])
  }

  lemma ViewIsLastTop(rows: seq<Row>, key: Key, k: nat)
    requires LastTop(rows, key, k)
    ensures View(rows, key) == Some(VerdictOf(rows[k]))
  {
    var log, e := Entries(rows), Entries(rows)[k];
    assert e in log;
    forall x | x in log && x.key == key && x != e ensures Later(e, x) {
      var j :| 0 <= j < |rows| && log[j] == x;
      assert rows[j] in rows && AtMost(StampOf(rows[j]), StampOf(rows[k]));
      if StampOf(rows[j]) == StampOf(rows[k]) {
        SameStampIsTop(rows, key, k, j);
      }
    }
    LatestUnique(log, key, e);
  }

  lemma SameStampIsTop(rows: seq<Row>, key: Key, k: nat, j: nat)
    requires LastTop(rows, key, k) && j < |rows| && KeyOf(rows[j]) == key && StampOf(rows[j]) == StampOf(rows[k])
    ensures j <= k
  {
    assert IsTop(rows, key, rows[j]);
  }

  // ---------- which tied row comes last ----------

  /** A row the destination lacks, at the latest stamp of its key in the merged catalogue. */
  ghost predicate Rival(d: seq<Row>, sources: seq<Db>, key: Key, r: Row) {
    r !in d && IsTop(MergeRows(d, sources), key, r)
  }

  ghost predicate LackedBy(sources: seq<Db>, q: Row, r: Row) {
    exists o :: o in sources && q in DecisionsOf(o) && r !in DecisionsOf(o)
  }

  ghost predicate LastFrom(d: seq<Row>, sources: seq<Db>, key: Key, r: Row, s: Db) {
    && s in sources && r in DecisionsOf(s)
    && forall q :: Rival(d, sources, key, q) && q != r ==>
         Precedes(DecisionsOf(s), q, r) || LackedBy(sources, q, r)
  }

  /** Some source holds the rival, and each other rival comes before it there or is in a source without it. */
  ghost predicate CanBeLast(d: seq<Row>, sources: seq<Db>, key: Key, r: Row) {
    Rival(d, sources, key, r) && exists s :: LastFrom(d, sources, key, r, s)
  }

  ghost predicate SameSources(a: seq<Db>, b: seq<Db>) { forall s :: s in a <==> s in b }

  lemma SameRivals(d: seq<Row>, a: seq<Db>, b: seq<Db>, key: Key)
    requires SameSources(a, b)
    ensures forall r :: IsTop(MergeRows(d, a), key, r) <==> IsTop(MergeRows(d, b), key, r)
    ensures forall r :: CanBeLast(d, a, key, r) ==> CanBeLast(d, b, key, r)
  {
    MergeRowsAre(d, a);
    MergeRowsAre(d, b);
    assert forall r :: InSource(a, r) <==> InSource(b, r);
    assert forall r :: r in MergeRows(d, a) <==> r in MergeRows(d, b);
    forall r | CanBeLast(d, a, key, r) ensures CanBeLast(d, b, key, r) {
      var s :| LastFrom(d, a, key, r, s);
      forall q | Rival(d, b, key, q) && q != r ensures Precedes(DecisionsOf(s), q, r) || LackedBy(b, q, r) {
        assert Rival(d, a, key, q);
        assert LackedBy(a, q, r) ==> LackedBy(b, q, r);
      }
      assert LastFrom(d, b, key, r, s);
    }
  }

  /** Where an inserted row comes from, and where the rows inserted before it do. */
  lemma {:induction false} InsertedFrom(d: seq<Row>, sources: seq<Db>, k: nat) returns (s: Db)
    requires |d| <= k < |MergeRows(d, sources)|
    ensures s in sources && MergeRows(d, sources)[k] in DecisionsOf(s)
    ensures
      var m := MergeRows(d, sources);
      forall q :: q in m[..k] && q !in d ==> Precedes(DecisionsOf(s), q, m[k]) || LackedBy(sources, q, m[k])
    decreases |sources|
  {
    var front, last := sources[..|sources| - 1], sources[|sources| - 1];
    var before, m := MergeRows(d, front), MergeRows(d, sources);
    var rows := NewRows(before, DecisionsOf(last));
    assert sources == front + [last];
    if k < |before| {
      s := InsertedFrom(d, front, k);
      assert m[..k] == before[..k];
      forall q | q in m[..k] && q !in d ensures Precedes(DecisionsOf(s), q, m[k]) || LackedBy(sources, q, m[k]) {
        assert LackedBy(front, q, m[k]) ==> LackedBy(sources, q, m[k]);
      }
    } else {
      s := last;
      NewRowsAre(before, DecisionsOf(last));
      assert rows[k - |before|] in rows;
      MergeRowsAre(d, front);
      assert m[..k] == before + rows[..k - |before|];
      forall q | q in m[..k] && q !in d ensures Precedes(DecisionsOf(s), q, m[k]) || LackedBy(sources, q, m[k]) {
        if q in before {
          var o :| o in front && q in DecisionsOf(o);
          assert !InSource(front, m[k]);
        } else {
          InsertedInOrder(before, DecisionsOf(last), k - |before|, q);
        }
      }
    }
  }

  lemma BeforeLast(m: seq<Row>, key: Key, k: nat, q: Row)
    requires LastTop(m, key, k) && IsTop(m, key, q) && q != m[k]
    ensures q in m[..k]
  {
    var j :| 0 <= j < |m| && m[j] == q;
    assert m[..k][j] == q;
  }

  /** The last top row of a merge, when the destination lacks it, is one that can be last. */
  lemma LastCanBeLast(d: seq<Row>, sources: seq<Db>, key: Key, k: nat)
    requires LastTop(MergeRows(d, sources), key, k) && |d| <= k
    ensures CanBeLast(d, sources, key, MergeRows(d, sources)[k])
  {
    var m := MergeRows(d, sources);
    var s := InsertedFrom(d, sources, k);
    InsertedIsNew(d, sources, k);
    MergeRowsAre(d, sources);
    forall q | Rival(d, sources, key, q) && q != m[k] ensures q in m[..k] {
      BeforeLast(m, key, k, q);
    }
    assert d == m[..|d|];
    assert LastFrom(d, sources, key, m[k], s);
  }

  // ---------- an order in which a rival that can be last is last ----------

  function Without(sources: seq<Db>, r: Row): (rest: seq<Db>)
    ensures forall s :: s in rest <==> s in sources && r !in DecisionsOf(s)
  {
    if sources == [] then []
    else
      var rest, s := Without(sources[..|sources| - 1], r), sources[|sources| - 1];
      assert sources == sources[..|sources| - 1] + [s];
      if r in DecisionsOf(s) then rest else rest + [s]
  }

  /** The sources without the row, then the source it is last in, then all again, which changes nothing more. */
  function Ordered(sources: seq<Db>, r: Row, s: Db): seq<Db> { Without(sources, r) + [s] + sources }

  lemma OrderedSame(sources: seq<Db>, r: Row, s: Db)
    requires s in sources
    ensures SameSources(Ordered(sources, r, s), sources)
  {
  }

  lemma LackedIsIn(sources: seq<Db>, q: Row, r: Row)
    ensures LackedBy(sources, q, r) ==> InSource(Without(sources, r), q)
  {
  }

  /** Where the row of a source is inserted after those of the sources without it. */
  lemma InsertedAt(d: seq<Row>, sources: seq<Db>, r: Row, s: Db) returns (y: nat)
    requires r !in d && r in DecisionsOf(s)
    ensures
      var before := MergeRows(d, Without(sources, r));
      && |d| <= |before| && y < |NewRows(before, DecisionsOf(s))| && NewRows(before, DecisionsOf(s))[y] == r
      && forall q :: q in d || InSource(Without(sources, r), q) ==> q in before
    ensures MergeRows(d, Without(sources, r) + [s])
      == MergeRows(d, Without(sources, r)) + NewRows(MergeRows(d, Without(sources, r)), DecisionsOf(s))
  {
    var rest := Without(sources, r);
    var before := MergeRows(d, rest);
    var rows := NewRows(before, DecisionsOf(s));
    MergeRowsAre(d, rest);
    NewRowsAre(before, DecisionsOf(s));
    assert (rest + [s])[..|rest|] == rest;
    assert r !in before && r in rows;
    y :| 0 <= y < |rows| && rows[y] == r;
  }

  /** Once merged with its source, the row stands after every other rival. */
  lemma OrderedPosition(d: seq<Row>, sources: seq<Db>, key: Key, r: Row, s: Db) returns (k: nat)
    requires Rival(d, sources, key, r) && LastFrom(d, sources, key, r, s)
    ensures
      var m := MergeRows(d, Without(sources, r) + [s]);
      && |d| <= k < |m| && m[k] == r
      && forall q :: Rival(d, sources, key, q) && q != r ==> q in m[..k]
  {
    var rest := Without(sources, r);
    var before, m := MergeRows(d, rest), MergeRows(d, rest + [s]);
    var rows := NewRows(before, DecisionsOf(s));
    var y := InsertedAt(d, sources, r, s);
    k := |before| + y;
    assert m[..k] == before + rows[..y];
    forall q | Rival(d, sources, key, q) && q != r ensures q in m[..k] {
      LackedIsIn(sources, q, r);
      if q !in before {
        InsertedInOrder(before, DecisionsOf(s), y, q);
      }
    }
  }

  lemma OrderedIsLast(d: seq<Row>, sources: seq<Db>, key: Key, r: Row, s: Db)
    requires Rival(d, sources, key, r) && LastFrom(d, sources, key, r, s)
    ensures SameSources(Ordered(sources, r, s), sources)
    ensures View(MergeRows(d, Ordered(sources, r, s)), key) == Some(VerdictOf(r))
  {
    var first, order := Without(sources, r) + [s], Ordered(sources, r, s);
    var k := OrderedPosition(d, sources, key, r, s);
    var part, m := MergeRows(d, first), MergeRows(d, order);
    MergeRowsJoin(d, first, sources);
    MergeRowsAre(part, sources);
    MergeRowsAre(d, order);
    OrderedSame(sources, r, s);
    SameRivals(d, sources, order, key);
    assert m[k] == r && m[..k] == part[..k];
    forall j | k < j < |m| ensures !IsTop(m, key, m[j]) {
      InsertedIsNew(d, order, j);
      NotBefore(d, m, k, j);
      assert !Rival(d, sources, key, m[j]);
    }
    ViewIsLastTop(m, key, k);
  }

  lemma NotBefore(d: seq<Row>, m: seq<Row>, k: nat, j: nat)
    requires d <= m && |d| <= k < j < |m| && m[j] !in m[..j]
    ensures m[j] !in d && m[j] != m[k] && m[j] !in m[..k]
  {
    assert m[..j][k] == m[k] && d == m[..j][..|d|] && m[..k] == m[..j][..k];
  }

  // ---------- exactly when the order of the sources shows ----------

  lemma {:induction false} SomeLastTop(rows: seq<Row>, key: Key, n: nat) returns (k: nat)
    requires n <= |rows| && exists i :: 0 <= i < n && IsTop(rows, key, rows[i])
    requires forall j :: n <= j < |rows| ==> !IsTop(rows, key, rows[j])
    ensures LastTop(rows, key, k)
  {
    k := n - 1;
    if !IsTop(rows, key, rows[k]) {
      k := SomeLastTop(rows, key, n - 1);
    }
  }

  /** Whatever a merge shows, some top row shows it: the last one, in its place of the destination or, failing that,
      one that can be last. */
  lemma ShownRow(d: seq<Row>, sources: seq<Db>, key: Key) returns (k: nat)
    requires View(MergeRows(d, sources), key).Some?
    ensures LastTop(MergeRows(d, sources), key, k)
    ensures View(MergeRows(d, sources), key) == Some(VerdictOf(MergeRows(d, sources)[k]))
    ensures |d| <= k ==> CanBeLast(d, sources, key, MergeRows(d, sources)[k])
  {
    var m := MergeRows(d, sources);
    ViewIsTop(m, key);
    var r :| IsTop(m, key, r);
    var i :| 0 <= i < |m| && m[i] == r;
    k := SomeLastTop(m, key, |m|);
    ViewIsLastTop(m, key, k);
    if |d| <= k {
      LastCanBeLast(d, sources, key, k);
    }
  }

  ghost predicate OneVerdict(d: seq<Row>, sources: seq<Db>, key: Key) {
    forall r, q :: CanBeLast(d, sources, key, r) && CanBeLast(d, sources, key, q) ==> VerdictOf(r) == VerdictOf(q)
  }

  lemma SameShown(d: seq<Row>, a: seq<Db>, b: seq<Db>, key: Key)
    requires SameSources(a, b) && OneVerdict(d, a, key)
    ensures View(MergeRows(d, a), key) == View(MergeRows(d, b), key)
  {
    var m, n := MergeRows(d, a), MergeRows(d, b);
    SameRivals(d, a, b, key);
    SameRivals(d, b, a, key);
    MergeRowsAre(d, a);
    MergeRowsAre(d, b);
    ViewIsTop(m, key);
    ViewIsTop(n, key);
    if View(m, key).Some? {
      var k := ShownRow(d, a, key);
      var l := ShownRow(d, b, key);
      if k < |d| {
        LastInDest(d, a, b, key, k, l);
      } else if l < |d| {
        LastInDest(d, b, a, key, l, k);
      }
    }
  }

  /** The destination's rows stand first in every merge. */
  lemma LastInDest(d: seq<Row>, a: seq<Db>, b: seq<Db>, key: Key, k: nat, l: nat)
    requires SameSources(a, b) && k < |d|
    requires LastTop(MergeRows(d, a), key, k) && LastTop(MergeRows(d, b), key, l)
    ensures l == k && MergeRows(d, a)[k] == MergeRows(d, b)[l]
  {
    var m, n := MergeRows(d, a), MergeRows(d, b);
    SameRivals(d, a, b, key);
    MergeRowsAre(d, a);
    MergeRowsAre(d, b);
    assert m[k] == d[k] == n[k];
    var j :| 0 <= j < |m| && m[j] == n[l];
    assert n[j] == n[l] && j <= k;
    assert j < l ==> n[..l][j] == n[l];
    if |d| <= l {
      InsertedIsNew(d, b, l);
    }
    assert m[l] == n[l];
  }

  /** The latest decision of a key does not depend on the order in which the sources are merged exactly when all the
      tied rows that can be inserted last carry one verdict. */
  lemma OrderShowsIff(d: Db, a: seq<Db>, key: Key)
    requires AllSameSchema(d, a)
    ensures OneVerdict(DecisionsOf(d), a, key) <==>
      forall b :: SameSources(a, b) ==>
        AllSameSchema(d, b) &&
        View(MergeAll(d, b).journals[DECISIONS], key) == View(MergeAll(d, a).journals[DECISIONS], key)
  {
    var rows := DecisionsOf(d);
    MergeAllRows(d, a);
    forall b | SameSources(a, b) ensures AllSameSchema(d, b) &&
      View(MergeAll(d, b).journals[DECISIONS], key) == View(MergeRows(rows, b), key)
    {
      assert forall i :: 0 <= i < |b| ==> b[i] in b && b[i] in a;
      MergeAllRows(d, b);
    }
    if OneVerdict(rows, a, key) {
      forall b | SameSources(a, b) ensures View(MergeRows(rows, b), key) == View(MergeRows(rows, a), key) {
        SameShown(rows, a, b, key);
      }
    } else {
      var r, q :| CanBeLast(rows, a, key, r) && CanBeLast(rows, a, key, q) && VerdictOf(r) != VerdictOf(q);
      var s :| LastFrom(rows, a, key, r, s);
      var o :| LastFrom(rows, a, key, q, o);
      OrderedIsLast(rows, a, key, r, s);
      OrderedIsLast(rows, a, key, q, o);
      assert SameSources(a, Ordered(a, r, s)) && SameSources(a, Ordered(a, q, o));
    }
  }
}
