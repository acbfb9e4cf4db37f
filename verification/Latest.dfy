/** "The latest row per key" of an append-only table, in the three forms of the SQL: the greatest stamp,
    ties broken by the greatest id. */
module Latest {
  import opened Options
  import opened Order

  datatype Entry<K, P> = Entry(id: int, key: K, stamp: string, payload: P)

  ghost predicate UniqueIds<K(!new), P(!new)>(t: seq<Entry<K, P>>) {
    forall i, j :: 0 <= i < j < |t| ==> t[i].id != t[j].id
  }

  /** `(stamp, id)` of `a` is greater than that of `b`. */
  predicate Later<K, P>(a: Entry<K, P>, b: Entry<K, P>) {
    Below(b.stamp, a.stamp) || (a.stamp == b.stamp && a.id > b.id)
  }

  lemma LaterTransitive<K, P>(a: Entry<K, P>, b: Entry<K, P>, c: Entry<K, P>)
    ensures Later(a, b) && Later(b, c) ==> Later(a, c)
  {
    if Below(b.stamp, a.stamp) && Below(c.stamp, b.stamp) {
      BelowTransitive(c.stamp, b.stamp, a.stamp);
    }
  }

  lemma LaterAsymmetric<K, P>(a: Entry<K, P>, b: Entry<K, P>)
    ensures !(Later(a, b) && Later(b, a))
  {
    LaterTransitive(a, b, a);
    BelowIrreflexive(a.stamp);
  }

  lemma LaterTotal<K, P>(a: Entry<K, P>, b: Entry<K, P>)
    ensures a.id != b.id ==> Later(a, b) || Later(b, a)
  {
    BelowTotal(a.stamp, b.stamp);
  }

  // ---------- the latest row, scanning the table ----------

  function LatestOf<K(==), P>(t: seq<Entry<K, P>>, key: K): Option<Entry<K, P>> {
    if t == [] then None
    else
      var r, e := LatestOf(t[..|t| - 1], key), t[|t| - 1];
      if e.key == key && (r.None? || Later(e, r.value)) then Some(e) else r
  }

  /** `e` has the key and no other row of that key is later. */
  ghost predicate IsLatest<K(!new), P(!new)>(t: seq<Entry<K, P>>, key: K, e: Entry<K, P>) {
    && e in t && e.key == key
    && forall r :: r in t && r.key == key && r != e ==> Below(r.stamp, e.stamp) || (r.stamp == e.stamp && r.id < e.id)
  }

  ghost predicate HasKey<K(!new), P(!new)>(t: seq<Entry<K, P>>, key: K) {
    exists e :: e in t && e.key == key
  }

  lemma {:induction false} LatestOfIsLatest<K(!new), P(!new)>(t: seq<Entry<K, P>>, key: K)
    requires UniqueIds(t)
    ensures LatestOf(t, key).Some? <==> HasKey(t, key)
    ensures LatestOf(t, key).Some? ==> IsLatest(t, key, LatestOf(t, key).value)
  {
    if t != [] {
      var front, e := t[..|t| - 1], t[|t| - 1];
      assert t == front + [e];
      LatestOfIsLatest(front, key);
      var r := LatestOf(front, key);
      if HasKey(front, key) {
        var x :| x in front && x.key == key;
        assert x in t;
      }
      if e.key == key {
        assert e in t;
        if r.Some? {
          LastOrLater(t, key, r.value, e);
        }
      }
    }
  }

  /** Between the latest of the front and the last row, the later one is the latest of all. */
  lemma LastOrLater<K(!new), P(!new)>(t: seq<Entry<K, P>>, key: K, r: Entry<K, P>, e: Entry<K, P>)
    requires UniqueIds(t) && t != [] && e == t[|t| - 1] && e.key == key && IsLatest(t[..|t| - 1], key, r)
    ensures IsLatest(t, key, if Later(e, r) then e else r)
  {
    var front := t[..|t| - 1];
    assert t == front + [e];
    assert e.id != r.id by {
      var k :| 0 <= k < |front| && front[k] == r;
      assert t[k] == r;
    }
    LaterTotal(e, r);
    if Later(e, r) {
      forall x | x in t && x.key == key && x != e ensures Later(e, x) {
        if x != r {
          LaterTransitive(e, r, x);
        }
      }
    }
  }

  lemma LatestUnique<K(!new), P(!new)>(t: seq<Entry<K, P>>, key: K, e: Entry<K, P>)
    requires UniqueIds(t) && IsLatest(t, key, e)
    ensures LatestOf(t, key) == Some(e)
  {
    LatestOfIsLatest(t, key);
    assert HasKey(t, key);
    LaterAsymmetric(e, LatestOf(t, key).value);
  }

  // ---------- the SQL forms ----------

  /** `WHERE (SELECT COUNT(*) FROM t AS o2 WHERE o2.key = o.key AND o2 is later) = 0` */
  function CountLater<K(==), P>(t: seq<Entry<K, P>>, e: Entry<K, P>): nat {
    if t == [] then 0
    else
      var r := t[|t| - 1];
      CountLater(t[..|t| - 1], e) + (if r.key == e.key && Later(r, e) then 1 else 0)
  }

  ghost predicate AntiJoin<K(!new), P(!new)>(t: seq<Entry<K, P>>, e: Entry<K, P>) {
    e in t && CountLater(t, e) == 0
  }

  predicate NotEarlier<K(==), P(==)>(a: Entry<K, P>, b: Entry<K, P>) { a == b || Later(a, b) }

  function Partition<K(==), P>(t: seq<Entry<K, P>>, key: K): seq<Entry<K, P>> {
    if t == [] then []
    else Partition(t[..|t| - 1], key) + (if t[|t| - 1].key == key then [t[|t| - 1]] else [])
  }

  /** The rows of one key, `ORDER BY stamp DESC, id DESC`. */
  function Ranked<K(==), P(==)>(t: seq<Entry<K, P>>, key: K): seq<Entry<K, P>> {
    Sort(Partition(t, key), NotEarlier)
  }

  /** `... LIMIT 1` */
  function LimitOne<K(==), P(==)>(t: seq<Entry<K, P>>, key: K): Option<Entry<K, P>> {
    if Ranked(t, key) == [] then None else Some(Ranked(t, key)[0])
  }

  /** `ROW_NUMBER() OVER (PARTITION BY key ORDER BY stamp DESC, id DESC) = rn` */
  ghost predicate RowNumber<K(!new), P(!new)>(t: seq<Entry<K, P>>, e: Entry<K, P>, rn: nat) {
    0 < rn <= |Ranked(t, e.key)| && Ranked(t, e.key)[rn - 1] == e
  }

  lemma {:induction false} PartitionRows<K(!new), P(!new)>(t: seq<Entry<K, P>>, key: K)
    ensures forall e :: e in Partition(t, key) <==> e in t && e.key == key
  {
    if t != [] {
      PartitionRows(t[..|t| - 1], key);
      assert t == t[..|t| - 1] + [t[|t| - 1]];
    }
  }

  lemma {:induction false} CountLaterZero<K(!new), P(!new)>(t: seq<Entry<K, P>>, e: Entry<K, P>)
    ensures CountLater(t, e) == 0 <==> forall r :: r in t && r.key == e.key ==> !Later(r, e)
  {
    if t != [] {
      CountLaterZero(t[..|t| - 1], e);
      assert t == t[..|t| - 1] + [t[|t| - 1]];
    }
  }

  /** Inserting keeps the latest row in front. */
  lemma InsertHead<K(!new), P(!new)>(x: Entry<K, P>, s: seq<Entry<K, P>>)
    ensures Insert(x, s, NotEarlier) != []
    ensures Insert(x, s, NotEarlier)[0] == if s == [] || NotEarlier(x, s[0]) then x else s[0]
  {
  }

  lemma {:induction false} SortHead<K(!new), P(!new)>(s: seq<Entry<K, P>>) returns (head: Entry<K, P>)
    requires UniqueIds(s) && s != []
    ensures Sort(s, NotEarlier) != [] && Sort(s, NotEarlier)[0] == head
    ensures head in s
    ensures forall e :: e in s ==> NotEarlier(head, e)
  {
    assert s == [s[0]] + s[1..];
    if |s| == 1 {
      head := s[0];
      assert Sort(s[1..], NotEarlier) == [];
    } else {
      var second := SortHead(s[1..]);
      InsertHead(s[0], Sort(s[1..], NotEarlier));
      LaterTotal(s[0], second);
      head := if NotEarlier(s[0], second) then s[0] else second;
      forall e | e in s[1..] ensures NotEarlier(head, e) {
        assert NotEarlier(second, e);
        LaterTransitive(s[0], second, e);
      }
    }
  }

  lemma {:induction false} PartitionUniqueIds<K(!new), P(!new)>(t: seq<Entry<K, P>>, key: K)
    requires UniqueIds(t)
    ensures UniqueIds(Partition(t, key))
  {
    if t != [] {
      PartitionUniqueIds(t[..|t| - 1], key);
      PartitionRows(t[..|t| - 1], key);
    }
  }

  /** All the forms pick the same row, for every table with unique ids. */
  lemma LatestFormsAgree<K(!new), P(!new)>(t: seq<Entry<K, P>>, e: Entry<K, P>)
    requires UniqueIds(t)
    ensures AntiJoin(t, e) <==> RowNumber(t, e, 1)
    ensures AntiJoin(t, e) <==> LimitOne(t, e.key) == Some(e)
    ensures AntiJoin(t, e) <==> LatestOf(t, e.key) == Some(e)
  {
    CountLaterZero(t, e);
    PartitionRows(t, e.key);
    PartitionUniqueIds(t, e.key);
    LatestOfIsLatest(t, e.key);
    SortLength(Partition(t, e.key), NotEarlier);
    if Partition(t, e.key) != [] {
      var head := SortHead(Partition(t, e.key));
      FormsAgreeOn(t, e, head);
    } else {
      assert !(e in t);
    }
  }

  lemma FormsAgreeOn<K(!new), P(!new)>(t: seq<Entry<K, P>>, e: Entry<K, P>, head: Entry<K, P>)
    requires UniqueIds(t) && Ranked(t, e.key) != [] && Ranked(t, e.key)[0] == head
    requires IsLatest(t, e.key, head)
    requires CountLater(t, e) == 0 <==> forall r :: r in t && r.key == e.key ==> !Later(r, e)
    ensures AntiJoin(t, e) <==> RowNumber(t, e, 1)
    ensures AntiJoin(t, e) <==> LimitOne(t, e.key) == Some(e)
    ensures AntiJoin(t, e) <==> LatestOf(t, e.key) == Some(e)
  {
    LatestUnique(t, e.key, head);
    if e == head {
      forall r | r in t && r.key == e.key ensures !Later(r, e) {
        LaterAsymmetric(r, e);
      }
    }
  }

  /** The anti-join keeps exactly one row per key that occurs. */
  lemma AntiJoinOnePerKey<K(!new), P(!new)>(t: seq<Entry<K, P>>, key: K)
    requires UniqueIds(t) && HasKey(t, key)
    ensures exists e :: AntiJoin(t, e) && e.key == key
    ensures forall e, f :: AntiJoin(t, e) && AntiJoin(t, f) && e.key == key && f.key == key ==> e == f
  {
    LatestOfIsLatest(t, key);
    LatestFormsAgree(t, LatestOf(t, key).value);
    forall e, f | AntiJoin(t, e) && AntiJoin(t, f) && e.key == key && f.key == key ensures e == f {
      LatestFormsAgree(t, e);
      LatestFormsAgree(t, f);
    }
  }

  // ---------- appending ----------

  /** An appended row becomes the latest of its key exactly when its stamp is not below the current
      latest one: with a clock that never steps back, always. The other keys do not move. */
  lemma AppendedIsLatest<K(!new), P(!new)>(t: seq<Entry<K, P>>, e: Entry<K, P>)
    requires forall r :: r in t ==> r.id < e.id
    ensures LatestOf(t + [e], e.key) == Some(e) <==>
      LatestOf(t, e.key).None? || AtMost(LatestOf(t, e.key).value.stamp, e.stamp)
    ensures forall key :: key != e.key ==> LatestOf(t + [e], key) == LatestOf(t, key)
  {
    assert (t + [e])[..|t|] == t;
    LatestOfIn(t, e.key);
  }

  lemma {:induction false} LatestOfIn<K(!new), P(!new)>(t: seq<Entry<K, P>>, key: K)
    ensures LatestOf(t, key).Some? ==> LatestOf(t, key).value in t && LatestOf(t, key).value.key == key
    ensures LatestOf(t, key).None? ==> !HasKey(t, key)
  {
    if t != [] {
      LatestOfIn(t[..|t| - 1], key);
      assert t == t[..|t| - 1] + [t[|t| - 1]];
    }
  }
}
