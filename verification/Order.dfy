/** Total orders shared by the other modules: Python's `str` order (which is also SQLite's BINARY collation on
    UTF-8 text, since both compare code points), a sort for any total order, and the fact that a
    strictly ascending sequence is determined by its elements, so that two orderings of one set of rows are the
    same list. */
module Order {

  // ---------- lexicographic order of strings ----------

  predicate Below(a: string, b: string) {
    b != [] && (a == [] || a[0] < b[0] || (a[0] == b[0] && Below(a[1..], b[1..])))
  }

  predicate AtMost(a: string, b: string) {
    a == b || Below(a, b)
  }

  /** `a` comes before `b` when it is a proper start of it, or has the smaller character at the first difference. */
  lemma {:induction false} BelowMeans(a: string, b: string)
    ensures Below(a, b) <==>
      exists k :: 0 <= k <= |a| && k < |b| && a[..k] == b[..k] && (k == |a| || a[k] < b[k])
  {
    if a == [] || b == [] || a[0] != b[0] {
      if b != [] {
        assert a[..0] == b[..0];
      }
    } else {
      BelowMeans(a[1..], b[1..]);
      if Below(a[1..], b[1..]) {
        var k :| 0 <= k <= |a[1..]| && k < |b[1..]| && a[1..][..k] == b[1..][..k]
          && (k == |a[1..]| || a[1..][k] < b[1..][k]);
        assert a[..k + 1] == [a[0]] + a[1..][..k] && b[..k + 1] == [b[0]] + b[1..][..k];
      }
      if k :| 0 <= k <= |a| && k < |b| && a[..k] == b[..k] && (k == |a| || a[k] < b[k]) {
        assert k > 0;
        assert a[1..][..k - 1] == a[..k][1..] && b[1..][..k - 1] == b[..k][1..];
      }
    }
  }

  lemma {:induction false} BelowIrreflexive(a: string)
    ensures !Below(a, a)
  {
    if a != [] {
      BelowIrreflexive(a[1..]);
    }
  }

  lemma {:induction false} BelowTransitive(a: string, b: string, c: string)
    requires Below(a, b) && Below(b, c)
    ensures Below(a, c)
  {
    if a != [] && a[0] == b[0] && b[0] == c[0] {
      BelowTransitive(a[1..], b[1..], c[1..]);
    }
  }

  lemma {:induction false} BelowTotal(a: string, b: string)
    ensures a == b || Below(a, b) || Below(b, a)
  {
    if a != [] && b != [] && a[0] == b[0] {
      BelowTotal(a[1..], b[1..]);
      assert a == [a[0]] + a[1..] && b == [b[0]] + b[1..];
    }
  }

  lemma BelowIsStrictTotal()
    ensures StrictTotal(Below)
  {
    forall a: string ensures !Below(a, a) { BelowIrreflexive(a); }
    forall a: string, b: string, c: string | Below(a, b) && Below(b, c) ensures Below(a, c) {
      BelowTransitive(a, b, c);
    }
    forall a: string, b: string ensures a == b || Below(a, b) || Below(b, a) { BelowTotal(a, b); }
  }

  /** `s[:n]`, which Python does not refuse on a shorter string. */
  function Prefix(s: string, n: nat): string {
    if |s| < n then s else s[..n]
  }

  lemma PrefixIs(s: string, n: nat)
    ensures Prefix(s, n) <= s && |Prefix(s, n)| == if n <= |s| then n else |s|
  {
  }

  lemma PrefixStep(s: string, n: nat)
    requires s != [] && n > 0
    ensures Prefix(s, n) != [] && Prefix(s, n)[0] == s[0] && Prefix(s, n)[1..] == Prefix(s[1..], n - 1)
  {
  }

  lemma ConsInjective(a: string, b: string)
    requires a != [] && b != [] && a[0] == b[0] && a[1..] == b[1..]
    ensures a == b
  {
    assert a == [a[0]] + a[1..] && b == [b[0]] + b[1..];
  }

  /** Cutting two strings at the same length never inverts them. */
  lemma {:induction false} PrefixMonotone(a: string, b: string, n: nat)
    requires AtMost(a, b)
    ensures AtMost(Prefix(a, n), Prefix(b, n))
  {
    if n == 0 || a == b {
      assert Prefix(a, n) == Prefix(b, n);
    } else if a == [] {
      PrefixStep(b, n);
    } else {
      PrefixStep(a, n);
      PrefixStep(b, n);
      if a[0] == b[0] {
        PrefixMonotone(a[1..], b[1..], n - 1);
        AtMostCons(Prefix(a, n), Prefix(b, n));
      }
    }
  }

  lemma AtMostCons(a: string, b: string)
    requires a != [] && b != [] && a[0] == b[0] && AtMost(a[1..], b[1..])
    ensures AtMost(a, b)
  {
    if a[1..] == b[1..] {
      ConsInjective(a, b);
    }
  }

  lemma AtMostAntisymmetric(a: string, b: string)
    ensures AtMost(a, b) && AtMost(b, a) ==> a == b
  {
    if Below(a, b) && Below(b, a) {
      BelowTransitive(a, b, a);
      BelowIrreflexive(a);
    }
  }

  /** A stamp sorts before a date exactly when its own date does. */
  lemma {:induction false} BelowDate(s: string, date: string)
    ensures Below(s, date) <==> Below(Prefix(s, |date|), date)
  {
    if s != [] && date != [] && s[0] == date[0] {
      BelowDate(s[1..], date[1..]);
      assert Prefix(s, |date|)[1..] == Prefix(s[1..], |date[1..]|);
    }
  }

  // ---------- relations ----------

  ghost predicate StrictTotal<T(!new)>(lt: (T, T) -> bool) {
    && (forall a :: !lt(a, a))
    && (forall a, b, c :: lt(a, b) && lt(b, c) ==> lt(a, c))
    && (forall a, b :: a == b || lt(a, b) || lt(b, a))
  }

  ghost predicate TotalPreorder<T(!new)>(leq: (T, T) -> bool) {
    && (forall a, b :: leq(a, b) || leq(b, a))
    && (forall a, b, c :: leq(a, b) && leq(b, c) ==> leq(a, c))
  }

  ghost predicate Sorted<T(!new)>(s: seq<T>, leq: (T, T) -> bool) {
    forall i, j :: 0 <= i < j < |s| ==> leq(s[i], s[j])
  }

  ghost predicate Distinct<T(!new)>(s: seq<T>) {
    forall i, j :: 0 <= i < j < |s| ==> s[i] != s[j]
  }

  lemma AtMostIsTotal()
    ensures TotalPreorder(AtMost)
  {
    BelowIsStrictTotal();
  }

  // ---------- sorting ----------

  function Insert<T>(x: T, s: seq<T>, leq: (T, T) -> bool): (r: seq<T>)
    ensures multiset(r) == multiset(s) + multiset{x}
  {
    if s == [] || leq(x, s[0]) then
      assert [x] + s == [x] + s;
      [x] + s
    else
      assert s == [s[0]] + s[1..];
      [s[0]] + Insert(x, s[1..], leq)
  }

  /** `sorted(s)` and `ORDER BY`: the same rows, in order. */
  function Sort<T>(s: seq<T>, leq: (T, T) -> bool): (r: seq<T>)
    ensures multiset(r) == multiset(s)
  {
    if s == [] then []
    else
      assert s == [s[0]] + s[1..];
      Insert(s[0], Sort(s[1..], leq), leq)
  }

  lemma {:induction false} InsertSorted<T(!new)>(x: T, s: seq<T>, leq: (T, T) -> bool)
    requires TotalPreorder(leq) && Sorted(s, leq)
    ensures Sorted(Insert(x, s, leq), leq)
  {
    if s != [] && !leq(x, s[0]) {
      InsertSorted(x, s[1..], leq);
      var rest := Insert(x, s[1..], leq);
      forall j | 0 <= j < |rest| ensures leq(s[0], rest[j]) {
        assert rest[j] in multiset(rest);
        assert rest[j] == x || rest[j] in multiset(s[1..]);
      }
    }
  }

  lemma {:induction false} SortSorted<T(!new)>(s: seq<T>, leq: (T, T) -> bool)
    requires TotalPreorder(leq)
    ensures Sorted(Sort(s, leq), leq)
  {
    if s != [] {
      SortSorted(s[1..], leq);
      InsertSorted(s[0], Sort(s[1..], leq), leq);
    }
  }

  lemma SortLength<T>(s: seq<T>, leq: (T, T) -> bool)
    ensures |Sort(s, leq)| == |s|
  {
    assert |multiset(Sort(s, leq))| == |multiset(s)|;
  }

  lemma SameElements<T>(a: seq<T>, b: seq<T>)
    requires multiset(a) == multiset(b)
    ensures |a| == |b|
    ensures forall x :: x in a <==> x in b
  {
    assert |multiset(a)| == |multiset(b)|;
    forall x ensures x in a <==> x in b {
      assert x in a <==> x in multiset(a);
      assert x in b <==> x in multiset(b);
    }
  }

  /** The elements of a sequence without repetition are counted once each. */
  lemma {:induction false} DistinctMultiset<T(!new)>(s: seq<T>)
    requires Distinct(s)
    ensures multiset(s) == multiset(set x | x in s)
    ensures |s| == |set x | x in s|
  {
    if s != [] {
      var t := s[..|s| - 1];
      var x := s[|s| - 1];
      DistinctMultiset(t);
      assert s == t + [x];
      assert (set y | y in s) == (set y | y in t) + {x};
      assert x !in t;
    }
  }

  lemma SameDistinctElements<T(!new)>(a: seq<T>, b: seq<T>)
    requires Distinct(a) && Distinct(b) && forall x :: x in a <==> x in b
    ensures multiset(a) == multiset(b)
  {
    DistinctMultiset(a);
    DistinctMultiset(b);
    assert (set x | x in a) == (set x | x in b);
  }

  lemma CountedTwice<T(!new)>(s: seq<T>, i: nat, j: nat)
    requires i < j < |s|
    ensures s[i] == s[j] ==> multiset(s)[s[i]] >= 2
  {
    assert s == s[..i] + [s[i]] + s[i + 1..j] + [s[j]] + s[j + 1..];
  }

  lemma MultisetDistinct<T(!new)>(a: seq<T>, b: seq<T>)
    requires multiset(a) == multiset(b) && Distinct(a)
    ensures Distinct(b)
  {
    DistinctMultiset(a);
    forall i, j | 0 <= i < j < |b| ensures b[i] != b[j] {
      CountedTwice(b, i, j);
    }
  }

  // ---------- a strictly ascending sequence is its set of elements ----------

  ghost predicate Ascending<T(!new)>(s: seq<T>, lt: (T, T) -> bool) {
    forall i, j :: 0 <= i < j < |s| ==> lt(s[i], s[j])
  }

  lemma Inhabited<T(!new)>(s: seq<T>)
    ensures s != [] ==> exists x :: x in s
  {
    if s != [] {
      assert s[0] in s;
    }
  }

  lemma {:induction false} AscendingUnique<T(!new)>(a: seq<T>, b: seq<T>, lt: (T, T) -> bool)
    requires forall x :: !lt(x, x)
    requires forall x, y :: !(lt(x, y) && lt(y, x))
    requires Ascending(a, lt) && Ascending(b, lt)
    requires forall x :: x in a <==> x in b
    ensures a == b
  {
    if a == [] {
      Inhabited(b);
    } else {
      assert a[0] in a && a[0] in b;
      assert b[0] in b && b[0] in a;
      assert a[0] == b[0];
      forall x ensures x in a[1..] <==> x in b[1..] {
        if x in a[1..] { assert lt(a[0], x) && x in b; }
        if x in b[1..] { assert lt(b[0], x) && x in a; }
      }
      AscendingUnique(a[1..], b[1..], lt);
      assert a == [a[0]] + a[1..] && b == [b[0]] + b[1..];
    }
  }

  lemma AscendingIsSet<T(!new)>(a: seq<T>, b: seq<T>, lt: (T, T) -> bool)
    requires StrictTotal(lt) && Ascending(a, lt) && Ascending(b, lt)
    requires forall x :: x in a <==> x in b
    ensures a == b
  {
    AscendingUnique(a, b, lt);
  }

  /** Every finite set can be listed in ascending order. */
  lemma {:induction false} AscendingExists<T(!new)>(rows: set<T>, lt: (T, T) -> bool) returns (s: seq<T>)
    requires StrictTotal(lt)
    ensures Ascending(s, lt) && forall x :: x in s <==> x in rows
    decreases |rows|
  {
    if rows == {} {
      s := [];
    } else {
      var h :| h in rows;
      var t := AscendingExists(rows - {h}, lt);
      var k := 0;
      while k < |t| && lt(t[k], h)
        invariant 0 <= k <= |t| && forall i :: 0 <= i < k ==> lt(t[i], h)
      {
        k := k + 1;
      }
      s := AscendingInsert(t, h, k, lt);
    }
  }

  lemma AscendingInsert<T(!new)>(t: seq<T>, h: T, k: nat, lt: (T, T) -> bool) returns (s: seq<T>)
    requires StrictTotal(lt) && Ascending(t, lt) && h !in t && k <= |t|
    requires forall i :: 0 <= i < k ==> lt(t[i], h)
    requires k < |t| ==> !lt(t[k], h)
    ensures Ascending(s, lt) && forall x :: x in s <==> x in t || x == h
  {
    s := t[..k] + [h] + t[k..];
    forall i | k <= i < |t| ensures lt(h, t[i]) {
      assert t[k] in t && lt(h, t[k]);
    }
    forall i, j | 0 <= i < j < |s| ensures lt(s[i], s[j]) {
      assert s[i] == if i < k then t[i] else if i == k then h else t[i - 1];
      assert s[j] == if j < k then t[j] else if j == k then h else t[j - 1];
    }
    assert t == t[..k] + t[k..];
  }

  // ---------- list comprehensions ----------

  /** `[x for x in s if p(x)]` */
  function Filter<T(!new)>(s: seq<T>, p: T -> bool): (r: seq<T>)
    ensures forall x :: x in r <==> x in s && p(x)
    ensures |r| <= |s|
  {
    if s == [] then []
    else
      assert s == s[..|s| - 1] + [s[|s| - 1]];
      Filter(s[..|s| - 1], p) + (if p(s[|s| - 1]) then [s[|s| - 1]] else [])
  }

  lemma {:induction false} FilterDistinct<T(!new)>(s: seq<T>, p: T -> bool)
    requires Distinct(s)
    ensures Distinct(Filter(s, p))
  {
    if s != [] {
      FilterDistinct(s[..|s| - 1], p);
      var last := s[|s| - 1];
      assert last !in s[..|s| - 1];
    }
  }
}
