/** Daily rollups of observations (domain/retention/buckets.py). */
module Buckets {
  import Json
  import opened Order

  type Hash = string

  const DAY_WIDTH := 10

  /** `rest` stands for the columns the rollup ignores. */
  datatype Observation = Observation(
    hash: Hash, node: string, filename: string, sources: int, complete: int, observedAt: string, rest: string)

  datatype Bucket = Bucket(
    hash: Hash, day: string, filenames: string, nodes: string, count: nat,
    first: string, last: string,
    sourcesMin: int, sourcesMax: int, sourcesSum: int,
    completeMin: int, completeMax: int, completeSum: int)

  datatype GroupKey = GroupKey(hash: Hash, day: string)

  /** `(row.ed2k_hash, row.observed_at[:10])` */
  function KeyOf(o: Observation): GroupKey { GroupKey(o.hash, Prefix(o.observedAt, DAY_WIDTH)) }

  function BucketKey(b: Bucket): GroupKey { GroupKey(b.hash, b.day) }

  // ---------- canonical lists ----------

  /** Drops repetitions from a sorted list. */
  function Squeeze(s: seq<string>): seq<string> {
    if |s| <= 1 then s
    else if s[0] == s[1] then Squeeze(s[1..])
    else [s[0]] + Squeeze(s[1..])
  }

  /** `sorted(set(values))` */
  function SortedSet(values: seq<string>): seq<string> { Squeeze(Sort(values, AtMost)) }

  lemma {:induction false} SqueezeKeeps(s: seq<string>)
    requires Sorted(s, AtMost)
    ensures forall x :: x in Squeeze(s) <==> x in s
    ensures Ascending(Squeeze(s), Below)
    ensures s != [] ==> Squeeze(s) != [] && Squeeze(s)[0] == s[0]
  {
    if |s| > 1 {
      SqueezeKeeps(s[1..]);
      assert s == [s[0]] + s[1..];
      var rest := Squeeze(s[1..]);
      if s[0] != s[1] {
        forall j | 0 <= j < |rest| ensures Below(s[0], rest[j]) {
          assert rest[j] in s[1..];
          if j > 0 {
            assert Below(rest[0], rest[j]) && rest[0] == s[1];
            BelowTransitive(s[0], s[1], rest[j]);
          }
        }
      }
    }
  }

  lemma SortedSetIs(values: seq<string>)
    ensures forall x :: x in SortedSet(values) <==> x in values
    ensures Ascending(SortedSet(values), Below)
  {
    AtMostIsTotal();
    SortSorted(values, AtMost);
    SameElements(values, Sort(values, AtMost));
    SqueezeKeeps(Sort(values, AtMost));
  }

  lemma SameSetSameList(a: seq<string>, b: seq<string>)
    ensures SortedSet(a) == SortedSet(b) <==> forall x :: x in a <==> x in b
  {
    SortedSetIs(a);
    SortedSetIs(b);
    if forall x :: x in a <==> x in b {
      BelowIsStrictTotal();
      AscendingIsSet(SortedSet(a), SortedSet(b), Below);
    }
    if SortedSet(a) == SortedSet(b) {
      forall x ensures x in a <==> x in b {
        assert x in SortedSet(a) <==> x in SortedSet(b);
      }
    }
  }

  /** `_json_sorted_set` */
  function JsonSortedSet(values: seq<string>): string { Json.Dumps(SortedSet(values)) }

  /** Equal sets have the same text, and only equal sets do. */
  lemma SortedSetCanonical(a: seq<string>, b: seq<string>)
    ensures JsonSortedSet(a) == JsonSortedSet(b) <==> forall x :: x in a <==> x in b
  {
    SameSetSameList(a, b);
    if JsonSortedSet(a) == JsonSortedSet(b) {
      Json.DumpsInjective(SortedSet(a), SortedSet(b));
    }
  }

  /** The text is an array with `x` among its items. */
  ghost predicate Lists(text: string, x: string) {
    exists values :: text == Json.Dumps(values) && x in values
  }

  lemma JsonSortedSetLists(values: seq<string>, x: string)
    ensures Lists(JsonSortedSet(values), x) <==> x in values
  {
    SortedSetIs(values);
    if Lists(JsonSortedSet(values), x) {
      var listed :| JsonSortedSet(values) == Json.Dumps(listed) && x in listed;
      Json.DumpsInjective(SortedSet(values), listed);
    }
  }

  // ---------- columns and their aggregates ----------

  function FilenameOf(o: Observation): string { o.filename }

  function NodeOf(o: Observation): string { o.node }

  function SourcesOf(o: Observation): int { o.sources }

  function CompleteOf(o: Observation): int { o.complete }

  function StampOf(o: Observation): string { o.observedAt }

  /** `[f(row) for row in group]` */
  function Column<T>(g: seq<Observation>, f: Observation -> T): (r: seq<T>)
    ensures |r| == |g| && forall i :: 0 <= i < |g| ==> r[i] == f(g[i])
  {
    seq(|g|, i requires 0 <= i < |g| => f(g[i]))
  }

  function Sum(s: seq<int>): int {
    if s == [] then 0 else Sum(s[..|s| - 1]) + s[|s| - 1]
  }

  function Least(s: seq<int>): int
    requires s != []
  {
    if |s| == 1 then s[0] else if s[|s| - 1] < Least(s[..|s| - 1]) then s[|s| - 1] else Least(s[..|s| - 1])
  }

  function Greatest(s: seq<int>): int
    requires s != []
  {
    if |s| == 1 then s[0] else if s[|s| - 1] > Greatest(s[..|s| - 1]) then s[|s| - 1] else Greatest(s[..|s| - 1])
  }

  function FirstStamp(s: seq<string>): string
    requires s != []
  {
    if |s| == 1 then s[0]
    else if Below(s[|s| - 1], FirstStamp(s[..|s| - 1])) then s[|s| - 1] else FirstStamp(s[..|s| - 1])
  }

  function LastStamp(s: seq<string>): string
    requires s != []
  {
    if |s| == 1 then s[0]
    else if Below(LastStamp(s[..|s| - 1]), s[|s| - 1]) then s[|s| - 1] else LastStamp(s[..|s| - 1])
  }

  /** One bucket per group; hash and day are those of the group's key. */
  function Aggregate(g: seq<Observation>): Bucket
    requires g != []
  {
    Bucket(
      KeyOf(g[0]).hash, KeyOf(g[0]).day, JsonSortedSet(Column(g, FilenameOf)), JsonSortedSet(Column(g, NodeOf)), |g|,
      FirstStamp(Column(g, StampOf)), LastStamp(Column(g, StampOf)),
      Least(Column(g, SourcesOf)), Greatest(Column(g, SourcesOf)), Sum(Column(g, SourcesOf)),
      Least(Column(g, CompleteOf)), Greatest(Column(g, CompleteOf)), Sum(Column(g, CompleteOf)))
  }

  lemma {:induction false} ExtremesBound(s: seq<int>)
    requires s != []
    ensures Least(s) in s && Greatest(s) in s
    ensures forall x :: x in s ==> Least(s) <= x <= Greatest(s)
  {
    if |s| > 1 {
      var front, last := s[..|s| - 1], s[|s| - 1];
      assert s == front + [last];
      ExtremesBound(front);
    }
  }

  lemma OneMore(n: nat, x: int)
    ensures (n + 1) * x == n * x + x
  {
  }

  lemma {:induction false} SumBetween(s: seq<int>, low: int, high: int)
    requires forall x :: x in s ==> low <= x <= high
    ensures |s| * low <= Sum(s) <= |s| * high
  {
    if s != [] {
      var front := s[..|s| - 1];
      assert s == front + [s[|s| - 1]] && s[|s| - 1] in s;
      assert forall x :: x in front ==> x in s;
      SumBetween(front, low, high);
      OneMore(|front|, low);
      OneMore(|front|, high);
    }
  }

  lemma {:induction false} StampExtremes(s: seq<string>)
    requires s != []
    ensures FirstStamp(s) in s && LastStamp(s) in s
    ensures forall x :: x in s ==> AtMost(FirstStamp(s), x) && AtMost(x, LastStamp(s))
  {
    var front, last := s[..|s| - 1], s[|s| - 1];
    assert s == front + [last];
    if |s| > 1 {
      StampExtremes(front);
      BelowTotal(last, FirstStamp(front));
      BelowTotal(last, LastStamp(front));
      forall x | x in front ensures AtMost(FirstStamp(s), x) && AtMost(x, LastStamp(s)) {
        BelowIsStrictTotal();
      }
    }
  }

  lemma FilenamesAre(g: seq<Observation>, x: string)
    ensures x in Column(g, FilenameOf) <==> exists i :: 0 <= i < |g| && g[i].filename == x
  {
    forall i | 0 <= i < |g| ensures Column(g, FilenameOf)[i] == g[i].filename { }
  }

  lemma NodesAre(g: seq<Observation>, x: string)
    ensures x in Column(g, NodeOf) <==> exists i :: 0 <= i < |g| && g[i].node == x
  {
    forall i | 0 <= i < |g| ensures Column(g, NodeOf)[i] == g[i].node { }
  }

  /** A bucket's names and nodes are exactly those of its rows. */
  lemma AggregateSets(g: seq<Observation>, x: string)
    requires g != []
    ensures Lists(Aggregate(g).filenames, x) <==> exists i :: 0 <= i < |g| && g[i].filename == x
    ensures Lists(Aggregate(g).nodes, x) <==> exists i :: 0 <= i < |g| && g[i].node == x
  {
    FilenamesAre(g, x);
    NodesAre(g, x);
    JsonSortedSetLists(Column(g, FilenameOf), x);
    JsonSortedSetLists(Column(g, NodeOf), x);
  }

  lemma NumberBounds(g: seq<Observation>, f: Observation -> int, i: nat)
    requires i < |g|
    ensures Least(Column(g, f)) <= f(g[i]) <= Greatest(Column(g, f))
  {
    ExtremesBound(Column(g, f));
    assert Column(g, f)[i] in Column(g, f);
  }

  /** Both extremes are taken from rows. */
  lemma NumberAttained(g: seq<Observation>, f: Observation -> int)
    requires g != []
    ensures exists i :: 0 <= i < |g| && f(g[i]) == Least(Column(g, f))
    ensures exists i :: 0 <= i < |g| && f(g[i]) == Greatest(Column(g, f))
  {
    var column := Column(g, f);
    ExtremesBound(column);
    var low :| 0 <= low < |g| && column[low] == Least(column);
    var high :| 0 <= high < |g| && column[high] == Greatest(column);
    assert f(g[low]) == Least(column) && f(g[high]) == Greatest(column);
  }

  lemma StampBounds(g: seq<Observation>, i: nat)
    requires i < |g|
    ensures AtMost(FirstStamp(Column(g, StampOf)), g[i].observedAt)
    ensures AtMost(g[i].observedAt, LastStamp(Column(g, StampOf)))
    ensures exists j :: 0 <= j < |g| && g[j].observedAt == FirstStamp(Column(g, StampOf))
    ensures exists j :: 0 <= j < |g| && g[j].observedAt == LastStamp(Column(g, StampOf))
  {
    var column := Column(g, StampOf);
    StampExtremes(column);
    assert column[i] == g[i].observedAt && column[i] in column;
    var first :| 0 <= first < |g| && column[first] == FirstStamp(column);
    var last :| 0 <= last < |g| && column[last] == LastStamp(column);
    assert g[first].observedAt == FirstStamp(column) && g[last].observedAt == LastStamp(column);
  }

  /** The six extremes of a bucket are those of rows of the group. */
  ghost predicate Attained(g: seq<Observation>, b: Bucket) {
    && (exists j :: 0 <= j < |g| && g[j].observedAt == b.first)
    && (exists j :: 0 <= j < |g| && g[j].observedAt == b.last)
    && (exists j :: 0 <= j < |g| && g[j].sources == b.sourcesMin)
    && (exists j :: 0 <= j < |g| && g[j].sources == b.sourcesMax)
    && (exists j :: 0 <= j < |g| && g[j].complete == b.completeMin)
    && (exists j :: 0 <= j < |g| && g[j].complete == b.completeMax)
  }

  /** Its extremes bound every row, and each is that of some row. */
  lemma AggregateExtremes(g: seq<Observation>, i: nat)
    requires i < |g|
    ensures
      var b := Aggregate(g);
      && AtMost(b.first, g[i].observedAt) && AtMost(g[i].observedAt, b.last)
      && b.sourcesMin <= g[i].sources <= b.sourcesMax
      && b.completeMin <= g[i].complete <= b.completeMax
    ensures Attained(g, Aggregate(g))
  {
    NumberBounds(g, SourcesOf, i);
    NumberBounds(g, CompleteOf, i);
    StampBounds(g, i);
    SourcesAttained(g);
    CompletesAttained(g);
  }

  lemma SourcesAttained(g: seq<Observation>)
    requires g != []
    ensures exists j :: 0 <= j < |g| && g[j].sources == Least(Column(g, SourcesOf))
    ensures exists j :: 0 <= j < |g| && g[j].sources == Greatest(Column(g, SourcesOf))
  {
    NumberAttained(g, SourcesOf);
    var low :| 0 <= low < |g| && SourcesOf(g[low]) == Least(Column(g, SourcesOf));
    var high :| 0 <= high < |g| && SourcesOf(g[high]) == Greatest(Column(g, SourcesOf));
    assert g[low].sources == Least(Column(g, SourcesOf)) && g[high].sources == Greatest(Column(g, SourcesOf));
  }

  lemma CompletesAttained(g: seq<Observation>)
    requires g != []
    ensures exists j :: 0 <= j < |g| && g[j].complete == Least(Column(g, CompleteOf))
    ensures exists j :: 0 <= j < |g| && g[j].complete == Greatest(Column(g, CompleteOf))
  {
    NumberAttained(g, CompleteOf);
    var low :| 0 <= low < |g| && CompleteOf(g[low]) == Least(Column(g, CompleteOf));
    var high :| 0 <= high < |g| && CompleteOf(g[high]) == Greatest(Column(g, CompleteOf));
    assert g[low].complete == Least(Column(g, CompleteOf)) && g[high].complete == Greatest(Column(g, CompleteOf));
  }

  /** The sums and the count of a bucket, row by row. */
  lemma AggregateSums(g: seq<Observation>, o: Observation)
    ensures Aggregate([o]).count == 1
    ensures Aggregate([o]).sourcesSum == o.sources && Aggregate([o]).completeSum == o.complete
    ensures g != [] ==>
      && Aggregate(g + [o]).count == Aggregate(g).count + 1
      && Aggregate(g + [o]).sourcesSum == Aggregate(g).sourcesSum + o.sources
      && Aggregate(g + [o]).completeSum == Aggregate(g).completeSum + o.complete
  {
    SourcesSnoc([], o);
    SourcesSnoc(g, o);
    assert [] + [o] == [o];
  }

  lemma SourcesSnoc(g: seq<Observation>, o: Observation)
    ensures Sum(Column([], SourcesOf)) == 0 && Sum(Column([], CompleteOf)) == 0
    ensures Sum(Column(g + [o], SourcesOf)) == Sum(Column(g, SourcesOf)) + o.sources
    ensures Sum(Column(g + [o], CompleteOf)) == Sum(Column(g, CompleteOf)) + o.complete
  {
    SumSnoc(Column(g, SourcesOf), o.sources);
    SumSnoc(Column(g, CompleteOf), o.complete);
    assert Column(g + [o], SourcesOf) == Column(g, SourcesOf) + [o.sources];
    assert Column(g + [o], CompleteOf) == Column(g, CompleteOf) + [o.complete];
  }

  lemma SumSnoc(s: seq<int>, x: int)
    ensures Sum([]) == 0 && Sum(s + [x]) == Sum(s) + x
  {
    assert (s + [x])[..|s|] == s;
  }

  /** Within a bucket: `count * min <= sum <= count * max` for both counts, and the stamps of its
      day in order. */
  lemma AggregateBounds(g: seq<Observation>)
    requires g != [] && forall i :: 0 <= i < |g| ==> KeyOf(g[i]) == KeyOf(g[0])
    ensures
      var b := Aggregate(g);
      && b.count * b.sourcesMin <= b.sourcesSum <= b.count * b.sourcesMax
      && b.count * b.completeMin <= b.completeSum <= b.count * b.completeMax
      && AtMost(b.first, b.last)
      && Prefix(b.first, DAY_WIDTH) == b.day && Prefix(b.last, DAY_WIDTH) == b.day
  {
    ExtremesBound(Column(g, SourcesOf));
    ExtremesBound(Column(g, CompleteOf));
    SumBetween(Column(g, SourcesOf), Least(Column(g, SourcesOf)), Greatest(Column(g, SourcesOf)));
    SumBetween(Column(g, CompleteOf), Least(Column(g, CompleteOf)), Greatest(Column(g, CompleteOf)));
    StampExtremes(Column(g, StampOf));
    var i :| 0 <= i < |g| && Column(g, StampOf)[i] == FirstStamp(Column(g, StampOf));
    var j :| 0 <= j < |g| && Column(g, StampOf)[j] == LastStamp(Column(g, StampOf));
    assert KeyOf(g[i]) == KeyOf(g[0]) && KeyOf(g[j]) == KeyOf(g[0]);
  }

  // ---------- the order of a group does not matter ----------

  function Without<T>(s: seq<T>, k: nat): (r: seq<T>)
    requires k < |s|
    ensures multiset(s) == multiset(r) + multiset{s[k]}
  {
    assert s == s[..k] + [s[k]] + s[k + 1..];
    s[..k] + s[k + 1..]
  }

  lemma LastRemoved<T>(a: seq<T>, b: seq<T>, k: nat)
    requires multiset(a) == multiset(b) && a != [] && k < |b| && b[k] == a[|a| - 1]
    ensures multiset(a[..|a| - 1]) == multiset(Without(b, k))
  {
    assert a == a[..|a| - 1] + [a[|a| - 1]];
    assert multiset(a[..|a| - 1]) == multiset(a) - multiset{b[k]};
    assert multiset(Without(b, k)) == multiset(b) - multiset{b[k]};
  }

  lemma ColumnSnoc<T>(a: seq<Observation>, f: Observation -> T)
    requires a != []
    ensures multiset(Column(a, f)) == multiset(Column(a[..|a| - 1], f)) + multiset{f(a[|a| - 1])}
  {
    assert Column(a, f) == Column(a[..|a| - 1], f) + [f(a[|a| - 1])];
  }

  lemma ColumnWithout<T>(b: seq<Observation>, k: nat, f: Observation -> T)
    requires k < |b|
    ensures multiset(Column(b, f)) == multiset(Column(Without(b, k), f)) + multiset{f(b[k])}
  {
    assert Column(Without(b, k), f) == Without(Column(b, f), k);
  }

  lemma {:induction false} ColumnPermutation<T>(a: seq<Observation>, b: seq<Observation>, f: Observation -> T)
    requires multiset(a) == multiset(b)
    ensures multiset(Column(a, f)) == multiset(Column(b, f))
    decreases |a|
  {
    SameElements(a, b);
    if a != [] {
      var n := |a| - 1;
      assert a[n] in b;
      var k :| 0 <= k < |b| && b[k] == a[n];
      LastRemoved(a, b, k);
      ColumnPermutation(a[..n], Without(b, k), f);
      ColumnSnoc(a, f);
      ColumnWithout(b, k, f);
    }
  }

  lemma {:induction false} SumConcat(a: seq<int>, b: seq<int>)
    ensures Sum(a + b) == Sum(a) + Sum(b)
  {
    if b == [] {
      assert a + b == a;
    } else {
      SumConcat(a, b[..|b| - 1]);
      assert (a + b)[..|a + b| - 1] == a + b[..|b| - 1];
    }
  }

  lemma SumWithout(s: seq<int>, k: nat)
    requires k < |s|
    ensures Sum(s) == Sum(s[..k] + s[k + 1..]) + s[k]
  {
    var front, back := s[..k], s[k + 1..];
    SumConcat(front, back);
    SumConcat(s[..k + 1], back);
    assert s == s[..k + 1] + back;
    assert s[..k + 1][..k] == front;
  }

  lemma {:induction false} SumPermutation(a: seq<int>, b: seq<int>)
    requires multiset(a) == multiset(b)
    ensures Sum(a) == Sum(b)
    decreases |a|
  {
    SameElements(a, b);
    if a != [] {
      var n := |a| - 1;
      assert a[n] in b;
      var k :| 0 <= k < |b| && b[k] == a[n];
      LastRemoved(a, b, k);
      SumPermutation(a[..n], Without(b, k));
      SumWithout(b, k);
    }
  }

  lemma ExtremesPermutation(a: seq<int>, b: seq<int>)
    requires a != [] && multiset(a) == multiset(b)
    ensures b != [] && Least(a) == Least(b) && Greatest(a) == Greatest(b)
  {
    SameElements(a, b);
    ExtremesBound(a);
    ExtremesBound(b);
  }

  lemma StampPermutation(a: seq<string>, b: seq<string>)
    requires a != [] && multiset(a) == multiset(b)
    ensures b != [] && FirstStamp(a) == FirstStamp(b) && LastStamp(a) == LastStamp(b)
  {
    SameElements(a, b);
    StampExtremes(a);
    StampExtremes(b);
    AtMostAntisymmetric(FirstStamp(a), FirstStamp(b));
    AtMostAntisymmetric(LastStamp(a), LastStamp(b));
  }

  /** A bucket depends only on which rows its group has. */
  lemma AggregatePermutation(a: seq<Observation>, b: seq<Observation>)
    requires a != [] && multiset(a) == multiset(b)
    requires forall i :: 0 <= i < |a| ==> KeyOf(a[i]) == KeyOf(a[0])
    ensures b != [] && Aggregate(a) == Aggregate(b)
  {
    SameElements(a, b);
    assert b[0] in a;
    ColumnPermutation(a, b, SourcesOf);
    ColumnPermutation(a, b, CompleteOf);
    ColumnPermutation(a, b, StampOf);
    ColumnPermutation(a, b, FilenameOf);
    ColumnPermutation(a, b, NodeOf);
    SumPermutation(Column(a, SourcesOf), Column(b, SourcesOf));
    SumPermutation(Column(a, CompleteOf), Column(b, CompleteOf));
    ExtremesPermutation(Column(a, SourcesOf), Column(b, SourcesOf));
    ExtremesPermutation(Column(a, CompleteOf), Column(b, CompleteOf));
    StampPermutation(Column(a, StampOf), Column(b, StampOf));
    SameElements(Column(a, FilenameOf), Column(b, FilenameOf));
    SameElements(Column(a, NodeOf), Column(b, NodeOf));
    SortedSetCanonical(Column(a, FilenameOf), Column(b, FilenameOf));
    SortedSetCanonical(Column(a, NodeOf), Column(b, NodeOf));
  }

  // ---------- the rollup of a list of rows ----------

  function Having(rows: seq<Observation>, k: GroupKey): seq<Observation> {
    if rows == [] then []
    else
      var o := rows[|rows| - 1];
      if KeyOf(o) == k then Having(rows[..|rows| - 1], k) + [o] else Having(rows[..|rows| - 1], k)
  }

  lemma {:induction false} HavingRows(rows: seq<Observation>, k: GroupKey)
    ensures forall o :: o in Having(rows, k) <==> o in rows && KeyOf(o) == k
  {
    if rows != [] {
      HavingRows(rows[..|rows| - 1], k);
      assert rows == rows[..|rows| - 1] + [rows[|rows| - 1]];
    }
  }

  /** One bucket per (hash, day) that occurs: the aggregate of the rows of that key. */
  ghost predicate IsRollup(rows: seq<Observation>, buckets: seq<Bucket>) {
    && (forall i, j :: 0 <= i < j < |buckets| ==> BucketKey(buckets[i]) != BucketKey(buckets[j]))
    && (forall i {:trigger IsBucketOf(rows, buckets[i])} :: 0 <= i < |buckets| ==> IsBucketOf(rows, buckets[i]))
    && (forall o {:trigger HasBucket(buckets, KeyOf(o))} :: o in rows ==> HasBucket(buckets, KeyOf(o)))
  }

  ghost predicate IsBucketOf(rows: seq<Observation>, b: Bucket) {
    Having(rows, BucketKey(b)) != [] && b == Aggregate(Having(rows, BucketKey(b)))
  }

  ghost predicate HasBucket(buckets: seq<Bucket>, k: GroupKey) {
    exists i :: 0 <= i < |buckets| && BucketKey(buckets[i]) == k
  }

  lemma {:induction false} HavingConcat(a: seq<Observation>, b: seq<Observation>, k: GroupKey)
    ensures Having(a + b, k) == Having(a, k) + Having(b, k)
  {
    if b == [] {
      assert a + b == a;
    } else {
      HavingConcat(a, b[..|b| - 1], k);
      assert (a + b)[..|a + b| - 1] == a + b[..|b| - 1];
    }
  }

  lemma {:induction false} HavingCounts(rows: seq<Observation>, k: GroupKey, o: Observation)
    ensures multiset(Having(rows, k))[o] == if KeyOf(o) == k then multiset(rows)[o] else 0
  {
    if rows != [] {
      assert rows == rows[..|rows| - 1] + [rows[|rows| - 1]];
      HavingCounts(rows[..|rows| - 1], k, o);
    }
  }

  lemma HavingPermutation(a: seq<Observation>, b: seq<Observation>, k: GroupKey)
    requires multiset(a) == multiset(b)
    ensures multiset(Having(a, k)) == multiset(Having(b, k))
  {
    forall o ensures multiset(Having(a, k))[o] == multiset(Having(b, k))[o] {
      HavingCounts(a, k, o);
      HavingCounts(b, k, o);
    }
  }

  lemma HavingOneKey(rows: seq<Observation>, k: GroupKey)
    ensures forall i :: 0 <= i < |Having(rows, k)| ==> KeyOf(Having(rows, k)[i]) == k
  {
    HavingRows(rows, k);
    forall i | 0 <= i < |Having(rows, k)| ensures KeyOf(Having(rows, k)[i]) == k {
      assert Having(rows, k)[i] in Having(rows, k);
    }
  }

  lemma BucketOfPermutation(a: seq<Observation>, b: seq<Observation>, x: Bucket)
    requires multiset(a) == multiset(b) && IsBucketOf(a, x)
    ensures IsBucketOf(b, x)
  {
    var k := BucketKey(x);
    HavingPermutation(a, b, k);
    HavingOneKey(a, k);
    AggregatePermutation(Having(a, k), Having(b, k));
  }

  /** The rollup, as a multiset of buckets, depends only on which rows there are. */
  lemma RollupUnique(a: seq<Observation>, as': seq<Bucket>, b: seq<Observation>, bs: seq<Bucket>)
    requires multiset(a) == multiset(b) && IsRollup(a, as') && IsRollup(b, bs)
    ensures multiset(as') == multiset(bs)
  {
    RollupIncluded(a, as', b, bs);
    RollupIncluded(b, bs, a, as');
    SameDistinctElements(as', bs);
  }

  lemma RollupIncluded(a: seq<Observation>, as': seq<Bucket>, b: seq<Observation>, bs: seq<Bucket>)
    requires multiset(a) == multiset(b) && IsRollup(a, as') && IsRollup(b, bs)
    ensures forall x :: x in as' ==> x in bs
    ensures Distinct(as')
  {
    SameElements(a, b);
    forall x | x in as' ensures x in bs {
      var i :| 0 <= i < |as'| && as'[i] == x;
      assert IsBucketOf(a, as'[i]);
      BucketOfPermutation(a, b, x);
      BucketHasRow(b, x);
      var o :| o in b && KeyOf(o) == BucketKey(x);
      assert HasBucket(bs, KeyOf(o));
      var j :| 0 <= j < |bs| && BucketKey(bs[j]) == BucketKey(x);
      assert IsBucketOf(b, bs[j]);
    }
  }

  ghost predicate SharesNoKey(a: seq<Observation>, b: seq<Observation>) {
    forall o, p :: o in a && p in b ==> KeyOf(o) != KeyOf(p)
  }

  lemma KeyOnOneSide(a: seq<Observation>, b: seq<Observation>, k: GroupKey)
    requires SharesNoKey(a, b)
    ensures Having(a, k) == [] || Having(b, k) == []
  {
    HavingRows(a, k);
    HavingRows(b, k);
    if Having(a, k) != [] {
      assert Having(a, k)[0] in a;
      NothingHas(b, k);
    }
  }

  /** Rows of other keys do not change a bucket. */
  lemma BucketOfMore(a: seq<Observation>, b: seq<Observation>, x: Bucket)
    requires SharesNoKey(a, b) && (IsBucketOf(a, x) || IsBucketOf(b, x))
    ensures IsBucketOf(a + b, x)
  {
    HavingConcat(a, b, BucketKey(x));
    KeyOnOneSide(a, b, BucketKey(x));
    assert Having(a, BucketKey(x)) + [] == Having(a, BucketKey(x));
    assert [] + Having(b, BucketKey(x)) == Having(b, BucketKey(x));
  }

  /** Rollups of rows that share no (hash, day) put together. */
  lemma RollupConcat(a: seq<Observation>, as': seq<Bucket>, b: seq<Observation>, bs: seq<Bucket>)
    requires IsRollup(a, as') && IsRollup(b, bs) && SharesNoKey(a, b)
    ensures IsRollup(a + b, as' + bs)
  {
    var all := as' + bs;
    forall i | 0 <= i < |all| ensures IsBucketOf(a + b, all[i]) {
      if i < |as'| {
        assert IsBucketOf(a, as'[i]);
      } else {
        assert IsBucketOf(b, bs[i - |as'|]);
      }
      BucketOfMore(a, b, all[i]);
    }
    forall i, j | 0 <= i < |as'| && 0 <= j < |bs| ensures BucketKey(as'[i]) != BucketKey(bs[j]) {
      BucketHasRow(a, as'[i]);
      BucketHasRow(b, bs[j]);
    }
    forall o | o in a + b ensures HasBucket(all, KeyOf(o)) {
      HasBucketConcat(as', bs, KeyOf(o));
    }
  }

  lemma HasBucketConcat(as': seq<Bucket>, bs: seq<Bucket>, k: GroupKey)
    ensures HasBucket(as', k) || HasBucket(bs, k) ==> HasBucket(as' + bs, k)
  {
    var all := as' + bs;
    if HasBucket(as', k) {
      var i :| 0 <= i < |as'| && BucketKey(as'[i]) == k;
      assert all[i] == as'[i];
    }
    if HasBucket(bs, k) {
      var i :| 0 <= i < |bs| && BucketKey(bs[i]) == k;
      assert all[|as'| + i] == bs[i];
    }
  }

  lemma NothingHas(rows: seq<Observation>, k: GroupKey)
    requires forall o :: o in rows ==> KeyOf(o) != k
    ensures Having(rows, k) == []
  {
    HavingRows(rows, k);
    Inhabited(Having(rows, k));
  }

  lemma BucketHasRow(rows: seq<Observation>, b: Bucket)
    requires IsBucketOf(rows, b)
    ensures exists o :: o in rows && KeyOf(o) == BucketKey(b)
  {
    HavingRows(rows, BucketKey(b));
    assert Having(rows, BucketKey(b))[0] in Having(rows, BucketKey(b));
  }
}
