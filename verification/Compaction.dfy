/** Compaction of a catalogue at a day cutoff (compact/compactor.py, domain/retention/buckets.py). */
module Compaction {
  import opened Buckets
  import opened Order

  // ---------- rows in the order the query gives them ----------

  /** `ORDER BY ed2k_hash, observed_at, id`; ids follow the order of the table. */
  predicate RowAtMost(a: Observation, b: Observation) {
    Below(a.hash, b.hash) || (a.hash == b.hash && AtMost(a.observedAt, b.observedAt))
  }

  lemma RowAtMostIsTotal()
    ensures TotalPreorder(RowAtMost)
  {
    BelowIsStrictTotal();
  }

  /** A row between two rows of one (hash, day) is of that (hash, day). */
  lemma KeyBetween(a: Observation, b: Observation, c: Observation)
    requires RowAtMost(a, b) && RowAtMost(b, c) && KeyOf(a) == KeyOf(c)
    ensures KeyOf(b) == KeyOf(a)
  {
    AtMostAntisymmetric(a.hash, b.hash);
    BelowIrreflexive(a.hash);
    PrefixMonotone(a.observedAt, b.observedAt, DAY_WIDTH);
    PrefixMonotone(b.observedAt, c.observedAt, DAY_WIDTH);
    AtMostAntisymmetric(Prefix(a.observedAt, DAY_WIDTH), Prefix(b.observedAt, DAY_WIDTH));
  }

  // ---------- totals ----------

  function TotalCount(bs: seq<Bucket>): int {
    if bs == [] then 0 else TotalCount(bs[..|bs| - 1]) + bs[|bs| - 1].count
  }

  function TotalSources(bs: seq<Bucket>): int {
    if bs == [] then 0 else TotalSources(bs[..|bs| - 1]) + bs[|bs| - 1].sourcesSum
  }

  function TotalCompletes(bs: seq<Bucket>): int {
    if bs == [] then 0 else TotalCompletes(bs[..|bs| - 1]) + bs[|bs| - 1].completeSum
  }

  /** The buckets stand for as many rows, sources and complete sources as the rows they replace. */
  ghost predicate SameTotals(rows: seq<Observation>, bs: seq<Bucket>) {
    && TotalCount(bs) == |rows|
    && TotalSources(bs) == Sum(Column(rows, SourcesOf))
    && TotalCompletes(bs) == Sum(Column(rows, CompleteOf))
  }

  lemma SumColumnConcat(a: seq<Observation>, b: seq<Observation>, f: Observation -> int)
    ensures Sum(Column(a + b, f)) == Sum(Column(a, f)) + Sum(Column(b, f))
  {
    assert Column(a + b, f) == Column(a, f) + Column(b, f);
    SumConcat(Column(a, f), Column(b, f));
  }

  lemma TotalsGrow(rows: seq<Observation>, bs: seq<Bucket>, group: seq<Observation>)
    requires SameTotals(rows, bs) && group != []
    ensures SameTotals(rows + group, bs + [Aggregate(group)])
  {
    var b := Aggregate(group);
    assert (bs + [b])[..|bs|] == bs;
    SumColumnConcat(rows, group, SourcesOf);
    SumColumnConcat(rows, group, CompleteOf);
  }

  // ---------- bucketize ----------

  lemma {:induction false} OneKeyHaving(group: seq<Observation>, k: GroupKey)
    requires forall i :: 0 <= i < |group| ==> KeyOf(group[i]) == k
    ensures Having(group, k) == group
  {
    if group != [] {
      OneKeyHaving(group[..|group| - 1], k);
    }
  }

  lemma GroupBucket(group: seq<Observation>)
    requires group != [] && forall i :: 0 <= i < |group| ==> KeyOf(group[i]) == KeyOf(group[0])
    ensures BucketKey(Aggregate(group)) == KeyOf(group[0]) && IsBucketOf(group, Aggregate(group))
  {
    OneKeyHaving(group, KeyOf(group[0]));
  }

  lemma GroupRollup(group: seq<Observation>)
    requires group != [] && forall i :: 0 <= i < |group| ==> KeyOf(group[i]) == KeyOf(group[0])
    ensures IsRollup(group, [Aggregate(group)])
  {
    GroupBucket(group);
    var bs := [Aggregate(group)];
    assert BucketKey(bs[0]) == KeyOf(group[0]);
    assert HasBucket(bs, KeyOf(group[0]));
  }

  /** A new key has not been seen before, because the rows are sorted. */
  lemma NewKeyIsNew(rows: seq<Observation>, i: nat, j: nat)
    requires Sorted(rows, RowAtMost) && 0 < i < j <= |rows|
    requires KeyOf(rows[i - 1]) != KeyOf(rows[i])
    requires forall x :: i <= x < j ==> KeyOf(rows[x]) == KeyOf(rows[i])
    ensures SharesNoKey(rows[..i], rows[i..j])
  {
    forall p | 0 <= p < i ensures KeyOf(rows[p]) != KeyOf(rows[i]) {
      if KeyOf(rows[p]) == KeyOf(rows[i]) {
        RowAtMostIsTotal();
        assert RowAtMost(rows[p], rows[i - 1]);
        KeyBetween(rows[p], rows[i - 1], rows[i]);
      }
    }
  }

  lemma GroupStep(rows: seq<Observation>, i: nat, j: nat, buckets: seq<Bucket>)
    requires Sorted(rows, RowAtMost) && i < j <= |rows|
    requires i > 0 ==> KeyOf(rows[i - 1]) != KeyOf(rows[i])
    requires forall x :: i <= x < j ==> KeyOf(rows[x]) == KeyOf(rows[i])
    requires IsRollup(rows[..i], buckets)
    ensures IsRollup(rows[..i] + rows[i..j], buckets + [Aggregate(rows[i..j])])
  {
    GroupRollup(rows[i..j]);
    assert SharesNoKey(rows[..i], rows[i..j]) by {
      if i > 0 {
        NewKeyIsNew(rows, i, j);
      }
    }
    RollupConcat(rows[..i], buckets, rows[i..j], [Aggregate(rows[i..j])]);
  }

  lemma SliceJoin<T>(s: seq<T>, i: nat, j: nat)
    requires i <= j <= |s|
    ensures s[..j] == s[..i] + s[i..j]
  {
  }

  lemma GroupDone(rows: seq<Observation>, i: nat, j: nat, buckets: seq<Bucket>)
    requires Sorted(rows, RowAtMost) && i < j <= |rows|
    requires i > 0 ==> KeyOf(rows[i - 1]) != KeyOf(rows[i])
    requires forall x :: i <= x < j ==> KeyOf(rows[x]) == KeyOf(rows[i])
    requires IsRollup(rows[..i], buckets) && SameTotals(rows[..i], buckets)
    ensures IsRollup(rows[..j], buckets + [Aggregate(rows[i..j])])
    ensures SameTotals(rows[..j], buckets + [Aggregate(rows[i..j])])
  {
    SliceJoin(rows, i, j);
    GroupStep(rows, i, j, buckets);
    TotalsGrow(rows[..i], buckets, rows[i..j]);
  }

  /** The end of the run of rows that share the key of row `i`. */
  method RunEnd(rows: seq<Observation>, i: nat) returns (j: nat)
    requires i < |rows|
    ensures i < j <= |rows| && forall x :: i <= x < j ==> KeyOf(rows[x]) == KeyOf(rows[i])
    ensures j < |rows| ==> KeyOf(rows[j]) != KeyOf(rows[i])
  {
    j := i + 1;
    while j < |rows| && KeyOf(rows[j]) == KeyOf(rows[i])
      invariant i < j <= |rows|
      invariant forall x :: i <= x < j ==> KeyOf(rows[x]) == KeyOf(rows[i])
    {
      j := j + 1;
    }
  }

  /** One group: its end and its bucket. */
  method NextGroup(rows: seq<Observation>, i: nat, ghost buckets: seq<Bucket>) returns (j: nat, b: Bucket)
    requires Sorted(rows, RowAtMost) && i < |rows|
    requires i > 0 ==> KeyOf(rows[i - 1]) != KeyOf(rows[i])
    requires IsRollup(rows[..i], buckets) && SameTotals(rows[..i], buckets)
    ensures i < j <= |rows| && (j < |rows| ==> KeyOf(rows[j - 1]) != KeyOf(rows[j]))
    ensures IsRollup(rows[..j], buckets + [b]) && SameTotals(rows[..j], buckets + [b])
  {
    j := RunEnd(rows, i);
    b := Aggregate(rows[i..j]);
    GroupDone(rows, i, j, buckets);
  }

  /** `groupby` over sorted rows: one bucket per (hash, day), nothing lost and nothing counted twice. */
  method Bucketize(rows: seq<Observation>) returns (buckets: seq<Bucket>)
    requires Sorted(rows, RowAtMost)
    ensures IsRollup(rows, buckets)
    ensures SameTotals(rows, buckets)
  {
    buckets := [];
    var i := 0;
    while i < |rows|
      invariant 0 <= i <= |rows|
      invariant 0 < i < |rows| ==> KeyOf(rows[i - 1]) != KeyOf(rows[i])
      invariant IsRollup(rows[..i], buckets) && SameTotals(rows[..i], buckets)
    {
      var b;
      i, b := NextGroup(rows, i, buckets);
      buckets := buckets + [b];
    }
    assert rows[..|rows|] == rows;
  }

  // ---------- the cutoff ----------

  function Old(raw: seq<Observation>, cutoff: string): seq<Observation> {
    if raw == [] then []
    else
      var o := raw[|raw| - 1];
      if Below(o.observedAt, cutoff) then Old(raw[..|raw| - 1], cutoff) + [o] else Old(raw[..|raw| - 1], cutoff)
  }

  function Recent(raw: seq<Observation>, cutoff: string): seq<Observation> {
    if raw == [] then []
    else
      var o := raw[|raw| - 1];
      if Below(o.observedAt, cutoff) then Recent(raw[..|raw| - 1], cutoff) else Recent(raw[..|raw| - 1], cutoff) + [o]
  }

  lemma {:induction false} SplitCounts(raw: seq<Observation>, cutoff: string, o: Observation)
    ensures multiset(Old(raw, cutoff))[o] == if Below(o.observedAt, cutoff) then multiset(raw)[o] else 0
    ensures multiset(Recent(raw, cutoff))[o] == if Below(o.observedAt, cutoff) then 0 else multiset(raw)[o]
  {
    if raw != [] {
      assert raw == raw[..|raw| - 1] + [raw[|raw| - 1]];
      SplitCounts(raw[..|raw| - 1], cutoff, o);
    }
  }

  lemma SplitMultiset(raw: seq<Observation>, cutoff: string)
    ensures multiset(Old(raw, cutoff) + Recent(raw, cutoff)) == multiset(raw)
  {
    forall o ensures multiset(Old(raw, cutoff) + Recent(raw, cutoff))[o] == multiset(raw)[o] {
      SplitCounts(raw, cutoff, o);
    }
  }

  /** A day is on one side of the cutoff: it is compacted in full or not at all. */
  lemma DayIsWhole(a: Observation, b: Observation, cutoff: string)
    requires |cutoff| == DAY_WIDTH && KeyOf(a) == KeyOf(b)
    ensures Below(a.observedAt, cutoff) <==> Below(b.observedAt, cutoff)
  {
    BelowDate(a.observedAt, cutoff);
    BelowDate(b.observedAt, cutoff);
  }

  // ---------- one compaction ----------

  /** Recent rows are kept, old rows become the rollup `added`, existing ranges are carried over. */
  ghost predicate Compacts(raw: seq<Observation>, ranges: seq<Bucket>, cutoff: string,
                           raw': seq<Observation>, ranges': seq<Bucket>, added: seq<Bucket>) {
    && multiset(raw') == multiset(Recent(raw, cutoff))
    && IsRollup(Old(raw, cutoff), added)
    && multiset(ranges') == multiset(ranges) + multiset(added)
  }

  lemma RollupPermutation(a: seq<Observation>, b: seq<Observation>, bs: seq<Bucket>)
    requires multiset(a) == multiset(b) && IsRollup(a, bs)
    ensures IsRollup(b, bs)
  {
    SameElements(a, b);
    forall i | 0 <= i < |bs| ensures IsBucketOf(b, bs[i]) {
      BucketOfPermutation(a, b, bs[i]);
    }
  }

  /** `intact` holds the tables that are copied row by row: files, sources, source_observations, match_decisions. */
  class CatalogDb {
    var intact: map<string, seq<string>>
    var observations: seq<Observation>
    var ranges: seq<Bucket>
    ghost var failures: nat

    /** All in one transaction: an error leaves the new output empty. */
    method CompactFrom(source: CatalogDb, cutoff: string) returns (ok: bool, added: seq<Bucket>)
      requires source != this && |cutoff| == DAY_WIDTH
      requires intact == map[] && observations == [] && ranges == []
      modifies this
      ensures !ok ==> intact == map[] && observations == [] && ranges == []
      ensures failures == old(failures) + (if ok then 0 else 1)
      ensures ok ==> intact == source.intact
      ensures ok ==> Compacts(source.observations, source.ranges, cutoff, observations, ranges, added)
      ensures ok ==> SameGrandTotals(source.observations, source.ranges, observations, ranges)
    {
      added := [];
      intact, ranges := source.intact, source.ranges;
      if * {
        Rollback();
        return false, added;
      }
      observations := Recent(source.observations, cutoff);
      var rows := SelectOld(source.observations, cutoff);
      added := Bucketize(rows);
      InsertRanges(added);
      if * {
        Rollback();
        return false, added;
      }
      CompactionDone(source.observations, source.ranges, cutoff, rows, added);
      ok := true;
    }

    /** A statement failed: the transaction leaves nothing. */
    method Rollback()
      modifies this
      ensures intact == map[] && observations == [] && ranges == [] && failures == old(failures) + 1
    {
      intact, observations, ranges := map[], [], [];
      failures := failures + 1;
    }

    method InsertRanges(buckets: seq<Bucket>)
      modifies this`ranges
      ensures ranges == old(ranges) + buckets
    {
      for i := 0 to |buckets|
        invariant ranges == old(ranges) + buckets[..i]
      {
        ranges := ranges + [buckets[i]];
      }
    }
  }

  /** The rows before the cutoff, in (hash, stamp, id) order. */
  method SelectOld(raw: seq<Observation>, cutoff: string) returns (rows: seq<Observation>)
    ensures multiset(rows) == multiset(Old(raw, cutoff)) && Sorted(rows, RowAtMost)
    ensures forall i, j :: 0 <= i < j < |rows| ==>
      Below(rows[i].hash, rows[j].hash)
      || (rows[i].hash == rows[j].hash && AtMost(rows[i].observedAt, rows[j].observedAt))
  {
    RowAtMostIsTotal();
    SortSorted(Old(raw, cutoff), RowAtMost);
    rows := Sort(Old(raw, cutoff), RowAtMost);
  }

  /** Rows, source counts and complete-source counts: none is lost and none is invented. */
  ghost predicate SameGrandTotals(raw: seq<Observation>, ranges: seq<Bucket>, raw': seq<Observation>,
                                  ranges': seq<Bucket>)
  {
    && |raw'| + TotalCount(ranges') == |raw| + TotalCount(ranges)
    && Sum(Column(raw', SourcesOf)) + TotalSources(ranges') == Sum(Column(raw, SourcesOf)) + TotalSources(ranges)
    && Sum(Column(raw', CompleteOf)) + TotalCompletes(ranges') == Sum(Column(raw, CompleteOf)) + TotalCompletes(ranges)
  }

  lemma CompactionDone(raw: seq<Observation>, ranges: seq<Bucket>, cutoff: string,
                       rows: seq<Observation>, buckets: seq<Bucket>)
    requires multiset(rows) == multiset(Old(raw, cutoff)) && IsRollup(rows, buckets) && SameTotals(rows, buckets)
    ensures Compacts(raw, ranges, cutoff, Recent(raw, cutoff), ranges + buckets, buckets)
    ensures SameGrandTotals(raw, ranges, Recent(raw, cutoff), ranges + buckets)
  {
    RollupPermutation(rows, Old(raw, cutoff), buckets);
    CompactionConserves(raw, ranges, cutoff, rows, buckets);
  }

  lemma {:induction false} TotalsConcat(a: seq<Bucket>, b: seq<Bucket>)
    ensures TotalCount(a + b) == TotalCount(a) + TotalCount(b)
    ensures TotalSources(a + b) == TotalSources(a) + TotalSources(b)
    ensures TotalCompletes(a + b) == TotalCompletes(a) + TotalCompletes(b)
  {
    if b == [] {
      assert a + b == a;
    } else {
      TotalsConcat(a, b[..|b| - 1]);
      assert (a + b)[..|a + b| - 1] == a + b[..|b| - 1];
    }
  }

  lemma CompactionConserves(raw: seq<Observation>, ranges: seq<Bucket>, cutoff: string,
                            rows: seq<Observation>, buckets: seq<Bucket>)
    requires multiset(rows) == multiset(Old(raw, cutoff)) && SameTotals(rows, buckets)
    ensures SameGrandTotals(raw, ranges, Recent(raw, cutoff), ranges + buckets)
  {
    TotalsConcat(ranges, buckets);
    SplitMultiset(raw, cutoff);
    var both := rows + Recent(raw, cutoff);
    assert multiset(both) == multiset(raw);
    SameElements(both, raw);
    SumOfParts(both, raw, rows, Recent(raw, cutoff), SourcesOf);
    SumOfParts(both, raw, rows, Recent(raw, cutoff), CompleteOf);
  }

  lemma SumOfParts(both: seq<Observation>, raw: seq<Observation>, a: seq<Observation>, b: seq<Observation>,
                   f: Observation -> int)
    requires both == a + b && multiset(both) == multiset(raw)
    ensures Sum(Column(a, f)) + Sum(Column(b, f)) == Sum(Column(raw, f))
  {
    SumColumnConcat(a, b, f);
    ColumnPermutation(both, raw, f);
    SumPermutation(Column(both, f), Column(raw, f));
  }

  // ---------- compactions compose ----------

  /** Compacting at c1 and then at c2 >= c1 gives what compacting once at c2 gives. */
  lemma CompactionsCompose(raw: seq<Observation>, ranges: seq<Bucket>, c1: string, c2: string,
                           raw1: seq<Observation>, ranges1: seq<Bucket>, b1: seq<Bucket>,
                           raw2: seq<Observation>, ranges2: seq<Bucket>, b2: seq<Bucket>,
                           once: seq<Observation>, onceRanges: seq<Bucket>, b: seq<Bucket>)
    requires |c1| == DAY_WIDTH && |c2| == DAY_WIDTH && AtMost(c1, c2)
    requires Compacts(raw, ranges, c1, raw1, ranges1, b1)
    requires Compacts(raw1, ranges1, c2, raw2, ranges2, b2)
    requires Compacts(raw, ranges, c2, once, onceRanges, b)
    ensures multiset(raw2) == multiset(once)
    ensures multiset(ranges2) == multiset(onceRanges)
  {
    TwoStepsSplit(raw, raw1, c1, c2);
    RollupsCompose(raw, raw1, c1, c2, b1, b2, b);
  }

  lemma RollupsCompose(raw: seq<Observation>, raw1: seq<Observation>, c1: string, c2: string,
                       b1: seq<Bucket>, b2: seq<Bucket>, b: seq<Bucket>)
    requires |c1| == DAY_WIDTH && AtMost(c1, c2) && multiset(raw1) == multiset(Recent(raw, c1))
    requires IsRollup(Old(raw, c1), b1) && IsRollup(Old(raw1, c2), b2) && IsRollup(Old(raw, c2), b)
    ensures multiset(b1) + multiset(b2) == multiset(b)
  {
    TwoStepsSplit(raw, raw1, c1, c2);
    RollupConcat(Old(raw, c1), b1, Old(raw1, c2), b2);
    RollupUnique(Old(raw, c1) + Old(raw1, c2), b1 + b2, Old(raw, c2), b);
  }

  lemma TwoStepsSplit(raw: seq<Observation>, raw1: seq<Observation>, c1: string, c2: string)
    requires |c1| == DAY_WIDTH && AtMost(c1, c2) && multiset(raw1) == multiset(Recent(raw, c1))
    ensures multiset(Recent(raw1, c2)) == multiset(Recent(raw, c2))
    ensures multiset(Old(raw, c1) + Old(raw1, c2)) == multiset(Old(raw, c2))
    ensures SharesNoKey(Old(raw, c1), Old(raw1, c2))
  {
    TwoStepsMultisets(raw, raw1, c1, c2);
    forall o, p | o in Old(raw, c1) && p in Old(raw1, c2) ensures KeyOf(o) != KeyOf(p) {
      TwoStepsKeys(raw, raw1, c1, c2, o, p);
    }
  }

  lemma TwoStepsMultisets(raw: seq<Observation>, raw1: seq<Observation>, c1: string, c2: string)
    requires AtMost(c1, c2) && multiset(raw1) == multiset(Recent(raw, c1))
    ensures multiset(Recent(raw1, c2)) == multiset(Recent(raw, c2))
    ensures multiset(Old(raw, c1) + Old(raw1, c2)) == multiset(Old(raw, c2))
  {
    forall o
      ensures multiset(Recent(raw1, c2))[o] == multiset(Recent(raw, c2))[o]
      ensures multiset(Old(raw, c1))[o] + multiset(Old(raw1, c2))[o] == multiset(Old(raw, c2))[o]
    {
      TwoStepsCount(raw, raw1, c1, c2, o);
    }
    assert multiset(Old(raw, c1) + Old(raw1, c2)) == multiset(Old(raw, c1)) + multiset(Old(raw1, c2));
  }

  lemma TwoStepsCount(raw: seq<Observation>, raw1: seq<Observation>, c1: string, c2: string, o: Observation)
    requires AtMost(c1, c2) && multiset(raw1) == multiset(Recent(raw, c1))
    ensures multiset(Recent(raw1, c2))[o] == multiset(Recent(raw, c2))[o]
    ensures multiset(Old(raw, c1))[o] + multiset(Old(raw1, c2))[o] == multiset(Old(raw, c2))[o]
  {
    SplitCounts(raw, c1, o);
    SplitCounts(raw1, c2, o);
    SplitCounts(raw, c2, o);
    if Below(o.observedAt, c1) && c1 != c2 {
      BelowTransitive(o.observedAt, c1, c2);
    }
  }

  lemma TwoStepsKeys(raw: seq<Observation>, raw1: seq<Observation>, c1: string, c2: string, o: Observation,
                     p: Observation)
    requires |c1| == DAY_WIDTH && multiset(raw1) == multiset(Recent(raw, c1))
    requires o in Old(raw, c1) && p in Old(raw1, c2)
    ensures KeyOf(o) != KeyOf(p)
  {
    SplitCounts(raw, c1, o);
    SplitCounts(raw1, c2, p);
    SplitCounts(raw, c1, p);
    assert multiset(Old(raw, c1))[o] > 0 && multiset(Old(raw1, c2))[p] > 0;
    if KeyOf(o) == KeyOf(p) {
      DayIsWhole(o, p, c1);
    }
  }

  /** Running again at the same cutoff changes nothing. */
  lemma CompactionIsIdempotent(raw: seq<Observation>, ranges: seq<Bucket>, cutoff: string,
                               raw1: seq<Observation>, ranges1: seq<Bucket>, b1: seq<Bucket>,
                               raw2: seq<Observation>, ranges2: seq<Bucket>, b2: seq<Bucket>)
    requires |cutoff| == DAY_WIDTH
    requires Compacts(raw, ranges, cutoff, raw1, ranges1, b1) && Compacts(raw1, ranges1, cutoff, raw2, ranges2, b2)
    ensures multiset(raw2) == multiset(raw1) && multiset(ranges2) == multiset(ranges1)
  {
    CompactionsCompose(raw, ranges, cutoff, cutoff, raw1, ranges1, b1, raw2, ranges2, b2, raw1, ranges1, b1);
  }

  /** A row before the cutoff, of the hash and the day of `b`. */
  ghost predicate OldRowOf(raw: seq<Observation>, cutoff: string, b: Bucket, o: Observation) {
    o in raw && Below(o.observedAt, cutoff) && o.hash == b.hash && Prefix(o.observedAt, 10) == b.day
  }

  lemma OldRows(raw: seq<Observation>, cutoff: string, o: Observation)
    ensures o in Old(raw, cutoff) <==> o in raw && Below(o.observedAt, cutoff)
  {
    SplitCounts(raw, cutoff, o);
    assert o in Old(raw, cutoff) <==> o in multiset(Old(raw, cutoff));
    assert o in raw <==> o in multiset(raw);
  }

  /** Each extreme of a range a compaction adds is that of an old row of its hash and day, and bounds all of them. */
  lemma RangeIsOfRows(raw: seq<Observation>, cutoff: string, buckets: seq<Bucket>, i: nat)
    requires IsRollup(Old(raw, cutoff), buckets) && i < |buckets|
    ensures
      var b := buckets[i];
      && (exists o :: OldRowOf(raw, cutoff, b, o) && o.observedAt == b.first)
      && (exists o :: OldRowOf(raw, cutoff, b, o) && o.observedAt == b.last)
      && (exists o :: OldRowOf(raw, cutoff, b, o) && o.sources == b.sourcesMin)
      && (exists o :: OldRowOf(raw, cutoff, b, o) && o.sources == b.sourcesMax)
      && (exists o :: OldRowOf(raw, cutoff, b, o) && o.complete == b.completeMin)
      && (exists o :: OldRowOf(raw, cutoff, b, o) && o.complete == b.completeMax)
    ensures
      var b := buckets[i];
      forall o :: OldRowOf(raw, cutoff, b, o) ==>
        && AtMost(b.first, o.observedAt) && AtMost(o.observedAt, b.last)
        && b.sourcesMin <= o.sources <= b.sourcesMax && b.completeMin <= o.complete <= b.completeMax
  {
    var b := buckets[i];
    var group := Having(Old(raw, cutoff), BucketKey(b));
    assert IsBucketOf(Old(raw, cutoff), b);
    HavingRows(Old(raw, cutoff), BucketKey(b));
    AggregateExtremes(group, 0);
    forall o ensures o in group <==> OldRowOf(raw, cutoff, b, o) {
      OldRows(raw, cutoff, o);
    }
    forall o | o in group
      ensures AtMost(b.first, o.observedAt) && AtMost(o.observedAt, b.last)
      ensures b.sourcesMin <= o.sources <= b.sourcesMax && b.completeMin <= o.complete <= b.completeMax
    {
      var k :| 0 <= k < |group| && group[k] == o;
      AggregateExtremes(group, k);
    }
    AttainedByOld(raw, cutoff, b, group);
  }

  lemma AttainedByOld(raw: seq<Observation>, cutoff: string, b: Bucket, group: seq<Observation>)
    requires Attained(group, b) && forall o :: o in group ==> OldRowOf(raw, cutoff, b, o)
    ensures
      && (exists o :: OldRowOf(raw, cutoff, b, o) && o.observedAt == b.first)
      && (exists o :: OldRowOf(raw, cutoff, b, o) && o.observedAt == b.last)
      && (exists o :: OldRowOf(raw, cutoff, b, o) && o.sources == b.sourcesMin)
      && (exists o :: OldRowOf(raw, cutoff, b, o) && o.sources == b.sourcesMax)
      && (exists o :: OldRowOf(raw, cutoff, b, o) && o.complete == b.completeMin)
      && (exists o :: OldRowOf(raw, cutoff, b, o) && o.complete == b.completeMax)
  {
    assert forall k :: 0 <= k < |group| ==> OldRowOf(raw, cutoff, b, group[k]);
  }

  /** Every range a compaction adds is a bucket of old rows only, within its bounds. */
  lemma RangesAreBounded(raw: seq<Observation>, cutoff: string, buckets: seq<Bucket>, i: nat)
    requires |cutoff| == DAY_WIDTH && IsRollup(Old(raw, cutoff), buckets) && i < |buckets|
    ensures
      var b := buckets[i];
      && b.count * b.sourcesMin <= b.sourcesSum <= b.count * b.sourcesMax
      && b.count * b.completeMin <= b.completeSum <= b.count * b.completeMax
      && AtMost(b.first, b.last) && Prefix(b.first, DAY_WIDTH) == b.day == Prefix(b.last, DAY_WIDTH)
      && Below(b.day, cutoff)
  {
    var k := BucketKey(buckets[i]);
    var group := Having(Old(raw, cutoff), k);
    assert IsBucketOf(Old(raw, cutoff), buckets[i]);
    HavingOneKey(Old(raw, cutoff), k);
    HavingRows(Old(raw, cutoff), k);
    AggregateBounds(group);
    assert group[0] in group;
    SplitCounts(raw, cutoff, group[0]);
    assert multiset(Old(raw, cutoff))[group[0]] > 0;
    BelowDate(group[0].observedAt, cutoff);
  }
}
