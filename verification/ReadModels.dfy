/** The explorer's read models (webui/adapters/catalog_read.py): current decisions, filters, counters,
    tier facets, and the sorted pages of the file list. */
module ReadModels {
  import opened Fields
  import opened Journal
  import opened Latest
  import opened Options
  import opened Order

  const PAGE_SIZE: nat := 50

  const CATALOG := "catalog"

  datatype Observed = Observed(filename: string, sources: int)

  datatype Tables = Tables(
    files: map<Hash, int>,
    observations: seq<Entry<Hash, Observed>>,
    decisions: Log)

  // ---------- the CTEs ----------

  datatype CurrentDecision = CurrentDecision(hash: Hash, target: string, tier: string)

  /** Row number 1 of its (hash, target), a real target, not a retraction. */
  ghost predicate InLatestDec(c: Tables, i: nat) {
    && i < |c.decisions| && RowNumber(c.decisions, c.decisions[i], 1)
    && c.decisions[i].key.target != "" && c.decisions[i].payload.tier != RETRACTED
  }

  ghost function LatestDec(c: Tables): set<CurrentDecision> {
    set i: nat | 0 <= i < |c.decisions| && InLatestDec(c, i) ::
      CurrentDecision(c.decisions[i].key.hash, c.decisions[i].key.target, c.decisions[i].payload.tier)
  }

  predicate HasTier(v: Option<Verdict>, tier: string) { v.Some? && v.value.tier == tier }

  /** The view the explorer reads is the live view of the journal: one tier per (hash, target). */
  lemma LatestDecIsLive(c: Tables, d: CurrentDecision)
    requires UniqueIds(c.decisions)
    ensures d in LatestDec(c) <==>
      d.target != "" && HasTier(Live(c.decisions, d.hash, d.target), d.tier)
  {
    var key := Key(d.hash, d.target);
    if d in LatestDec(c) {
      var i: nat :| i < |c.decisions| && InLatestDec(c, i)
        && d == CurrentDecision(c.decisions[i].key.hash, c.decisions[i].key.target, c.decisions[i].payload.tier);
      LatestFormsAgree(c.decisions, c.decisions[i]);
      assert c.decisions[i].key == key;
    }
    if d.target != "" && HasTier(Live(c.decisions, d.hash, d.target), d.tier) {
      LatestOfIn(c.decisions, key);
      var e := LatestOf(c.decisions, key).value;
      var i: nat :| i < |c.decisions| && c.decisions[i] == e;
      LatestFormsAgree(c.decisions, e);
      assert InLatestDec(c, i);
    }
  }

  /** `latest_obs`: the newest observation of a file, when it has one. */
  ghost function LatestObs(c: Tables, h: Hash): Option<Entry<Hash, Observed>> { LimitOne(c.observations, h) }

  // ---------- the filters ----------

  datatype Filters = Filters(target: Option<string>, tier: Option<string>, query: Option<string>)

  ghost predicate TargetClause(c: Tables, h: Hash, target: string) {
    exists d :: d in LatestDec(c) && d.hash == h && d.target == target && d.tier != CATALOG
  }

  ghost predicate TierClause(c: Tables, h: Hash, tier: string) {
    exists d :: d in LatestDec(c) && d.hash == h && d.tier == tier
  }

  /** `obs.filename LIKE '%query%'`, never true of a NULL filename. */
  ghost predicate QueryClause(c: Tables, like: (string, string) -> bool, h: Hash, query: string) {
    LatestObs(c, h).Some? && like(query, LatestObs(c, h).value.payload.filename)
  }

  ghost predicate Passes(c: Tables, like: (string, string) -> bool, f: Filters, h: Hash) {
    && (f.target.Some? ==> TargetClause(c, h, f.target.value))
    && (f.tier.Some? ==> TierClause(c, h, f.tier.value))
    && (f.query.Some? ==> QueryClause(c, like, h, f.query.value))
  }

  /** `dec.target_ids IS NOT NULL` */
  ghost predicate IsMatched(c: Tables, h: Hash) {
    exists d :: d in LatestDec(c) && d.hash == h
  }

  /** The filters, read off the live view of the journal: the target has a live verdict other than `catalog`, some
      target has a live verdict of the tier, and the newest observed name matches the query. */
  lemma FiltersMean(c: Tables, like: (string, string) -> bool, f: Filters, h: Hash)
    requires UniqueIds(c.decisions) && UniqueIds(c.observations)
    ensures Passes(c, like, f, h) <==>
      && (f.target.Some? ==> ShowsTarget(c, h, f.target.value))
      && (f.tier.Some? ==> exists t :: t != "" && HasTier(Live(c.decisions, h, t), f.tier.value))
      && (f.query.Some? ==>
            LatestOf(c.observations, h).Some?
            && like(f.query.value, LatestOf(c.observations, h).value.payload.filename))
    ensures IsMatched(c, h) <==> exists t :: t != "" && Live(c.decisions, h, t).Some?
  {
    NewestObserved(c, h);
    TargetMeans(c, h, if f.target.Some? then f.target.value else "");
    TierMeans(c, h, if f.tier.Some? then f.tier.value else "");
    MatchedMeans(c, h);
  }

  lemma MatchedMeans(c: Tables, h: Hash)
    requires UniqueIds(c.decisions)
    ensures IsMatched(c, h) <==> exists t :: t != "" && Live(c.decisions, h, t).Some?
  {
    if IsMatched(c, h) {
      var d :| d in LatestDec(c) && d.hash == h;
      LatestDecIsLive(c, d);
    }
    if t :| t != "" && Live(c.decisions, h, t).Some? {
      LatestDecIsLive(c, CurrentDecision(h, t, Live(c.decisions, h, t).value.tier));
    }
  }

  predicate ShowsTarget(c: Tables, h: Hash, target: string) {
    target != "" && Live(c.decisions, h, target).Some? && Live(c.decisions, h, target).value.tier != "catalog"
  }

  lemma TargetMeans(c: Tables, h: Hash, target: string)
    requires UniqueIds(c.decisions)
    ensures TargetClause(c, h, target) <==> ShowsTarget(c, h, target)
  {
    if TargetClause(c, h, target) {
      var d :| d in LatestDec(c) && d.hash == h && d.target == target && d.tier != CATALOG;
      LatestDecIsLive(c, d);
    }
    if ShowsTarget(c, h, target) {
      LatestDecIsLive(c, CurrentDecision(h, target, Live(c.decisions, h, target).value.tier));
    }
  }

  lemma TierMeans(c: Tables, h: Hash, tier: string)
    requires UniqueIds(c.decisions)
    ensures TierClause(c, h, tier) <==> exists t :: t != "" && HasTier(Live(c.decisions, h, t), tier)
  {
    if TierClause(c, h, tier) {
      var d :| d in LatestDec(c) && d.hash == h && d.tier == tier;
      LatestDecIsLive(c, d);
    }
    if t :| t != "" && HasTier(Live(c.decisions, h, t), tier) {
      LatestDecIsLive(c, CurrentDecision(h, t, tier));
    }
  }

  lemma NewestObserved(c: Tables, h: Hash)
    requires UniqueIds(c.observations)
    ensures LatestObs(c, h) == LatestOf(c.observations, h)
  {
    LatestOfIsLatest(c.observations, h);
    PartitionRows(c.observations, h);
    PartitionUniqueIds(c.observations, h);
    SortLength(Partition(c.observations, h), NotEarlier);
    if HasKey(c.observations, h) {
      LatestFormsAgree(c.observations, LatestOf(c.observations, h).value);
    } else {
      Inhabited(Partition(c.observations, h));
    }
  }

  // ---------- the counters ----------

  /** The rows of the star join that pass: one per file. */
  ghost function Filtered(c: Tables, like: (string, string) -> bool, f: Filters, matchedOnly: bool): set<Hash> {
    set h | h in c.files && Passes(c, like, f, h) && (matchedOnly ==> IsMatched(c, h))
  }

  datatype Counts = Counts(matched: nat, total: nat)

  /** `COUNT(DISTINCT f.ed2k_hash)` and `COUNT(DISTINCT CASE WHEN dec.target_ids IS NOT NULL ...)` */
  ghost function CountFiles(c: Tables, like: (string, string) -> bool, f: Filters): Counts {
    var rows := Filtered(c, like, f, false);
    Counts(|set h | h in rows && IsMatched(c, h)|, |rows|)
  }

  /** The join of `latest_dec` with `files`, grouped by tier, counting distinct hashes; the tier filter is dropped. */
  ghost function TierCount(c: Tables, like: (string, string) -> bool, f: Filters, tier: string): nat {
    |FacetHashes(c, like, f, tier)|
  }

  ghost function FacetHashes(c: Tables, like: (string, string) -> bool, f: Filters, tier: string): set<Hash> {
    set d | d in LatestDec(c) && d.tier == tier && d.hash in c.files && Passes(c, like, f.(tier := None), d.hash) ::
      d.hash
  }

  /** A facet shows the total one would get by choosing it. */
  lemma FacetIsTotal(c: Tables, like: (string, string) -> bool, f: Filters, tier: string)
    ensures TierCount(c, like, f, tier) == CountFiles(c, like, f.(tier := Some(tier))).total
  {
    var facet := FacetHashes(c, like, f, tier);
    var rows := Filtered(c, like, f.(tier := Some(tier)), false);
    forall h ensures h in facet <==> h in rows {
      if h in rows {
        assert TierClause(c, h, tier);
        var d :| d in LatestDec(c) && d.hash == h && d.tier == tier;
        assert Passes(c, like, f.(tier := None), d.hash);
      }
      if h in facet {
        var d :| d in LatestDec(c) && d.tier == tier && d.hash == h && Passes(c, like, f.(tier := None), d.hash);
        assert TierClause(c, h, tier);
      }
    }
    assert facet == rows;
  }

  // ---------- the sorted list ----------

  datatype Cell = Null | Number(n: int) | Text(s: string)

  datatype SortColumn = ByName | BySize | BySources | ByLastSeen | ByTier

  datatype Direction = Asc | Desc

  /** SQLite's order of one column: NULL first. */
  predicate CellBelow(a: Cell, b: Cell) {
    match (a, b)
    case (_, Null) => false
    case (Null, _) => true
    case (Number(m), Number(n)) => m < n
    case (Number(_), Text(_)) => true
    case (Text(_), Number(_)) => false
    case (Text(s), Text(t)) => Below(s, t)
  }

  /** The CASE over the tiers: NULL, which MAX ignores, for anything else. */
  function TierRank(tier: string): Option<int> {
    if tier == DOWNLOAD then Some(2)
    else if tier == "notify" then Some(1)
    else if tier == CATALOG then Some(0)
    else None
  }

  /** The rank of the file's strongest current tier. */
  ghost predicate IsBestRank(c: Tables, h: Hash, rank: int) {
    && (exists d :: d in LatestDec(c) && d.hash == h && TierRank(d.tier) == Some(rank))
    && forall d :: d in LatestDec(c) && d.hash == h && TierRank(d.tier).Some? ==> TierRank(d.tier).value <= rank
  }

  ghost function SortCell(c: Tables, column: SortColumn, h: Hash): Cell {
    var obs := LatestObs(c, h);
    match column
    case ByName => if obs.Some? then Text(obs.value.payload.filename) else Null
    case BySize => if h in c.files then Number(c.files[h]) else Null
    case BySources => if obs.Some? then Number(obs.value.payload.sources) else Null
    case ByLastSeen => if obs.Some? then Text(obs.value.stamp) else Null
    case ByTier =>
      if exists rank :: IsBestRank(c, h, rank) then var rank :| IsBestRank(c, h, rank); Number(rank) else Null
  }

  /** `ORDER BY column direction, f.ed2k_hash` */
  ghost predicate RowBelow(c: Tables, column: SortColumn, direction: Direction, a: Hash, b: Hash) {
    var x, y := SortCell(c, column, a), SortCell(c, column, b);
    || (if direction == Asc then CellBelow(x, y) else CellBelow(y, x))
    || (x == y && Below(a, b))
  }

  lemma CellBelowIsStrictTotal(x: Cell, y: Cell, z: Cell)
    ensures !CellBelow(x, x)
    ensures CellBelow(x, y) && CellBelow(y, z) ==> CellBelow(x, z)
    ensures x == y || CellBelow(x, y) || CellBelow(y, x)
  {
    BelowIsStrictTotal();
  }

  lemma RowBelowIsStrictTotal(c: Tables, column: SortColumn, direction: Direction)
    ensures StrictTotal((a: Hash, b: Hash) => RowBelow(c, column, direction, a, b))
  {
    forall a: Hash, b: Hash, d: Hash
      ensures !RowBelow(c, column, direction, a, a)
      ensures RowBelow(c, column, direction, a, b) && RowBelow(c, column, direction, b, d) ==>
        RowBelow(c, column, direction, a, d)
      ensures a == b || RowBelow(c, column, direction, a, b) || RowBelow(c, column, direction, b, a)
    {
      var x, y, z := SortCell(c, column, a), SortCell(c, column, b), SortCell(c, column, d);
      CellBelowIsStrictTotal(x, y, z);
      CellBelowIsStrictTotal(z, y, x);
      BelowIsStrictTotal();
    }
  }

  /** One execution of the list query, before LIMIT and OFFSET. */
  ghost predicate IsListing(c: Tables, rows: set<Hash>, column: SortColumn, direction: Direction, s: seq<Hash>) {
    && (forall i, j :: 0 <= i < j < |s| ==> RowBelow(c, column, direction, s[i], s[j]))
    && forall h :: h in s <==> h in rows
  }

  /** The hash tiebreak leaves no freedom: every execution lists the files in the same order. */
  lemma ListingsAgree(c: Tables, rows: set<Hash>, column: SortColumn, direction: Direction, s: seq<Hash>, t: seq<Hash>)
    requires IsListing(c, rows, column, direction, s) && IsListing(c, rows, column, direction, t)
    ensures s == t
  {
    RowBelowIsStrictTotal(c, column, direction);
    AscendingIsSet(s, t, (a: Hash, b: Hash) => RowBelow(c, column, direction, a, b));
  }

  /** Such an execution exists for every set of files. */
  lemma ListingExists(c: Tables, rows: set<Hash>, column: SortColumn, direction: Direction) returns (s: seq<Hash>)
    ensures IsListing(c, rows, column, direction, s)
  {
    RowBelowIsStrictTotal(c, column, direction);
    s := AscendingExists(rows, (a: Hash, b: Hash) => RowBelow(c, column, direction, a, b));
  }

  // ---------- what the columns sort by ----------

  /** `b` may stand after `a`: in ascending order nothing is before something, in descending order after it. */
  ghost predicate NumbersFollow(direction: Direction, a: Option<int>, b: Option<int>) {
    match direction
    case Asc => a.None? || (b.Some? && a.value <= b.value)
    case Desc => b.None? || (a.Some? && a.value >= b.value)
  }

  ghost predicate TextsFollow(direction: Direction, a: Option<string>, b: Option<string>) {
    match direction
    case Asc => a.None? || (b.Some? && AtMost(a.value, b.value))
    case Desc => b.None? || (a.Some? && AtMost(b.value, a.value))
  }

  function SizeOf(c: Tables, h: Hash): Option<int> { if h in c.files then Some(c.files[h]) else None }

  ghost function NameOf(c: Tables, h: Hash): Option<string> {
    match LatestObs(c, h) case None => None case Some(o) => Some(o.payload.filename)
  }

  ghost function SourcesOf(c: Tables, h: Hash): Option<int> {
    match LatestObs(c, h) case None => None case Some(o) => Some(o.payload.sources)
  }

  ghost function SeenOf(c: Tables, h: Hash): Option<string> {
    match LatestObs(c, h) case None => None case Some(o) => Some(o.stamp)
  }

  /** The file has a current decision of the tier. */
  ghost predicate Holds(c: Tables, h: Hash, tier: string) {
    exists d :: d in LatestDec(c) && d.hash == h && d.tier == tier
  }

  /** The strongest tier of `b` is none that `a` falls short of. */
  ghost predicate AtLeastAsStrong(c: Tables, a: Hash, b: Hash) {
    && (Holds(c, b, "download") ==> Holds(c, a, "download"))
    && (Holds(c, b, "notify") ==> Holds(c, a, "download") || Holds(c, a, "notify"))
    && (Holds(c, b, "catalog") ==> Holds(c, a, "download") || Holds(c, a, "notify") || Holds(c, a, "catalog"))
  }

  /** An earlier row of a listing does not come after a later one in the column chosen, in the direction chosen; rows
      alike in the column stand by hash. */
  lemma ListingSorts(c: Tables, rows: set<Hash>, column: SortColumn, direction: Direction, s: seq<Hash>, i: nat, j: nat)
    requires IsListing(c, rows, column, direction, s) && i < j < |s|
    ensures match column
      case BySize => NumbersFollow(direction, SizeOf(c, s[i]), SizeOf(c, s[j]))
      case ByName => TextsFollow(direction, NameOf(c, s[i]), NameOf(c, s[j]))
      case BySources => NumbersFollow(direction, SourcesOf(c, s[i]), SourcesOf(c, s[j]))
      case ByLastSeen => TextsFollow(direction, SeenOf(c, s[i]), SeenOf(c, s[j]))
      case ByTier => if direction == Desc then AtLeastAsStrong(c, s[i], s[j]) else AtLeastAsStrong(c, s[j], s[i])
    ensures (match column
      case BySize => SizeOf(c, s[i]) == SizeOf(c, s[j])
      case ByName => NameOf(c, s[i]) == NameOf(c, s[j])
      case BySources => SourcesOf(c, s[i]) == SourcesOf(c, s[j])
      case ByLastSeen => SeenOf(c, s[i]) == SeenOf(c, s[j])
      case ByTier => AtLeastAsStrong(c, s[i], s[j]) && AtLeastAsStrong(c, s[j], s[i])) ==> Below(s[i], s[j])
  {
    assert RowBelow(c, column, direction, s[i], s[j]);
    CellBelowIsStrictTotal(SortCell(c, column, s[i]), SortCell(c, column, s[j]), Null);
    if column == ByTier {
      TierCell(c, s[i]);
      TierCell(c, s[j]);
    }
  }

  /** The cell of the tier column: the strongest tier held. */
  lemma TierCell(c: Tables, h: Hash)
    ensures SortCell(c, ByTier, h) ==
      if Holds(c, h, "download") then Number(2)
      else if Holds(c, h, "notify") then Number(1)
      else if Holds(c, h, "catalog") then Number(0)
      else Null
  {
    RankOf(c, h, 2, "download");
    RankOf(c, h, 1, "notify");
    RankOf(c, h, 0, "catalog");
    forall a, b | IsBestRank(c, h, a) && IsBestRank(c, h, b) ensures a == b {
    }
    forall rank | IsBestRank(c, h, rank)
      ensures (rank == 2 && Holds(c, h, "download")) || (rank == 1 && Holds(c, h, "notify"))
           || (rank == 0 && Holds(c, h, "catalog"))
    {
      var d :| d in LatestDec(c) && d.hash == h && TierRank(d.tier) == Some(rank);
    }
  }

  lemma RankOf(c: Tables, h: Hash, rank: int, tier: string)
    requires (rank == 2 && tier == "download") || (rank == 1 && tier == "notify") || (rank == 0 && tier == "catalog")
    ensures
      (&& Holds(c, h, tier) && (rank < 2 ==> !Holds(c, h, "download")) && (rank < 1 ==> !Holds(c, h, "notify")))
      <==> IsBestRank(c, h, rank)
  {
    TierRanks(tier);
    forall d | d in LatestDec(c) && d.hash == h && TierRank(d.tier).Some?
      ensures d.tier == "download" || d.tier == "notify" || d.tier == "catalog"
    {
      TierRanks(d.tier);
    }
  }

  lemma TierRanks(tier: string)
    ensures TierRank(tier) == Some(2) <==> tier == "download"
    ensures TierRank(tier) == Some(1) <==> tier == "notify"
    ensures TierRank(tier) == Some(0) <==> tier == "catalog"
    ensures TierRank(tier).Some? ==> 0 <= TierRank(tier).value <= 2
  {
    assert "download"[0] == 'd' && "notify"[0] == 'n' && "catalog"[0] == 'c';
  }

  // ---------- pages ----------

  /** `LIMIT 50 OFFSET (page - 1) * 50`, pages counted from 1. */
  function Page<T>(s: seq<T>, page: nat): seq<T>
    requires page >= 1
  {
    var start := (page - 1) * PAGE_SIZE;
    if start >= |s| then [] else if start + PAGE_SIZE >= |s| then s[start..] else s[start..start + PAGE_SIZE]
  }

  /** A page holds at most fifty rows, those from its own offset on. */
  lemma PageRows<T>(s: seq<T>, page: nat, k: nat)
    requires page >= 1
    ensures |Page(s, page)| <= 50
    ensures k < 50 && (page - 1) * 50 + k < |s| ==> k < |Page(s, page)| && Page(s, page)[k] == s[(page - 1) * 50 + k]
  {
  }

  function PagesUpTo<T>(s: seq<T>, pages: nat): seq<T> {
    if pages == 0 then [] else PagesUpTo(s, pages - 1) + Page(s, pages)
  }

  lemma {:induction false} PagesArePrefix<T>(s: seq<T>, pages: nat)
    ensures PagesUpTo(s, pages) == if pages * PAGE_SIZE >= |s| then s else s[..pages * PAGE_SIZE]
  {
    if pages > 0 {
      PagesArePrefix(s, pages - 1);
    }
  }

  lemma ListingDistinct(c: Tables, rows: set<Hash>, column: SortColumn, direction: Direction, s: seq<Hash>)
    requires IsListing(c, rows, column, direction, s)
    ensures Distinct(s) && |s| == |rows|
  {
    RowBelowIsStrictTotal(c, column, direction);
    var lt := (a: Hash, b: Hash) => RowBelow(c, column, direction, a, b);
    forall i, j | 0 <= i < j < |s| ensures s[i] != s[j] {
      assert lt(s[i], s[j]) && !lt(s[i], s[i]);
    }
    DistinctMultiset(s);
    assert (set h | h in s) == rows;
  }

  /** Each page is cut from its own execution of the query. Put end to end, enough pages give every
      filtered file exactly once, in order. */
  lemma PagesPartition(c: Tables, rows: set<Hash>, column: SortColumn, direction: Direction,
                       executions: nat -> seq<Hash>, pages: nat)
    requires forall p :: IsListing(c, rows, column, direction, executions(p))
    requires pages * PAGE_SIZE >= |rows|
    ensures ConcatPages(executions, pages) == executions(0)
    ensures Distinct(ConcatPages(executions, pages)) && |ConcatPages(executions, pages)| == |rows|
    ensures forall h :: h in ConcatPages(executions, pages) <==> h in rows
  {
    forall p ensures executions(p) == executions(0) {
      ListingsAgree(c, rows, column, direction, executions(p), executions(0));
    }
    ConcatIsPagesUpTo(executions, executions(0), pages);
    ListingDistinct(c, rows, column, direction, executions(0));
    PagesArePrefix(executions(0), pages);
  }

  ghost function ConcatPages(executions: nat -> seq<Hash>, pages: nat): seq<Hash> {
    if pages == 0 then [] else ConcatPages(executions, pages - 1) + Page(executions(pages), pages)
  }

  lemma {:induction false} ConcatIsPagesUpTo(executions: nat -> seq<Hash>, s: seq<Hash>, pages: nat)
    requires forall p :: executions(p) == s
    ensures ConcatPages(executions, pages) == PagesUpTo(s, pages)
  {
    if pages > 0 {
      ConcatIsPagesUpTo(executions, s, pages - 1);
    }
  }

  /** The matched counter is the number of rows over all pages of the matched-only list. */
  lemma MatchedIsListed(c: Tables, like: (string, string) -> bool, f: Filters, column: SortColumn, direction: Direction,
                        executions: nat -> seq<Hash>, pages: nat)
    requires forall p :: IsListing(c, Filtered(c, like, f, true), column, direction, executions(p))
    requires pages * PAGE_SIZE >= |Filtered(c, like, f, true)|
    ensures CountFiles(c, like, f).matched == |ConcatPages(executions, pages)|
  {
    var rows := Filtered(c, like, f, false);
    assert (set h | h in rows && IsMatched(c, h)) == Filtered(c, like, f, true);
    PagesPartition(c, Filtered(c, like, f, true), column, direction, executions, pages);
  }

  // ---------- the decisions shown on a row ----------

  datatype FileDecision = FileDecision(target: string, tier: string)

  const UNIT_SEPARATOR := '\U{1F}'

  /** `zip(target_ids, tiers, strict=True)`: refused when the lists differ in length. */
  function Zip(targets: seq<string>, tiers: seq<string>): Option<seq<FileDecision>> {
    if |targets| != |tiers| then None
    else Some(seq(|targets|, i requires 0 <= i < |targets| => FileDecision(targets[i], tiers[i])))
  }

  function Targets(ds: seq<FileDecision>): seq<string> { seq(|ds|, i requires 0 <= i < |ds| => ds[i].target) }

  function Tiers(ds: seq<FileDecision>): seq<string> { seq(|ds|, i requires 0 <= i < |ds| => ds[i].tier) }

  /** Joining both columns with the unit separator and splitting them again gives the decisions back,
      aligned, exactly when no column value contains the separator. */
  lemma DecisionsRoundTrip(ds: seq<FileDecision>)
    requires ds != []
    ensures
      (Split(Join(Targets(ds), UNIT_SEPARATOR), UNIT_SEPARATOR) == Targets(ds)
        && Split(Join(Tiers(ds), UNIT_SEPARATOR), UNIT_SEPARATOR) == Tiers(ds))
      <==> forall i :: 0 <= i < |ds| ==> UNIT_SEPARATOR !in ds[i].target && UNIT_SEPARATOR !in ds[i].tier
    ensures Zip(Targets(ds), Tiers(ds)) == Some(ds)
  {
    SplitJoin(Targets(ds), UNIT_SEPARATOR);
    SplitJoin(Tiers(ds), UNIT_SEPARATOR);
    assert forall i :: 0 <= i < |ds| ==> Targets(ds)[i] == ds[i].target && Tiers(ds)[i] == ds[i].tier;
    assert Zip(Targets(ds), Tiers(ds)).value == ds;
  }
}
