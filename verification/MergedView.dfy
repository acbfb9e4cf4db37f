/** The latest-decision view of a merged catalogue. Rows get local ids in the order of insertion, and ids break
    the ties of stamps. */
module MergedView {
  import opened Journal
  import opened Latest
  import opened Merge
  import opened Options
  import opened Order

  // ---------- the columns of match_decisions: target_id, rule_name, tier, decided_at, node_id ----------

  function Text(r: Row, i: nat): string {
    if i < |r.columns| && r.columns[i].Some? then r.columns[i].value else ""
  }

  function KeyOf(r: Row): Key { Key(r.hash, Text(r, 0)) }

  function VerdictOf(r: Row): Verdict { Verdict(Text(r, 1), Text(r, 2)) }

  function StampOf(r: Row): string { Text(r, 3) }

  function AsEntry(r: Row, id: int): Entry<Key, Verdict> { Entry(id, KeyOf(r), StampOf(r), VerdictOf(r)) }

  /** The columns of a decision row: target, rule, tier, stamp, node. */
  lemma DecisionColumns(hash: string, user: Option<string>, target: string, rule: string, tier: string, stamp: string,
                        node: Option<string>)
    ensures
      var r := Row(hash, user, [Some(target), Some(rule), Some(tier), Some(stamp), node]);
      KeyOf(r) == Key(hash, target) && VerdictOf(r) == Verdict(rule, tier) && StampOf(r) == stamp
  {
  }

  /** The journal as the view reads it. */
  function Entries(rows: seq<Row>): (log: Log)
    ensures |log| == |rows| && forall i :: 0 <= i < |rows| ==> log[i] == AsEntry(rows[i], i)
  {
    seq(|rows|, i requires 0 <= i < |rows| => AsEntry(rows[i], i))
  }

  function View(rows: seq<Row>, key: Key): Option<Verdict> { Current(Entries(rows), key.hash, key.target) }

  // ---------- without ties the order of the sources does not show ----------

  /** No row of the key has a later stamp. */
  ghost predicate IsTop(rows: seq<Row>, key: Key, r: Row) {
    r in rows && KeyOf(r) == key && forall q :: q in rows && KeyOf(q) == key ==> AtMost(StampOf(q), StampOf(r))
  }

  /** The rows of the key that share the latest stamp carry one verdict. */
  ghost predicate Untied(rows: seq<Row>, key: Key) {
    forall r, q :: IsTop(rows, key, r) && IsTop(rows, key, q) ==> VerdictOf(r) == VerdictOf(q)
  }

  lemma EntryOf(rows: seq<Row>, r: Row)
    requires r in rows
    ensures HasKey(Entries(rows), KeyOf(r))
  {
    var i :| 0 <= i < |rows| && rows[i] == r;
    assert Entries(rows)[i] in Entries(rows);
  }

  lemma RowOf(rows: seq<Row>, e: Entry<Key, Verdict>) returns (r: Row)
    requires e in Entries(rows)
    ensures r in rows && KeyOf(r) == e.key && StampOf(r) == e.stamp && VerdictOf(r) == e.payload
  {
    var i :| 0 <= i < |rows| && Entries(rows)[i] == e;
    r := rows[i];
  }

  /** No row of the key is stamped after the latest entry. */
  lemma LatestIsTop(rows: seq<Row>, key: Key, e: Entry<Key, Verdict>, q: Row)
    requires IsLatest(Entries(rows), key, e) && q in rows && KeyOf(q) == key
    ensures AtMost(StampOf(q), e.stamp)
  {
    var j :| 0 <= j < |rows| && rows[j] == q;
    assert Entries(rows)[j] in Entries(rows);
    assert Entries(rows)[j] == e || Later(e, Entries(rows)[j]);
  }

  lemma ViewIsTop(rows: seq<Row>, key: Key)
    ensures View(rows, key).Some? <==> exists r :: r in rows && KeyOf(r) == key
    ensures View(rows, key).Some? ==> exists r :: IsTop(rows, key, r) && View(rows, key) == Some(VerdictOf(r))
  {
    LatestOfIsLatest(Entries(rows), key);
    if r :| r in rows && KeyOf(r) == key {
      EntryOf(rows, r);
    }
    if View(rows, key).Some? {
      var e := LatestOf(Entries(rows), key).value;
      var r := RowOf(rows, e);
      forall q | q in rows && KeyOf(q) == key ensures AtMost(StampOf(q), StampOf(r)) {
        LatestIsTop(rows, key, e, q);
      }
      assert IsTop(rows, key, r);
    }
  }

  /** Journals of the same rows, in any order, have the same view of a key without ties. */
  lemma ViewOfUntied(a: seq<Row>, b: seq<Row>, key: Key)
    requires (forall r :: r in a <==> r in b) && Untied(a, key)
    ensures View(a, key) == View(b, key)
  {
    ViewIsTop(a, key);
    ViewIsTop(b, key);
    if View(a, key).Some? {
      var r :| IsTop(a, key, r) && View(a, key) == Some(VerdictOf(r));
      var q :| IsTop(b, key, q) && View(b, key) == Some(VerdictOf(q));
      assert IsTop(a, key, q);
    }
  }

  const DECISIONS := 2

  /** Merging sources in any order gives the same latest decisions, for every key without ties. */
  lemma MergedViewAgrees(d: Db, a: seq<Db>, b: seq<Db>, key: Key)
    requires AllSameSchema(d, a) && AllSameSchema(d, b) && (forall s :: s in a <==> s in b)
    requires Untied(MergeAll(d, a).journals[DECISIONS], key)
    ensures View(MergeAll(d, a).journals[DECISIONS], key) == View(MergeAll(d, b).journals[DECISIONS], key)
  {
    MergeOrderIndependent(d, a, b, DECISIONS);
    ViewOfUntied(MergeAll(d, a).journals[DECISIONS], MergeAll(d, b).journals[DECISIONS], key);
  }

  // ---------- with a tie it does ----------

  lemma EntriesSnoc(rows: seq<Row>, r: Row)
    ensures Entries(rows + [r]) == Entries(rows) + [AsEntry(r, |rows|)]
  {
  }

  /** What a row merged last does to the view of its key. */
  lemma ViewSnoc(rows: seq<Row>, r: Row, key: Key)
    ensures View(rows + [r], key) ==
      if KeyOf(r) == key && Wins(rows, r) then Some(VerdictOf(r)) else View(rows, key)
    ensures LatestStamp(rows + [r], key) ==
      if KeyOf(r) == key && Wins(rows, r) then Some(StampOf(r)) else LatestStamp(rows, key)
  {
    EntriesSnoc(rows, r);
    assert Key(key.hash, key.target) == key;
    AppendedIsLatest(Entries(rows), AsEntry(r, |rows|));
    var log, e := Entries(rows), AsEntry(r, |rows|);
    assert (log + [e])[..|log|] == log;
  }

  function LatestStamp(rows: seq<Row>, key: Key): Option<string> {
    match LatestOf(Entries(rows), key)
    case None => None
    case Some(e) => Some(e.stamp)
  }

  /** `r`, inserted after `rows`, becomes the latest of its key. */
  predicate Wins(rows: seq<Row>, r: Row) {
    var latest := LatestStamp(rows, KeyOf(r));
    latest.None? || AtMost(latest.value, StampOf(r))
  }

  lemma MergeOneRow(rows: seq<Row>, r: Row)
    requires r !in rows
    ensures MergeJournal(rows, [r]) == rows + [r]
  {
    HasTwinIsMember(rows, r);
    assert [r][..0] == [];
    assert NewRows(rows, [r]) == [r];
  }

  /** Two sources of one row each show the same decision in both orders, unless the two rows tie at the latest stamp
      of one key with different verdicts. */
  lemma TwoSourcesAgree(d: seq<Row>, r: Row, q: Row)
    requires r !in d && q !in d && r != q
    ensures
      View(MergeJournal(MergeJournal(d, [r]), [q]), KeyOf(r)) == View(MergeJournal(MergeJournal(d, [q]), [r]), KeyOf(r))
      <==> !(KeyOf(q) == KeyOf(r) && StampOf(q) == StampOf(r) && Wins(d, r) && VerdictOf(q) != VerdictOf(r))
  {
    MergeOneRow(d, r);
    MergeOneRow(d, q);
    MergeOneRow(d + [r], q);
    MergeOneRow(d + [q], r);
    var key := KeyOf(r);
    ViewSnoc(d, r, key);
    ViewSnoc(d, q, key);
    ViewSnoc(d + [r], q, key);
    ViewSnoc(d + [q], r, key);
    if KeyOf(q) == key {
      StampCases(LatestStamp(d, key), StampOf(r), StampOf(q));
    }
  }

  /** How two stamps and the latest so far can lie. */
  lemma StampCases(latest: Option<string>, a: string, b: string)
    ensures AtMost(a, b) || AtMost(b, a)
    ensures AtMost(a, b) && AtMost(b, a) ==> a == b
    ensures latest.Some? && AtMost(latest.value, a) && AtMost(a, b) ==> AtMost(latest.value, b)
    ensures latest.Some? && AtMost(latest.value, b) && AtMost(b, a) ==> AtMost(latest.value, a)
  {
    BelowTotal(a, b);
    AtMostAntisymmetric(a, b);
    AtMostIsTotal();
  }
}
