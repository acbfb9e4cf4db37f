/** What compaction does to the names a file is judged on. */
module CompactedNames {
  import opened Buckets
  import opened Compaction
  import opened Matchers
  import opened Order
  import opened Pipeline

  // A re-evaluation reads the raw rows only (`known_filenames` of catalog_repository.py), so the names of rolled-up
  // rows are forgotten.

  /** `SELECT DISTINCT filename ... WHERE ed2k_hash = ?` */
  ghost predicate IsKnown(raw: seq<Observation>, h: Hash, name: string) {
    exists o :: o in raw && o.hash == h && o.filename == name
  }

  /** Every name of an old row of the hash is also that of a recent row. */
  ghost predicate NamesRecur(raw: seq<Observation>, cutoff: string, h: Hash) {
    forall o :: o in raw && o.hash == h && Below(o.observedAt, cutoff) ==> IsKnown(Recent(raw, cutoff), h, o.filename)
  }

  lemma {:induction false} RecentAre(raw: seq<Observation>, cutoff: string, o: Observation)
    ensures o in Recent(raw, cutoff) <==> o in raw && !Below(o.observedAt, cutoff)
  {
    SplitCounts(raw, cutoff, o);
    assert o in Recent(raw, cutoff) <==> o in multiset(Recent(raw, cutoff));
    assert o in raw <==> o in multiset(raw);
  }

  /** A compaction keeps the known names of a hash exactly when they recur after the cutoff. */
  lemma NamesAfterCompaction(raw: seq<Observation>, ranges: seq<Bucket>, cutoff: string,
                             raw': seq<Observation>, ranges': seq<Bucket>, added: seq<Bucket>, h: Hash)
    requires Compacts(raw, ranges, cutoff, raw', ranges', added)
    ensures (forall name :: IsKnown(raw', h, name) <==> IsKnown(raw, h, name)) <==> NamesRecur(raw, cutoff, h)
  {
    SameElements(raw', Recent(raw, cutoff));
    forall o ensures o in raw' <==> o in raw && !Below(o.observedAt, cutoff) {
      RecentAre(raw, cutoff, o);
    }
    assert forall name :: IsKnown(raw', h, name) <==> IsKnown(Recent(raw, cutoff), h, name);
    if forall name :: IsKnown(raw', h, name) <==> IsKnown(raw, h, name) {
      forall o | o in raw && o.hash == h && Below(o.observedAt, cutoff)
        ensures IsKnown(Recent(raw, cutoff), h, o.filename)
      {
        assert IsKnown(raw, h, o.filename);
      }
    }
    if NamesRecur(raw, cutoff, h) {
      forall name | IsKnown(raw, h, name) ensures IsKnown(raw', h, name) {
        var o :| o in raw && o.hash == h && o.filename == name;
        if !Below(o.observedAt, cutoff) {
          assert o in raw';
        }
      }
    }
  }

  /** The candidates of a hash: one per known name, alike in the other fields. */
  ghost predicate AreCandidates(raw: seq<Observation>, h: Hash, fields: Candidate, cs: seq<Candidate>) {
    forall c :: c in cs <==> c == fields.(filename := c.filename) && IsKnown(raw, h, c.filename)
  }

  /** When its names recur, a hash that had converged before a compaction has nothing to write after it. */
  lemma CompactionWritesNothing(raw: seq<Observation>, ranges: seq<Bucket>, cutoff: string,
                                raw': seq<Observation>, ranges': seq<Bucket>, added: seq<Bucket>, h: Hash,
                                fields: Candidate, log: J.Log, e: E.Engine, a: seq<Candidate>, b: seq<Candidate>,
                                ds: seq<E.Decision>, es: seq<E.Decision>)
    requires Compacts(raw, ranges, cutoff, raw', ranges', added) && NamesRecur(raw, cutoff, h)
    requires AreCandidates(raw, h, fields, a) && AreCandidates(raw', h, fields, b)
    requires e.Ready() && (forall t :: t in e.targets ==> E.Id(t) != "")
    requires E.Result(e, a, ds) && E.Result(e, b, es)
    requires J.Converged(log, h, ToJournal(E.Records(ds)))
    ensures J.EngineOutput(ToJournal(E.Records(es)))
    ensures J.Differing(log, h, ToJournal(E.Records(es))) == {}
  {
    NamesAfterCompaction(raw, ranges, cutoff, raw', ranges', added, h);
    assert E.SameNames(a, b);
    ReorderingWritesNothing(log, h, e, e, a, b, ds, es);
  }
}
