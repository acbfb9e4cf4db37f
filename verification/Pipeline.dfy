/** From the engine's result to the journal: what `evaluate_all` returns is what the set-diff expects. */
module Pipeline {
  import opened Config
  import E = Engine
  import J = Journal
  import opened Matchers
  import opened Order

  function TierName(tier: Tier): string {
    match tier
    case Catalog => "catalog"
    case Notify => "notify"
    case Download => "download"
  }

  /** The three tiers are written under their names: the one the download loop selects is that of Download, none is the
      retraction tier, and no two are alike. */
  lemma TierNames(tier: Tier)
    ensures TierName(tier) == "catalog" || TierName(tier) == "notify" || TierName(tier) == "download"
    ensures TierName(tier) == "catalog" <==> tier.Catalog?
    ensures TierName(tier) == "notify" <==> tier.Notify?
    ensures TierName(tier) == J.DOWNLOAD <==> tier.Download?
    ensures J.DOWNLOAD == "download" && J.RETRACTED == "retracted" != TierName(tier)
    ensures J.RETRACTION == J.Verdict("", "retracted")
  {
    assert "download"[0] == 'd' && "notify"[0] == 'n' && "catalog"[0] == 'c' && "retracted"[0] == 'r';
  }

  /** `to_record`, keyed by target. */
  function ToJournal(rs: seq<E.Record>): (ds: seq<J.Decision>)
    ensures |ds| == |rs|
    ensures forall i :: 0 <= i < |rs| ==>
      ds[i] == J.Decision(rs[i].targetId, J.Verdict(rs[i].ruleName, TierName(rs[i].tier)))
  {
    seq(|rs|, i requires 0 <= i < |rs| => J.Decision(rs[i].targetId, J.Verdict(rs[i].ruleName, TierName(rs[i].tier))))
  }

  /** The engine emits one decision per target, for real targets, and never a retraction. */
  lemma EngineFeedsJournal(e: E.Engine, names: seq<Candidate>, ds: seq<E.Decision>)
    requires e.Ready() && E.Result(e, names, ds)
    requires forall t :: t in e.targets ==> E.Id(t) != ""
    ensures J.EngineOutput(ToJournal(E.Records(ds)))
  {
    forall i, j | 0 <= i < j < |ds| ensures ds[i].targetId != ds[j].targetId {
      BelowIrreflexive(ds[i].targetId);
    }
    forall i | 0 <= i < |ds| ensures ds[i].targetId != "" {
      assert ds[i] in ds;
      assert E.Justified(e, names, ds[i]);
    }
  }

  /** Evaluating again with the names or the targets in another order finds nothing to write. */
  lemma ReorderingWritesNothing(log: J.Log, h: J.Hash, e: E.Engine, f: E.Engine, a: seq<Candidate>, b: seq<Candidate>,
                                ds: seq<E.Decision>, es: seq<E.Decision>)
    requires e.Ready() && f.Ready() && E.SameTargets(e, f) && E.SameNames(a, b)
    requires E.Result(e, a, ds) && E.Result(f, b, es)
    requires forall t :: t in f.targets ==> E.Id(t) != ""
    requires J.Converged(log, h, ToJournal(E.Records(ds)))
    ensures J.EngineOutput(ToJournal(E.Records(es)))
    ensures J.Differing(log, h, ToJournal(E.Records(es))) == {}
  {
    E.RecordsOrderIndependent(e, f, a, b, ds, es);
    EngineFeedsJournal(f, b, es);
    forall t ensures t !in J.Differing(log, h, ToJournal(E.Records(es))) {
      J.DifferingAre(log, h, ToJournal(E.Records(es)), t);
      assert t != "" ==> J.Live(log, h, t) == J.VerdictFor(ToJournal(E.Records(ds)), t);
    }
  }
}
