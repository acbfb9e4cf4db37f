/** What one more filename does to the tier emitted for a file. */
module AddedNames {
  import opened Config
  import opened Engine
  import opened Graph
  import opened Matchers
  import opened Options
  import opened Order
  import opened Resolver
  import opened Validation

  // More names never lower a target's best rule, but attribution and the episode cut can drop the target that
  // carries it (catalog_matching/engine.py).

  // ---------- the best rule of a target with one more name ----------

  /** Rule `i` is the best of `t` once `c` is added: `c` fires it first and the best so far does not beat it, or it
      was the best and the rule `c` fires first does not beat it. */
  ghost predicate NowBest(p: Policy, names: seq<Candidate>, c: Candidate, t: ResolvedTarget, i: nat)
    requires p.Resolves(t)
  {
    && i < |p.rules|
    && ((FiredBy(p, t, c, i) && Unbeaten(p, names, t, i))
        || (IsBest(p, names, t, i) && forall j :: 0 <= j < |p.rules| && FiredBy(p, t, c, j) ==> !Better(p, j, i)))
  }

  ghost predicate Unbeaten(p: Policy, names: seq<Candidate>, t: ResolvedTarget, i: nat)
    requires p.Resolves(t) && i < |p.rules|
  {
    forall j :: 0 <= j < |p.rules| && IsBest(p, names, t, j) ==> !Better(p, j, i)
  }

  lemma BetterOrder(p: Policy, i: nat, j: nat, k: nat)
    requires i < |p.rules| && j < |p.rules| && k < |p.rules|
    ensures Better(p, i, j) && Better(p, j, k) ==> Better(p, i, k)
    ensures i == j || Better(p, i, j) || Better(p, j, i)
    ensures !(Better(p, i, j) && Better(p, j, i))
  {
  }

  /** A target some kept name fires a rule of has a best rule, at least as good as any of these. */
  lemma {:induction false} BestExists(p: Policy, names: seq<Candidate>, t: ResolvedTarget, i: nat) returns (b: nat)
    requires p.Resolves(t) && i < |p.rules| && Reached(p, names, t, i)
    ensures IsBest(p, names, t, b) && (b == i || Better(p, b, i))
  {
    b := i;
    var j := 0;
    while j < |p.rules|
      invariant j <= |p.rules| && b < |p.rules| && Reached(p, names, t, b) && (b == i || Better(p, b, i))
      invariant forall k :: 0 <= k < j && Reached(p, names, t, k) ==> !Better(p, k, b)
    {
      if Reached(p, names, t, j) && Better(p, j, b) {
        BetterOrder(p, j, b, i);
        forall k | 0 <= k < j && Reached(p, names, t, k) ensures !Better(p, k, j) {
          BetterOrder(p, k, j, b);
        }
        b := j;
      }
      j := j + 1;
    }
  }

  lemma NowBestIsBest(p: Policy, names: seq<Candidate>, c: Candidate, t: ResolvedTarget, i: nat)
    requires p.Resolves(t)
    ensures IsBest(p, names + [c], t, i) <==> NowBest(p, names, c, t, i)
  {
    forall j: nat ensures Reached(p, names + [c], t, j) <==> Reached(p, names, t, j) || FiredBy(p, t, c, j) {
      ReachedSnoc(p, names, c, t, j);
    }
    if NowBest(p, names, c, t, i) && FiredBy(p, t, c, i) {
      forall j | 0 <= j < |p.rules| && Reached(p, names, t, j) ensures !Better(p, j, i) || IsBest(p, names, t, i) {
        var b := BestExists(p, names, t, j);
        BetterOrder(p, b, j, i);
      }
    }
  }

  // ---------- the best emitted tier ----------

  function TierOf(p: Policy, i: nat): nat
    requires i < |p.rules|
  {
    Rank(p.rules[i].tier)
  }

  /** The highest tier among the decisions. */
  function BestTier(ds: seq<Decision>): nat
    requires ds != []
  {
    if |ds| == 1 then Rank(ds[0].tier)
    else
      var front, last := BestTier(ds[..|ds| - 1]), Rank(ds[|ds| - 1].tier);
      if last > front then last else front
  }

  lemma {:induction false} BestTierIsMax(ds: seq<Decision>)
    requires ds != []
    ensures exists d :: d in ds && Rank(d.tier) == BestTier(ds)
    ensures forall d :: d in ds ==> Rank(d.tier) <= BestTier(ds)
  {
    if |ds| > 1 {
      var front, last := ds[..|ds| - 1], ds[|ds| - 1];
      BestTierIsMax(front);
      assert ds == front + [last];
      var d :| d in front && Rank(d.tier) == BestTier(front);
      assert d in ds && last in ds;
    } else {
      assert ds[0] in ds;
    }
  }

  /** The tier is that of a decided target, and no decided target has a higher one. */
  ghost predicate IsTopTier(e: Engine, names: seq<Candidate>, m: nat)
    requires e.Ready()
  {
    && (exists t, i: nat :: t in e.targets && Decided(e, names, t, i) && TierOf(e.policy, i) == m)
    && forall t, i: nat :: t in e.targets && Decided(e, names, t, i) ==> TierOf(e.policy, i) <= m
  }

  lemma TopTierOf(e: Engine, names: seq<Candidate>, ds: seq<Decision>)
    requires e.Ready() && Result(e, names, ds) && ds != []
    ensures IsTopTier(e, names, BestTier(ds))
  {
    BestTierIsMax(ds);
    var d :| d in ds && Rank(d.tier) == BestTier(ds);
    assert Justified(e, names, d);
    forall t, i: nat | t in e.targets && Decided(e, names, t, i) ensures TierOf(e.policy, i) <= BestTier(ds) {
      assert Answered(e, names, ds, t, i);
    }
  }

  // ---------- when it falls ----------

  /** With `c` added, the best rule `i` of `t` does not get `t` emitted while anything is attributed: it is a
      catch-all, or an episode-level rule in an episode where another target's best is segment-level. */
  ghost predicate Overshadowed(e: Engine, names: seq<Candidate>, c: Candidate, t: ResolvedTarget, i: nat)
    requires e.Ready() && i < |e.policy.rules|
  {
    || e.policy.rules[i].name !in ATTRIBUTABLE
    || (e.policy.rules[i].name !in SEGMENT_LEVEL && SegmentNow(e, names, c, Episode(t)))
  }

  ghost predicate SegmentNow(e: Engine, names: seq<Candidate>, c: Candidate, episode: int)
    requires e.Ready()
  {
    exists u, j: nat :: u in e.targets && Episode(u) == episode
      && NowBest(e.policy, names, c, u, j) && e.policy.rules[j].name in SEGMENT_LEVEL
  }

  ghost predicate AttributedNow(e: Engine, names: seq<Candidate>, c: Candidate)
    requires e.Ready()
  {
    exists t, i: nat :: t in e.targets && NowBest(e.policy, names, c, t, i) && e.policy.rules[i].name in ATTRIBUTABLE
  }

  /** Something is attributed, and every target whose best rule keeps the tier `m` is overshadowed. */
  ghost predicate TierFalls(e: Engine, names: seq<Candidate>, c: Candidate, m: nat)
    requires e.Ready()
  {
    && AttributedNow(e, names, c)
    && forall t, i: nat :: t in e.targets && NowBest(e.policy, names, c, t, i) && TierOf(e.policy, i) >= m ==>
         Overshadowed(e, names, c, t, i)
  }

  /** What the engine decides with `c` added, read off the rules `c` fires first. */
  lemma DecidedNow(e: Engine, names: seq<Candidate>, c: Candidate)
    requires e.Ready()
    ensures AnyAttributable(e, names + [c]) <==> AttributedNow(e, names, c)
    ensures forall t, i: nat :: t in e.targets && Decided(e, names + [c], t, i) ==> NowBest(e.policy, names, c, t, i)
    ensures AttributedNow(e, names, c) ==>
      forall t, i: nat :: t in e.targets && NowBest(e.policy, names, c, t, i) ==>
        (Decided(e, names + [c], t, i) <==> !Overshadowed(e, names, c, t, i))
  {
    forall t, i: nat | t in e.targets
      ensures IsBest(e.policy, names + [c], t, i) <==> NowBest(e.policy, names, c, t, i)
    {
      NowBestIsBest(e.policy, names, c, t, i);
    }
    forall episode ensures EpisodeHasSegment(e, names + [c], episode) <==> SegmentNow(e, names, c, episode) {
    }
  }

  /** No best rule of the first `n` targets wins over `t` with rule `i`. */
  ghost predicate Unbeatable(e: Engine, names: seq<Candidate>, n: nat, t: ResolvedTarget, i: nat)
    requires e.Ready() && n <= |e.targets| && i < |e.policy.rules|
  {
    forall k, j: nat :: 0 <= k < n && IsBest(e.policy, names, e.targets[k], j) ==> !Wins(e, e.targets[k], j, t, i)
  }

  ghost predicate HasBest(e: Engine, names: seq<Candidate>, k: nat)
    requires e.Ready() && k < |e.targets|
  {
    exists j: nat :: IsBest(e.policy, names, e.targets[k], j)
  }

  /** Some target with a best rule is unbeatable, if there is one at all. */
  lemma {:induction false} WinnerExists(e: Engine, names: seq<Candidate>, n: nat) returns (w: nat, i: nat)
    requires e.Ready() && 0 < n <= |e.targets| && exists k :: 0 <= k < n && HasBest(e, names, k)
    ensures w < n && IsBest(e.policy, names, e.targets[w], i) && Unbeatable(e, names, n, e.targets[w], i)
    decreases n
  {
    var last := n - 1;
    if exists k :: 0 <= k < last && HasBest(e, names, k) {
      w, i := WinnerExists(e, names, last);
      w, i := Challenge(e, names, n, w, i);
    } else {
      assert HasBest(e, names, last);
      w := last;
      i :| IsBest(e.policy, names, e.targets[last], i);
      forall k, j: nat | 0 <= k < n && IsBest(e.policy, names, e.targets[k], j)
        ensures !Wins(e, e.targets[k], j, e.targets[last], i)
      {
        assert HasBest(e, names, k);
        BestUnique(e.policy, names, e.targets[last], i, j);
        BelowIrreflexive(Id(e.targets[last]));
      }
    }
  }

  /** The last target takes over if its best rule wins. */
  lemma Challenge(e: Engine, names: seq<Candidate>, n: nat, w: nat, i: nat) returns (w': nat, i': nat)
    requires e.Ready() && 0 < n <= |e.targets| && w < n - 1
    requires IsBest(e.policy, names, e.targets[w], i) && Unbeatable(e, names, n - 1, e.targets[w], i)
    ensures w' < n && IsBest(e.policy, names, e.targets[w'], i') && Unbeatable(e, names, n, e.targets[w'], i')
  {
    var last := e.targets[n - 1];
    w', i' := w, i;
    if b: nat :| IsBest(e.policy, names, last, b) && Wins(e, last, b, e.targets[w], i) {
      LastWins(e, names, n, e.targets[w], i, b);
      w', i' := n - 1, b;
    }
  }

  lemma LastWins(e: Engine, names: seq<Candidate>, n: nat, t: ResolvedTarget, i: nat, b: nat)
    requires e.Ready() && 0 < n <= |e.targets| && i < |e.policy.rules| && Unbeatable(e, names, n - 1, t, i)
    requires IsBest(e.policy, names, e.targets[n - 1], b) && Wins(e, e.targets[n - 1], b, t, i)
    ensures Unbeatable(e, names, n, e.targets[n - 1], b)
  {
    var last := e.targets[n - 1];
    forall k, j: nat | 0 <= k < n && IsBest(e.policy, names, e.targets[k], j)
      ensures !Wins(e, e.targets[k], j, last, b)
    {
      if k < n - 1 {
        WinsOrder(e, e.targets[k], j, last, b, t, i);
      } else {
        BestUnique(e.policy, names, last, j, b);
        BelowIrreflexive(Id(last));
      }
    }
  }

  lemma WinsOrder(e: Engine, t: ResolvedTarget, i: nat, u: ResolvedTarget, j: nat, v: ResolvedTarget, k: nat)
    requires i < |e.policy.rules| && j < |e.policy.rules| && k < |e.policy.rules|
    ensures Wins(e, t, i, u, j) && Wins(e, u, j, v, k) ==> Wins(e, t, i, v, k)
  {
    if Below(Id(t), Id(u)) && Below(Id(u), Id(v)) {
      BelowTransitive(Id(t), Id(u), Id(v));
    }
  }

  /** A file with a best rule for some target is always emitted; unless something is attributed, at least with the
      tier of that rule. */
  lemma SomethingDecided(e: Engine, names: seq<Candidate>, t: ResolvedTarget, i: nat)
    returns (u: ResolvedTarget, j: nat)
    requires e.Ready() && t in e.targets && IsBest(e.policy, names, t, i)
    ensures u in e.targets && Decided(e, names, u, j)
    ensures !AnyAttributable(e, names) ==> TierOf(e.policy, j) >= TierOf(e.policy, i)
  {
    if AnyAttributable(e, names) {
      u, j :| u in e.targets && IsBest(e.policy, names, u, j) && e.policy.rules[j].name in ATTRIBUTABLE;
      if e.policy.rules[j].name !in SEGMENT_LEVEL && EpisodeHasSegment(e, names, Episode(u)) {
        var episode := Episode(u);
        u, j :| u in e.targets && Episode(u) == episode && IsBest(e.policy, names, u, j)
          && e.policy.rules[j].name in SEGMENT_LEVEL;
      }
    } else {
      var k :| 0 <= k < |e.targets| && e.targets[k] == t;
      assert HasBest(e, names, k);
      var w;
      w, j := WinnerExists(e, names, |e.targets|);
      u := e.targets[w];
      assert !Wins(e, e.targets[k], i, u, j);
    }
  }

  /** Adding a name never silences a file; and the best tier it is emitted with falls exactly when, with the rules
      the added name fires first, something is attributed and whatever keeps the tier is overshadowed. */
  lemma AddedName(e: Engine, names: seq<Candidate>, c: Candidate, ds: seq<Decision>, es: seq<Decision>)
    requires e.Ready() && ds != []
    requires Result(e, names, ds) && Result(e, names + [c], es)
    ensures es != []
    ensures BestTier(es) < BestTier(ds) <==> TierFalls(e, names, c, BestTier(ds))
  {
    var m := BestTier(ds);
    TopTierOf(e, names, ds);
    var t, i: nat :| t in e.targets && Decided(e, names, t, i) && TierOf(e.policy, i) == m;
    ReachedSnoc(e.policy, names, c, t, i);
    var b := BestExists(e.policy, names + [c], t, i);
    var u, j := SomethingDecided(e, names + [c], t, b);
    assert Answered(e, names + [c], es, u, j);
    TopTierOf(e, names + [c], es);
    DecidedNow(e, names, c);
    if AttributedNow(e, names, c) {
      FallsWhenDecidedBelow(e, names, c, m, BestTier(es));
    }
  }

  lemma FallsWhenDecidedBelow(e: Engine, names: seq<Candidate>, c: Candidate, m: nat, top: nat)
    requires e.Ready() && AttributedNow(e, names, c) && IsTopTier(e, names + [c], top)
    requires forall t, i: nat :: t in e.targets && Decided(e, names + [c], t, i) ==> NowBest(e.policy, names, c, t, i)
    requires forall t, i: nat :: t in e.targets && NowBest(e.policy, names, c, t, i) ==>
      (Decided(e, names + [c], t, i) <==> !Overshadowed(e, names, c, t, i))
    ensures top < m <==> TierFalls(e, names, c, m)
  {
    var t, i: nat :| t in e.targets && Decided(e, names + [c], t, i) && TierOf(e.policy, i) == top;
    assert NowBest(e.policy, names, c, t, i) && !Overshadowed(e, names, c, t, i);
  }

  // ---------- two ways for the tier to fall ----------

  function Named(filename: string): Candidate { Candidate(filename, None, None, None) }

  /** A token table of two leaves: the target's title as a regex, and the keyword "b". */
  const TOKENS: map<string, TokenDef> := map["title" := Regex("{title}", ""), "marker" := Keyword("b")]

  /** The title, and not the keyword. */
  const UNMARKED := Condition.All([Bare("title"), Inline(Condition.Not(Bare("marker")))])

  /** The title, and the keyword. */
  const MARKED := Condition.All([Bare("title"), Bare("marker")])

  function TwoRules(first: string, high: Tier, second: string, low: Tier): MatcherConfig {
    MatcherConfig(["title", "marker"], TOKENS, [Rule(first, high, UNMARKED), Rule(second, low, MARKED)])
  }

  /** Two segments, titled "a" and "b", of one episode or of two. */
  function Segments(episode: int): seq<Target>
    requires episode == 1 || episode == 2
  {
    [Target(1, 1, 1, "a", "a", "lost", "001A"),
     Target(1, episode, episode, "b", "b", "lost", if episode == 1 then "001B" else "002B")]
  }

  /** What any regex engine and any keyword search say of one-letter patterns and one-letter names. */
  ghost predicate OneLetterOps(ops: TextOps) {
    && (forall t: Target :: t.title == "a" || t.title == "b" ==> ops.interpolate("{title}", t) == t.title)
    && ops.regex("a", "", "a") && ops.regex("b", "", "b") && !ops.regex("a", "", "b") && !ops.regex("b", "", "a")
    && ops.keyword("b", "b") && !ops.keyword("b", "a")
  }

  lemma NamesOf(first: string, high: Tier, second: string, low: Tier, i: nat)
    requires i < 2
    ensures
      var config := TwoRules(first, high, second, low);
      && ConditionRefs(config.rules[i].condition) == ["title", "marker"]
      && ConditionTokenRefs(config.rules[i].condition) == []
  {
    var os := TwoRules(first, high, second, low).rules[i].condition.operands;
    assert os[1..][1..] == [] && os[1..][0] == os[1];
    assert OperandRefs(os[0]) == ["title"] && OperandRefs(os[1]) == ["marker"];
    assert OperandsRefs(os[1..]) == ["marker"] + OperandsRefs(os[1..][1..]);
    assert OperandTokenRefs(os[0]) == [] && OperandTokenRefs(os[1]) == [];
    assert OperandsTokenRefs(os[1..]) == [] + OperandsTokenRefs(os[1..][1..]);
  }

  /** The configuration is one that validation accepts. */
  lemma TwoRulesValid(first: string, high: Tier, second: string, low: Tier, maxDepth: int,
                      compiles: (string, string) -> bool)
    requires maxDepth >= 1 && compiles("{title}", "")
    ensures TwoRules(first, high, second, low).IsTable()
    ensures Valid(TwoRules(first, high, second, low), maxDepth, compiles)
  {
    var config := TwoRules(first, high, second, low);
    forall i | 0 <= i < 2
      ensures AllKnown(config, config.rules[i].condition) && OverridesLegal(config, config.rules[i].condition)
    {
      NamesOf(first, high, second, low, i);
      KnownRefs(config, config.rules[i].condition);
      LegalRefs(config, config.rules[i].condition);
    }
    forall p | Chain(GraphOf(config), p) ensures |p| <= 1 {
      var from, to := p[0], p[if |p| > 1 then 1 else 0];
    }
  }

  lemma SegmentsDiffer(episode: int)
    requires episode == 1 || episode == 2
    ensures Segments(episode)[0].id != Segments(episode)[1].id
  {
    assert Segments(episode)[0].id[3] != Segments(episode)[1].id[3];
  }

  lemma TwoRulesReady(ops: TextOps, first: string, high: Tier, second: string, low: Tier, episode: int)
    requires first != second && (episode == 1 || episode == 2)
    ensures Resolvable(TwoRules(first, high, second, low))
    ensures ForConfig(ops, TwoRules(first, high, second, low), Segments(episode), 10).Ready()
  {
    var config := TwoRules(first, high, second, low);
    TwoRulesValid(first, high, second, low, 1, (p, f) => true);
    ValidIsResolvable(config, 1, (p, f) => true);
    SegmentsDiffer(episode);
    EngineReady(ops, config, Segments(episode), 10);
  }

  function EngineOf(ops: TextOps, first: string, high: Tier, second: string, low: Tier, episode: int): (e: Engine)
    requires first != second && (episode == 1 || episode == 2)
    ensures e.Ready()
  {
    TwoRulesReady(ops, first, high, second, low, episode);
    ForConfig(ops, TwoRules(first, high, second, low), Segments(episode), 10)
  }

  /** The first rule fires for "a" on the first target only, the second for "b" on the second target only. */
  ghost predicate Crossed(e: Engine) {
    && e.Ready() && |e.targets| == 2 && |e.policy.rules| == 2
    && (forall i: nat :: FiredBy(e.policy, e.targets[0], Named("a"), i) <==> i == 0)
    && (forall i: nat :: FiredBy(e.policy, e.targets[1], Named("b"), i) <==> i == 1)
    && (forall i: nat :: !FiredBy(e.policy, e.targets[1], Named("a"), i))
    && (forall i: nat :: !FiredBy(e.policy, e.targets[0], Named("b"), i))
  }

  /** Rule `i` fires for a name on a target when the name is the title, and is "b" exactly for the second rule. */
  lemma TwoRulesRead(ops: TextOps, first: string, high: Tier, second: string, low: Tier, episode: int,
                     k: nat, name: string, i: nat)
    requires OneLetterOps(ops) && first != second && (episode == 1 || episode == 2)
    requires k < 2 && i < 2 && (name == "a" || name == "b")
    ensures
      var e := EngineOf(ops, first, high, second, low, episode);
      && |e.targets| == 2
      && (Fires(e.policy, e.targets[k], Named(name), i) <==>
            name == Segments(episode)[k].title && (i == 1 <==> name == "b"))
  {
    var config, targets := TwoRules(first, high, second, low), Segments(episode);
    TwoRulesReady(ops, first, high, second, low, episode);
    var reading := ReadingOf(targets[k], name);
    TableReads(ops, config, targets[k], name);
    SegmentsDiffer(episode);
    EngineReadsTable(ops, config, targets, 10, k, Named(name), i, reading);
    ConditionsRead(ops, first, high, second, low, targets[k], name, i);
  }

  /** What the two tokens say of a name: it is the title; it is "b". */
  function ReadingOf(target: Target, name: string): Reading {
    map["title" := name == target.title, "marker" := name == "b"]
  }

  lemma TableReads(ops: TextOps, config: MatcherConfig, target: Target, name: string)
    requires OneLetterOps(ops) && config.tokens == TOKENS && ReferencesExist(config)
    requires (name == "a" || name == "b") && (target.title == "a" || target.title == "b")
    ensures Consistent(ops, config, ReadingOf(target, name), target, Named(name))
  {
    assert ops.interpolate("{title}", target) == target.title;
  }

  lemma ConditionsRead(ops: TextOps, first: string, high: Tier, second: string, low: Tier, target: Target,
                       name: string, i: nat)
    requires i < 2 && Known(TwoRules(first, high, second, low), ConditionRefs([UNMARKED, MARKED][i]))
    ensures ConditionHolds(ops, TwoRules(first, high, second, low), ReadingOf(target, name), [UNMARKED, MARKED][i],
                           target, Named(name))
        <==> name == target.title && (i == 1 <==> name == "b")
  {
    var config, reading, os := TwoRules(first, high, second, low), ReadingOf(target, name),
                               [UNMARKED, MARKED][i].operands;
    OperandsKnown(config, os);
    assert OperandHolds(ops, config, reading, os[0], target, Named(name)) == (name == target.title);
    assert OperandHolds(ops, config, reading, os[1], target, Named(name)) == (i == 1 <==> name == "b");
  }

  lemma TwoRulesCross(ops: TextOps, first: string, high: Tier, second: string, low: Tier, episode: int)
    requires OneLetterOps(ops) && first != second && (episode == 1 || episode == 2)
    ensures Crossed(EngineOf(ops, first, high, second, low, episode))
  {
    var e := EngineOf(ops, first, high, second, low, episode);
    forall k: nat, i: nat | k < 2 && i < 2
      ensures |e.targets| == 2
      ensures Fires(e.policy, e.targets[k], Named("a"), i) <==> k == 0 && i == 0
      ensures Fires(e.policy, e.targets[k], Named("b"), i) <==> k == 1 && i == 1
    {
      TwoRulesRead(ops, first, high, second, low, episode, k, "a", i);
      TwoRulesRead(ops, first, high, second, low, episode, k, "b", i);
    }
    assert Fires(e.policy, e.targets[0], Named("a"), 0) && Fires(e.policy, e.targets[1], Named("b"), 1);
  }

  /** Known as "a" only, the file gets the first rule on the first target. */
  lemma CrossedBests(e: Engine)
    requires Crossed(e)
    ensures forall i: nat :: IsBest(e.policy, [Named("a")], e.targets[0], i) <==> i == 0
    ensures forall i: nat :: !IsBest(e.policy, [Named("a")], e.targets[1], i)
    ensures forall i: nat :: NowBest(e.policy, [Named("a")], Named("b"), e.targets[0], i) <==> i == 0
    ensures forall i: nat :: NowBest(e.policy, [Named("a")], Named("b"), e.targets[1], i) <==> i == 1
  {
    forall k, i: nat | 0 <= k < 2
      ensures Reached(e.policy, [Named("a")], e.targets[k], i) <==>
        FiredBy(e.policy, e.targets[k], Named("a"), i)
    {
      assert [Named("a")][0] == Named("a");
    }
  }

  lemma CrossedDecides(e: Engine, t: ResolvedTarget, i: nat)
    requires Crossed(e) && t in e.targets && Decided(e, [Named("a")], t, i)
    ensures i == 0
  {
    CrossedBests(e);
    assert IsBest(e.policy, [Named("a")], t, i);
  }

  lemma CrossedStart(e: Engine, ds: seq<Decision>)
    requires Crossed(e) && Result(e, [Named("a")], ds)
    ensures ds != [] && BestTier(ds) == TierOf(e.policy, 0)
  {
    CrossedBests(e);
    var u, j := SomethingDecided(e, [Named("a")], e.targets[0], 0);
    assert Answered(e, [Named("a")], ds, u, j);
    TopTierOf(e, [Named("a")], ds);
    var t, i: nat :| t in e.targets && Decided(e, [Named("a")], t, i) && TierOf(e.policy, i) == BestTier(ds);
    CrossedDecides(e, t, i);
  }

  lemma SecondOvershadows(e: Engine, names: seq<Candidate>, c: Candidate)
    requires e.Ready() && |e.targets| == 2 && |e.policy.rules| == 2
    requires forall i: nat :: NowBest(e.policy, names, c, e.targets[0], i) <==> i == 0
    requires forall i: nat :: NowBest(e.policy, names, c, e.targets[1], i) <==> i == 1
    requires TierOf(e.policy, 1) < TierOf(e.policy, 0) && e.policy.rules[1].name in ATTRIBUTABLE
    requires
      var first, second := e.policy.rules[0].name, e.policy.rules[1].name;
      || first !in ATTRIBUTABLE
      || (first !in SEGMENT_LEVEL && second in SEGMENT_LEVEL && Episode(e.targets[0]) == Episode(e.targets[1]))
    ensures TierFalls(e, names, c, TierOf(e.policy, 0))
  {
    assert e.targets[1] in e.targets && NowBest(e.policy, names, c, e.targets[1], 1);
  }

  /** The first rule is overshadowed once "b" fires the second. */
  lemma TwoRulesFall(ops: TextOps, first: string, high: Tier, second: string, low: Tier, episode: int,
                     ds: seq<Decision>, es: seq<Decision>)
    requires OneLetterOps(ops) && (episode == 1 || episode == 2)
    requires first != second && Rank(low) < Rank(high) && second in ATTRIBUTABLE
    requires
      || first !in ATTRIBUTABLE
      || (first !in SEGMENT_LEVEL && second in SEGMENT_LEVEL && episode == 1)
    requires
      var e := EngineOf(ops, first, high, second, low, episode);
      Result(e, [Named("a")], ds) && Result(e, [Named("a")] + [Named("b")], es)
    ensures ds != [] && es != [] && BestTier(ds) == Rank(high) && BestTier(es) < BestTier(ds)
  {
    var e := EngineOf(ops, first, high, second, low, episode);
    TwoRulesCross(ops, first, high, second, low, episode);
    CrossedStart(e, ds);
    CrossedBests(e);
    SecondOvershadows(e, [Named("a")], Named("b"));
    AddedName(e, [Named("a")], Named("b"), ds, es);
  }

  /** A catch-all at `download` gives way to an attributable rule at `catalog`, of a segment of another episode. */
  lemma CatchAllGivesWay(ops: TextOps, ds: seq<Decision>, es: seq<Decision>)
    requires OneLetterOps(ops)
    requires
      var e := EngineOf(ops, "archive_candidate", Download, "numero_nu", Catalog, 2);
      Result(e, [Named("a")], ds) && Result(e, [Named("a")] + [Named("b")], es)
    ensures ds != [] && es != [] && BestTier(ds) == Rank(Download) && BestTier(es) < BestTier(ds)
  {
    TwoRulesFall(ops, "archive_candidate", Download, "numero_nu", Catalog, 2, ds, es);
  }

  /** No catch-all is involved: a segment-level rule at `notify` cuts its episode, and with it an episode-level rule
      at `download` for the other segment. */
  lemma SegmentCutsEpisode(ops: TextOps, ds: seq<Decision>, es: seq<Decision>)
    requires OneLetterOps(ops)
    requires
      var e := EngineOf(ops, "numero_nu_confirmed", Download, "title_review", Notify, 1);
      Result(e, [Named("a")], ds) && Result(e, [Named("a")] + [Named("b")], es)
    ensures ds != [] && es != [] && BestTier(ds) == Rank(Download) && BestTier(es) < BestTier(ds)
  {
    TwoRulesFall(ops, "numero_nu_confirmed", Download, "title_review", Notify, 1, ds, es);
  }
}
