/** Validation of a configuration when it is loaded (catalog_matching/validation.py): references, overrides, cycles and
    depth, and regexes, checked in this order; the first fault found is the one reported. */
module Validation {
  import opened Config
  import opened Graph
  import opened Options

  function GraphOf(config: MatcherConfig): Graph {
    map n | n in config.tokens :: DefRefs(config.tokens[n])
  }

  // ---------- what an accepted configuration is ----------

  /** Every name mentioned in a token definition or in a rule is defined. */
  ghost predicate ReferencesExist(config: MatcherConfig) {
    && (forall n :: n in config.tokens ==> DefsKnown(config, config.tokens[n]))
    && (forall i :: 0 <= i < |config.rules| ==> AllKnown(config, config.rules[i].condition))
  }

  ghost predicate DefsKnown(config: MatcherConfig, d: TokenDef) {
    d.Composite? ==> AllKnown(config, d.condition)
  }

  ghost predicate AllKnown(config: MatcherConfig, c: Condition) {
    forall r :: Mentioned(c, r) ==> r in config.tokens
  }

  /** Every reference carrying a `min` or a `fuzz` names a coverage token. */
  ghost predicate OverridesHitCoverage(config: MatcherConfig) {
    && (forall n :: n in config.tokens && config.tokens[n].Composite? ==>
          OverridesLegal(config, config.tokens[n].condition))
    && (forall i :: 0 <= i < |config.rules| ==> OverridesLegal(config, config.rules[i].condition))
  }

  ghost predicate OverridesLegal(config: MatcherConfig, c: Condition) {
    forall ref :: Occurs(c, Ref(ref)) && (ref.min != None || ref.fuzz != None) ==> NamesCoverage(config, ref.name)
  }

  /** The table defines the name as a coverage token. */
  ghost predicate NamesCoverage(config: MatcherConfig, name: string) {
    exists reference, min, fuzz :: (name, Coverage(reference, min, fuzz)) in config.tokens.Items
  }

  predicate LegalRef(config: MatcherConfig, ref: TokenRef) {
    (ref.min.Some? || ref.fuzz.Some?) ==> ref.name in config.tokens && config.tokens[ref.name].Coverage?
  }

  /** `compiles` stands for interpolation against the probe target followed by `re.compile`. */
  ghost predicate RegexesCompile(config: MatcherConfig, compiles: (string, string) -> bool) {
    forall n :: n in config.tokens && config.tokens[n].Regex? ==>
      compiles(config.tokens[n].pattern, config.tokens[n].flags)
  }

  ghost predicate Valid(config: MatcherConfig, maxDepth: int, compiles: (string, string) -> bool) {
    && ReferencesExist(config)
    && OverridesHitCoverage(config)
    && DepthWithin(GraphOf(config), maxDepth)
    && RegexesCompile(config, compiles)
  }

  lemma KnownRefs(config: MatcherConfig, c: Condition)
    ensures AllKnown(config, c) <==> forall r :: r in ConditionRefs(c) ==> r in config.tokens
  {
    forall r ensures r in ConditionRefs(c) <==> Mentioned(c, r) {
      RefsAreMentions(c, r);
    }
  }

  lemma LegalRefs(config: MatcherConfig, c: Condition)
    ensures OverridesLegal(config, c) <==> forall ref :: ref in ConditionTokenRefs(c) ==> LegalRef(config, ref)
  {
    forall ref ensures ref in ConditionTokenRefs(c) <==> Occurs(c, Ref(ref)) {
      TokenRefsOccur(c, ref);
    }
    forall ref: TokenRef ensures LegalRef(config, ref) <==>
      (ref.min != None || ref.fuzz != None ==> NamesCoverage(config, ref.name))
    {
      LegalIff(config, ref);
    }
  }

  lemma LegalIff(config: MatcherConfig, ref: TokenRef)
    ensures LegalRef(config, ref) <==> (ref.min != None || ref.fuzz != None ==> NamesCoverage(config, ref.name))
  {
    if ref.name in config.tokens && config.tokens[ref.name].Coverage? {
      var d := config.tokens[ref.name];
      assert (ref.name, Coverage(d.reference, d.min, d.fuzz)) in config.tokens.Items;
    }
  }

  lemma ExistingReferencesClose(config: MatcherConfig)
    requires ReferencesExist(config)
    ensures Closed(GraphOf(config))
  {
    var g := GraphOf(config);
    forall n | n in g ensures forall r :: r in g[n] ==> r in g {
      var d := config.tokens[n];
      if d.Composite? {
        assert DefsKnown(config, d);
        KnownRefs(config, d.condition);
      }
    }
  }

  // ---------- _check_references_exist, _check_overrides_target_coverage ----------

  /** Some token definition or some rule mentions the name. */
  ghost predicate MentionedSomewhere(config: MatcherConfig, name: string) {
    || (exists n :: n in config.tokens && config.tokens[n].Composite? && Mentioned(config.tokens[n].condition, name))
    || (exists i :: 0 <= i < |config.rules| && Mentioned(config.rules[i].condition, name))
  }

  ghost predicate OccursSomewhere(config: MatcherConfig, ref: TokenRef) {
    || (exists n :: n in config.tokens && config.tokens[n].Composite? && Occurs(config.tokens[n].condition, Ref(ref)))
    || (exists i :: 0 <= i < |config.rules| && Occurs(config.rules[i].condition, Ref(ref)))
  }

  /** An override on something that is not a coverage token. */
  ghost predicate MisplacedOverride(config: MatcherConfig, name: string) {
    && !NamesCoverage(config, name)
    && exists ref :: OccursSomewhere(config, ref) && ref.name == name && (ref.min != None || ref.fuzz != None)
  }

  method FindUnknown(config: MatcherConfig, refs: seq<string>) returns (r: Option<string>)
    ensures r.None? <==> forall n :: n in refs ==> n in config.tokens
    ensures r.Some? ==> r.value in refs && r.value !in config.tokens
  {
    for i := 0 to |refs|
      invariant forall j :: 0 <= j < i ==> refs[j] in config.tokens
    {
      if refs[i] !in config.tokens {
        return Some(refs[i]);
      }
    }
    r := None;
  }

  method CheckReferencesExist(config: MatcherConfig) returns (r: Option<string>)
    requires config.IsTable()
    ensures r.None? <==> ReferencesExist(config)
    ensures r.Some? ==> r.value !in config.tokens && MentionedSomewhere(config, r.value)
  {
    for i := 0 to |config.names|
      invariant forall j :: 0 <= j < i ==> DefsKnown(config, config.tokens[config.names[j]])
    {
      var d := config.tokens[config.names[i]];
      r := FindUnknown(config, DefRefs(d));
      if d.Composite? {
        KnownRefs(config, d.condition);
      }
      if r.Some? {
        RefsAreMentions(d.condition, r.value);
        assert !DefsKnown(config, d);
        return;
      }
    }
    for i := 0 to |config.rules|
      invariant forall j :: 0 <= j < i ==> AllKnown(config, config.rules[j].condition)
    {
      r := FindUnknown(config, ConditionRefs(config.rules[i].condition));
      KnownRefs(config, config.rules[i].condition);
      if r.Some? {
        RefsAreMentions(config.rules[i].condition, r.value);
        assert !AllKnown(config, config.rules[i].condition);
        return;
      }
    }
    forall n | n in config.tokens ensures DefsKnown(config, config.tokens[n]) {
      assert n in config.names;
    }
    r := None;
  }

  method CheckOverridesTargetCoverage(config: MatcherConfig) returns (r: Option<string>)
    requires config.IsTable()
    ensures r.None? <==> OverridesHitCoverage(config)
    ensures r.Some? ==> MisplacedOverride(config, r.value)
  {
    var refs: seq<TokenRef> := [];
    for i := 0 to |config.names|
      invariant forall ref :: ref in refs <==>
        exists j :: 0 <= j < i && ref in DefTokenRefs(config.tokens[config.names[j]])
    {
      refs := refs + DefTokenRefs(config.tokens[config.names[i]]);
    }
    ghost var fromTokens := refs;
    for i := 0 to |config.rules|
      invariant forall ref :: ref in refs <==>
        ref in fromTokens || exists j :: 0 <= j < i && ref in ConditionTokenRefs(config.rules[j].condition)
    {
      refs := refs + ConditionTokenRefs(config.rules[i].condition);
    }
    CollectedAreAll(config, fromTokens, refs);
    for i := 0 to |refs|
      invariant forall j :: 0 <= j < i ==> LegalRef(config, refs[j])
    {
      if !LegalRef(config, refs[i]) {
        CollectedOccurs(config, fromTokens, refs, refs[i]);
        LegalIff(config, refs[i]);
        return Some(refs[i].name);
      }
    }
    r := None;
  }

  lemma CollectedAreAll(config: MatcherConfig, fromTokens: seq<TokenRef>, refs: seq<TokenRef>)
    requires config.IsTable()
    requires forall ref :: ref in fromTokens <==>
      exists j :: 0 <= j < |config.names| && ref in DefTokenRefs(config.tokens[config.names[j]])
    requires forall ref :: ref in refs <==>
      ref in fromTokens || exists j :: 0 <= j < |config.rules| && ref in ConditionTokenRefs(config.rules[j].condition)
    ensures OverridesHitCoverage(config) <==> forall ref :: ref in refs ==> LegalRef(config, ref)
  {
    if OverridesHitCoverage(config) {
      forall ref | ref in refs ensures LegalRef(config, ref) {
        if ref in fromTokens {
          var j :| 0 <= j < |config.names| && ref in DefTokenRefs(config.tokens[config.names[j]]);
          LegalRefs(config, config.tokens[config.names[j]].condition);
        } else {
          var j :| 0 <= j < |config.rules| && ref in ConditionTokenRefs(config.rules[j].condition);
          LegalRefs(config, config.rules[j].condition);
        }
      }
    }
    if forall ref :: ref in refs ==> LegalRef(config, ref) {
      forall n | n in config.tokens && config.tokens[n].Composite?
        ensures OverridesLegal(config, config.tokens[n].condition)
      {
        var j :| 0 <= j < |config.names| && config.names[j] == n;
        assert forall ref :: ref in ConditionTokenRefs(config.tokens[n].condition) ==>
          ref in DefTokenRefs(config.tokens[config.names[j]]) && ref in fromTokens;
        LegalRefs(config, config.tokens[n].condition);
      }
      forall i | 0 <= i < |config.rules| ensures OverridesLegal(config, config.rules[i].condition) {
        LegalRefs(config, config.rules[i].condition);
      }
    }
  }

  lemma CollectedOccurs(config: MatcherConfig, fromTokens: seq<TokenRef>, refs: seq<TokenRef>, ref: TokenRef)
    requires config.IsTable() && ref in refs
    requires forall x :: x in fromTokens <==>
      exists j :: 0 <= j < |config.names| && x in DefTokenRefs(config.tokens[config.names[j]])
    requires forall x :: x in refs <==>
      x in fromTokens || exists j :: 0 <= j < |config.rules| && x in ConditionTokenRefs(config.rules[j].condition)
    ensures OccursSomewhere(config, ref)
  {
    if ref in fromTokens {
      var j :| 0 <= j < |config.names| && ref in DefTokenRefs(config.tokens[config.names[j]]);
      TokenRefsOccur(config.tokens[config.names[j]].condition, ref);
    } else {
      var j :| 0 <= j < |config.rules| && ref in ConditionTokenRefs(config.rules[j].condition);
      TokenRefsOccur(config.rules[j].condition, ref);
    }
  }

  // ---------- _check_acyclic ----------

  datatype WalkResult =
    | Passed
    | Cyclic(cycle: seq<string>)
    | TooDeep(chain: seq<string>)

  function IndexOf(s: seq<string>, x: string): (i: nat)
    requires x in s
    ensures i < |s| && s[i] == x
  {
    if s[0] == x then 0 else 1 + IndexOf(s[1..], x)
  }

  /** The grey names are on the stack, which is a chain of references; the black ones are ranked. */
  ghost predicate Coloured(g: Graph, visiting: set<string>, done: set<string>, stack: seq<string>, rank: map<string,
                           nat>)
  {
    && Closed(g)
    && (stack == [] || Chain(g, stack))
    && (forall n :: n in visiting ==> n in stack)
    && visiting !! done
    && Ranked(g, done, rank)
  }

  lemma Blackened(g: Graph, visiting: set<string>, done: set<string>, stack: seq<string>, rank: map<string, nat>,
                  name: string, front: seq<string>, others: set<string>)
    requires Coloured(g, visiting, done, stack, rank)
    requires stack == front + [name] && visiting == others + {name} && name !in others
    requires forall r :: r in g[name] ==> r in done
    ensures Coloured(g, others, done + {name}, front, rank[name := |done|])
  {
    ChainFront(g, front, name);
    assert forall n :: n in stack ==> n in front || n == name;
    assert name in visiting;
    RankedBlacken(g, done, rank, name);
  }

  /** The name is one of the table, and the last grey name refers to it. */
  ghost predicate CanFollow(g: Graph, stack: seq<string>, name: string) {
    name in g && (stack == [] || (stack[|stack| - 1] in g && name in g[stack[|stack| - 1]]))
  }

  /** A refusal shows a real cycle, or a real chain that is too long. */
  ghost predicate Genuine(g: Graph, maxDepth: int, r: WalkResult) {
    match r
    case Passed => true
    case Cyclic(cycle) => Cycle(g, cycle)
    case TooDeep(chain) => Chain(g, chain) && |chain| > maxDepth
  }

  /** The white/grey/black walk: `visiting` and `stack` hold the grey names, `done` the black ones. */
  class CycleCheck {
    const graph: Graph
    const maxDepth: int
    var visiting: set<string>
    var done: set<string>
    var stack: seq<string>
    ghost var rank: map<string, nat>

    ghost predicate Valid()
      reads this
    {
      Coloured(graph, visiting, done, stack, rank)
    }

    constructor (graph: Graph, maxDepth: int)
      requires Closed(graph)
      ensures Valid() && stack == [] && done == {}
      ensures this.graph == graph && this.maxDepth == maxDepth
    {
      this.graph := graph;
      this.maxDepth := maxDepth;
      visiting, done, stack, rank := {}, {}, [], map[];
    }

    method Walk(name: string) returns (r: WalkResult)
      requires Valid() && CanFollow(graph, stack, name)
      modifies this
      ensures r.Passed? ==>
        Valid() && stack == old(stack) && visiting == old(visiting) && old(done) <= done && name in done
      ensures Genuine(graph, maxDepth, r)
      ensures name in old(done) ==> r.Passed?
      ensures name !in old(done) && name in old(visiting) ==> r.Cyclic?
      ensures name !in old(done) && name !in old(visiting) && |old(stack)| >= maxDepth ==>
        r == TooDeep(old(stack) + [name])
      decreases maxDepth - |stack|, 0
    {
      if name in done {
        return Passed;
      }
      if name in visiting {
        var i := IndexOf(stack, name);
        ClosingChain(graph, stack, name, i);
        return Cyclic(stack[i..] + [name]);
      }
      if |stack| >= maxDepth {
        ChainSnoc(graph, stack, name);
        return TooDeep(stack + [name]);
      }
      Enter(name);
      r := WalkEach(graph[name]);
      if r.Passed? {
        Leave(name, old(stack), old(visiting));
      }
    }

    /** The loop over the references of the last grey name, and the loop over the whole table. */
    method WalkEach(names: seq<string>) returns (r: WalkResult)
      requires Valid() && forall j :: 0 <= j < |names| ==> CanFollow(graph, stack, names[j])
      modifies this
      ensures r.Passed? ==> Valid() && stack == old(stack) && visiting == old(visiting)
      ensures r.Passed? ==> old(done) <= done && forall j :: 0 <= j < |names| ==> names[j] in done
      ensures Genuine(graph, maxDepth, r)
      decreases maxDepth - |stack|, 1
    {
      for i := 0 to |names|
        invariant Valid() && stack == old(stack) && visiting == old(visiting)
        invariant old(done) <= done && forall j :: 0 <= j < i ==> names[j] in done
      {
        r := Walk(names[i]);
        if !r.Passed? {
          return;
        }
      }
      r := Passed;
    }

    /** White to grey. */
    method Enter(name: string)
      requires Valid() && CanFollow(graph, stack, name) && name !in visiting && name !in done
      modifies this`visiting, this`stack
      ensures Valid() && stack == old(stack) + [name] && visiting == old(visiting) + {name}
    {
      ChainSnoc(graph, stack, name);
      visiting := visiting + {name};
      stack := stack + [name];
    }

    /** Grey to black, once every reference is black; `front` and `others` are what was grey before. */
    method Leave(name: string, ghost front: seq<string>, ghost others: set<string>)
      requires Valid() && stack == front + [name] && visiting == others + {name} && name !in others
      requires forall r :: r in graph[name] ==> r in done
      modifies this
      ensures Valid() && stack == front && visiting == others && done == old(done) + {name}
    {
      assert stack[..|stack| - 1] == front && visiting - {name} == others;
      Blackened(graph, visiting, done, stack, rank, name, front, others);
      stack, visiting, done, rank := stack[..|stack| - 1], visiting - {name}, done + {name}, rank[name := |done|];
    }
  }

  /** Passing means there is no cycle; a refusal names a genuine one, or a chain that is too long. */
  method CheckAcyclic(names: seq<string>, g: Graph, maxDepth: int) returns (r: WalkResult)
    requires Closed(g) && forall n :: n in names <==> n in g
    ensures r.Passed? ==> ChainsWithin(g, |g|) && Acyclic(g)
    ensures r.Cyclic? ==> Cycle(g, r.cycle)
    ensures r.TooDeep? ==> Chain(g, r.chain) && |r.chain| > maxDepth
  {
    var check := new CycleCheck(g, maxDepth);
    r := check.WalkEach(names);
    if r.Passed? {
      assert check.done == g.Keys;
      RankedIsBounded(g, check.rank);
      BoundedIsAcyclic(g, |g|);
    }
  }

  // ---------- _max_resolution_depth ----------

  class DepthMemo {
    const graph: Graph
    ghost const bound: nat
    var memo: map<string, nat>

    ghost predicate Valid()
      reads this
    {
      && Closed(graph) && ChainsWithin(graph, bound)
      && memo.Keys <= graph.Keys
      && forall n :: n in memo ==> memo[n] == Longest(graph, n, bound)
    }

    constructor (graph: Graph, ghost bound: nat)
      requires Closed(graph) && ChainsWithin(graph, bound)
      ensures Valid() && this.graph == graph && this.bound == bound
    {
      this.graph := graph;
      this.bound := bound;
      memo := map[];
    }

    /** Recursion on an acyclic graph; the memo does not change what is computed. */
    method Depth(name: string) returns (d: nat)
      requires Valid() && name in graph
      modifies this
      ensures Valid() && d == Longest(graph, name, bound)
      decreases Longest(graph, name, bound)
    {
      if name in memo {
        return memo[name];
      }
      LongestUnfolds(graph, name, bound);
      var refs := graph[name];
      var best := 0;
      for i := 0 to |refs|
        invariant Valid() && best == LongestOf(graph, refs[..i], bound)
      {
        var next := Depth(refs[i]);
        assert refs[..i + 1][..i] == refs[..i];
        best := Max(best, next);
      }
      assert refs[..|refs|] == refs;
      d := 1 + best;
      memo := memo[name := d];
    }
  }

  /** The result is the length of the longest chain of the table (0 for an empty table). */
  method MaxResolutionDepth(config: MatcherConfig, ghost bound: nat) returns (d: nat)
    requires config.IsTable() && Closed(GraphOf(config)) && ChainsWithin(GraphOf(config), bound)
    ensures ChainsWithin(GraphOf(config), d)
    ensures d > 0 ==> HasChain(GraphOf(config), d)
  {
    var g := GraphOf(config);
    var memo := new DepthMemo(g, bound);
    d := 0;
    for i := 0 to |config.names|
      invariant memo.Valid() && memo.graph == g && memo.bound == bound
      invariant forall j :: 0 <= j < i ==> Longest(g, config.names[j], bound) <= d
      invariant d > 0 ==> HasChain(g, d)
    {
      var next := memo.Depth(config.names[i]);
      if next > d {
        d := next;
        LongestHasChain(g, config.names[i], bound);
      }
    }
    AllWithin(config, bound, d);
  }

  lemma LongestHasChain(g: Graph, name: string, bound: nat)
    requires Closed(g) && name in g && Longest(g, name, bound) > 0
    ensures HasChain(g, Longest(g, name, bound))
  {
    var p := LongestIsReached(g, name, bound);
  }

  lemma AllWithin(config: MatcherConfig, bound: nat, d: nat)
    requires config.IsTable() && Closed(GraphOf(config)) && ChainsWithin(GraphOf(config), bound)
    requires forall j :: 0 <= j < |config.names| ==> Longest(GraphOf(config), config.names[j], bound) <= d
    ensures ChainsWithin(GraphOf(config), d)
  {
    forall p | Chain(GraphOf(config), p) ensures |p| <= d {
      LongestIsBound(GraphOf(config), p, bound);
      assert p[0] in config.names;
    }
  }

  // ---------- validate_config ----------

  datatype Verdict =
    | Accepted
    | UnknownToken(name: string)
    | IllegalOverride(name: string)
    | CycleFound(cycle: seq<string>)
    | DepthExceeded
    | BadRegex(name: string)

  ghost predicate BadPattern(config: MatcherConfig, compiles: (string, string) -> bool, name: string) {
    && name in config.tokens && config.tokens[name].Regex?
    && !compiles(config.tokens[name].pattern, config.tokens[name].flags)
  }

  method CheckRegexesCompile(config: MatcherConfig, compiles: (string, string) -> bool) returns (r: Option<string>)
    requires config.IsTable()
    ensures r.None? <==> RegexesCompile(config, compiles)
    ensures r.Some? ==> BadPattern(config, compiles, r.value)
  {
    for i := 0 to |config.names|
      invariant forall j :: 0 <= j < i && config.tokens[config.names[j]].Regex? ==>
        compiles(config.tokens[config.names[j]].pattern, config.tokens[config.names[j]].flags)
    {
      var d := config.tokens[config.names[i]];
      if d.Regex? && !compiles(d.pattern, d.flags) {
        return Some(config.names[i]);
      }
    }
    forall n | n in config.tokens && config.tokens[n].Regex?
      ensures compiles(config.tokens[n].pattern, config.tokens[n].flags)
    {
      var j :| 0 <= j < |config.names| && config.names[j] == n;
    }
    r := None;
  }

  /** A configuration is accepted exactly when it is valid, and every refusal is about a real fault. */
  method ValidateConfig(config: MatcherConfig, maxDepth: int, compiles: (string, string) -> bool)
    returns (v: Verdict)
    requires config.IsTable()
    ensures v.Accepted? <==> Valid(config, maxDepth, compiles)
    ensures v.UnknownToken? <==> !ReferencesExist(config)
    ensures v.UnknownToken? ==> v.name !in config.tokens && MentionedSomewhere(config, v.name)
    ensures v.IllegalOverride? <==> ReferencesExist(config) && !OverridesHitCoverage(config)
    ensures v.IllegalOverride? ==> MisplacedOverride(config, v.name)
    ensures v.CycleFound? || v.DepthExceeded? <==>
      && ReferencesExist(config) && OverridesHitCoverage(config)
      && !DepthWithin(GraphOf(config), maxDepth)
    ensures v.CycleFound? ==> Cycle(GraphOf(config), v.cycle)
    ensures v.BadRegex? ==> BadPattern(config, compiles, v.name)
  {
    var unknown := CheckReferencesExist(config);
    if unknown.Some? {
      return UnknownToken(unknown.value);
    }
    var illegal := CheckOverridesTargetCoverage(config);
    if illegal.Some? {
      return IllegalOverride(illegal.value);
    }
    ExistingReferencesClose(config);
    var walk := CheckAcyclic(config.names, GraphOf(config), maxDepth);
    if walk.Cyclic? {
      var p := Pump(GraphOf(config), walk.cycle, if maxDepth < 0 then 1 else maxDepth + 1);
      return CycleFound(walk.cycle);
    }
    if walk.TooDeep? {
      assert Chain(GraphOf(config), walk.chain);
      return DepthExceeded;
    }
    var depth := MaxResolutionDepth(config, |GraphOf(config)|);
    if depth > maxDepth {
      return DepthExceeded;
    }
    var bad := CheckRegexesCompile(config, compiles);
    if bad.Some? {
      return BadRegex(bad.value);
    }
    v := Accepted;
  }
}
