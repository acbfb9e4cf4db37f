/** Compilation of a validated configuration into matcher trees (catalog_matching/resolver.py),
    and the proof that a compiled tree means what the token table says. */
module Resolver {
  import opened Config
  import opened Graph
  import opened Matchers
  import opened Options
  import opened Order
  import opened Validation

  const TITLE_KEYWORD := "title"

  // ---------- why the compilation terminates ----------

  /** What validation guarantees and compilation needs: names resolve, and references do not loop. */
  ghost predicate Resolvable(config: MatcherConfig) {
    ReferencesExist(config) && Acyclic(GraphOf(config))
  }

  lemma ValidIsResolvable(config: MatcherConfig, maxDepth: int, compiles: (string, string) -> bool)
    requires Valid(config, maxDepth, compiles)
    ensures Resolvable(config)
  {
    BoundedIsAcyclic(GraphOf(config), maxDepth);
  }

  lemma RepeatCloses(g: Graph, p: seq<string>, i: nat, j: nat)
    requires Chain(g, p) && i < j < |p|
    ensures p[i] == p[j] ==> Cycle(g, p[i..j + 1])
  {
  }

  /** Without a cycle a chain repeats no name, so it is no longer than the table. */
  lemma AcyclicIsBounded(g: Graph)
    requires Acyclic(g)
    ensures ChainsWithin(g, |g|)
  {
    forall p | Chain(g, p) ensures |p| <= |g| {
      forall i, j | 0 <= i < j < |p| ensures p[i] != p[j] {
        RepeatCloses(g, p, i, j);
      }
      DistinctMultiset(p);
      var names := set x | x in p;
      assert names <= g.Keys;
      SubsetSize(names, g.Keys);
    }
  }

  lemma {:induction false} SubsetSize<T>(a: set<T>, b: set<T>)
    requires a <= b
    ensures |a| <= |b|
  {
    if a != {} {
      var x :| x in a;
      SubsetSize(a - {x}, b - {x});
    }
  }

  ghost function TokenDepth(config: MatcherConfig, name: string): nat
    requires Resolvable(config) && name in config.tokens
  {
    ExistingReferencesClose(config);
    Longest(GraphOf(config), name, |GraphOf(config)|)
  }

  ghost predicate Known(config: MatcherConfig, refs: seq<string>) {
    forall r :: r in refs ==> r in config.tokens
  }

  ghost function RefsDepth(config: MatcherConfig, refs: seq<string>): nat
    requires Resolvable(config) && Known(config, refs)
  {
    ExistingReferencesClose(config);
    LongestOf(GraphOf(config), refs, |GraphOf(config)|)
  }

  lemma TokenRefsKnown(config: MatcherConfig, name: string)
    requires Resolvable(config) && name in config.tokens
    ensures Known(config, DefRefs(config.tokens[name]))
    ensures RefsDepth(config, DefRefs(config.tokens[name])) < TokenDepth(config, name)
  {
    ExistingReferencesClose(config);
    AcyclicIsBounded(GraphOf(config));
    assert GraphOf(config)[name] == DefRefs(config.tokens[name]);
    LongestUnfolds(GraphOf(config), name, |GraphOf(config)|);
  }

  lemma RefsDepthMonotone(config: MatcherConfig, part: seq<string>, whole: seq<string>)
    requires Resolvable(config) && Known(config, whole) && forall r :: r in part ==> r in whole
    ensures Known(config, part) && RefsDepth(config, part) <= RefsDepth(config, whole)
  {
    ExistingReferencesClose(config);
    LongestOfIsMax(GraphOf(config), part, |GraphOf(config)|);
    LongestOfIsMax(GraphOf(config), whole, |GraphOf(config)|);
  }

  lemma SingleRefDepth(config: MatcherConfig, name: string)
    requires Resolvable(config) && name in config.tokens
    ensures Known(config, [name]) && TokenDepth(config, name) <= RefsDepth(config, [name])
  {
    ExistingReferencesClose(config);
    LongestOfIsMax(GraphOf(config), [name], |GraphOf(config)|);
    assert name in [name];
  }

  // ---------- the resolver ----------

  function OrElse(override: Option<real>, default: real): real {
    if override.Some? then override.value else default
  }

  function CoverageText(reference: string, target: Target): string {
    if reference == TITLE_KEYWORD then target.title else reference
  }

  function ResolveToken(ops: TextOps, config: MatcherConfig, name: string, target: Target,
                        min: Option<real>, fuzz: Option<real>): Matcher
    requires Resolvable(config) && name in config.tokens
    decreases TokenDepth(config, name), 0
  {
    TokenRefsKnown(config, name);
    BuildDef(ops, config, config.tokens[name], target, min, fuzz)
  }

  function BuildDef(ops: TextOps, config: MatcherConfig, d: TokenDef, target: Target,
                    min: Option<real>, fuzz: Option<real>): Matcher
    requires Resolvable(config) && Known(config, DefRefs(d))
    decreases RefsDepth(config, DefRefs(d)), 2
  {
    match d
    case Keyword(phrase) => KeywordMatcher(phrase)
    case Regex(pattern, flags) => RegexMatcher(ops.interpolate(pattern, target), flags)
    case Coverage(reference, defMin, defFuzz) =>
      CoverageMatcher(CoverageText(reference, target), OrElse(min, defMin), OrElse(fuzz, defFuzz))
    case AttrBetween(attr, lower, upper) => AttrBetweenMatcher(attr, lower, upper)
    case Composite(condition) => BuildCondition(ops, config, condition, target)
  }

  function BuildCondition(ops: TextOps, config: MatcherConfig, c: Condition, target: Target): Matcher
    requires Resolvable(config) && Known(config, ConditionRefs(c))
    decreases RefsDepth(config, ConditionRefs(c)), 1, c
  {
    match c
    case All(operands) => AllMatcher(BuildOperands(ops, config, operands, target))
    case Any(operands) => AnyMatcher(BuildOperands(ops, config, operands, target))
    case Not(operand) => NotMatcher(BuildOperand(ops, config, operand, target))
  }

  function BuildOperands(ops: TextOps, config: MatcherConfig, os: seq<Operand>, target: Target): (r: seq<Matcher>)
    requires Resolvable(config) && Known(config, OperandsRefs(os))
    ensures |r| == |os|
    decreases RefsDepth(config, OperandsRefs(os)), 1, os
  {
    if os == [] then []
    else
      RefsDepthMonotone(config, OperandRefs(os[0]), OperandsRefs(os));
      RefsDepthMonotone(config, OperandsRefs(os[1..]), OperandsRefs(os));
      [BuildOperand(ops, config, os[0], target)] + BuildOperands(ops, config, os[1..], target)
  }

  function BuildOperand(ops: TextOps, config: MatcherConfig, o: Operand, target: Target): Matcher
    requires Resolvable(config) && Known(config, OperandRefs(o))
    decreases RefsDepth(config, OperandRefs(o)), 1, o
  {
    match o
    case Bare(name) =>
      SingleRefDepth(config, name);
      ResolveToken(ops, config, name, target, None, None)
    case Ref(ref) =>
      SingleRefDepth(config, ref.name);
      ResolveToken(ops, config, ref.name, target, ref.min, ref.fuzz)
    case Inline(condition) => BuildCondition(ops, config, condition, target)
  }

  lemma RuleKnown(config: MatcherConfig, i: nat)
    requires ReferencesExist(config) && i < |config.rules|
    ensures Known(config, ConditionRefs(config.rules[i].condition))
  {
    KnownRefs(config, config.rules[i].condition);
  }

  function ResolveRule(ops: TextOps, config: MatcherConfig, i: nat, target: Target): Matcher
    requires Resolvable(config) && i < |config.rules|
  {
    RuleKnown(config, i);
    BuildCondition(ops, config, config.rules[i].condition, target)
  }

  datatype ResolvedTarget = ResolvedTarget(target: Target, tokens: map<string, Matcher>, rules: map<string, Matcher>)

  /** A dict comprehension over the rules: a repeated name keeps its last rule. */
  function RulesByName(ops: TextOps, config: MatcherConfig, n: nat, target: Target): map<string, Matcher>
    requires Resolvable(config) && n <= |config.rules|
  {
    if n == 0 then map[]
    else RulesByName(ops, config, n - 1, target)[config.rules[n - 1].name := ResolveRule(ops, config, n - 1, target)]
  }

  function ResolveAll(ops: TextOps, config: MatcherConfig, target: Target): ResolvedTarget
    requires Resolvable(config)
  {
    ResolvedTarget(
      target,
      map n | n in config.tokens :: ResolveToken(ops, config, n, target, None, None),
      RulesByName(ops, config, |config.rules|, target))
  }

  // ---------- the meaning of a token table ----------

  /** A reading says of each token whether it holds for one target and one candidate. */
  type Reading = map<string, bool>

  ghost predicate LeafHolds(ops: TextOps, d: TokenDef, target: Target, c: Candidate,
                            min: Option<real>, fuzz: Option<real>)
    requires !d.Composite?
  {
    match d
    case Keyword(phrase) => ops.keyword(phrase, c.filename)
    case Regex(pattern, flags) => ops.regex(ops.interpolate(pattern, target), flags, c.filename)
    case Coverage(reference, defMin, defFuzz) =>
      var text := if reference == "title" then target.title else reference;
      CoverageHolds(ops, text, defMin, defFuzz, c.filename, min, fuzz)
    case AttrBetween(SizeMb, lower, upper) => Lies(c.sizeMb, lower, upper)
    case AttrBetween(DurationSec, lower, upper) => Lies(c.durationSec, lower, upper)
    case AttrBetween(BitrateKbps, lower, upper) => Lies(c.bitrateKbps, lower, upper)
  }

  /** An override replaces the token's own value, each on its own. */
  ghost predicate CoverageHolds(ops: TextOps, text: string, defMin: real, defFuzz: real, filename: string,
                                min: Option<real>, fuzz: Option<real>) {
    match (min, fuzz)
    case (None, None) => defMin <= ops.coverage(text, defFuzz, filename)
    case (Some(m), None) => m <= ops.coverage(text, defFuzz, filename)
    case (None, Some(f)) => defMin <= ops.coverage(text, f, filename)
    case (Some(m), Some(f)) => m <= ops.coverage(text, f, filename)
  }

  /** The attribute is known, and not outside a bound that is given. */
  ghost predicate Lies(value: Option<real>, lower: Option<real>, upper: Option<real>) {
    value.Some? && !(lower.Some? && value.value < lower.value) && !(upper.Some? && value.value > upper.value)
  }

  /** A bare name means what the reading says; a reference to a leaf applies its overrides there. */
  ghost predicate OperandHolds(ops: TextOps, config: MatcherConfig, reading: Reading, o: Operand,
                               target: Target, c: Candidate)
    requires reading.Keys == config.tokens.Keys && Known(config, OperandRefs(o))
    decreases o
  {
    match o
    case Bare(name) => assert name in OperandRefs(o); reading[name]
    case Ref(ref) =>
      assert ref.name in OperandRefs(o);
      var d := config.tokens[ref.name];
      if d.Composite? then reading[ref.name] else LeafHolds(ops, d, target, c, ref.min, ref.fuzz)
    case Inline(condition) => ConditionHolds(ops, config, reading, condition, target, c)
  }

  ghost predicate ConditionHolds(ops: TextOps, config: MatcherConfig, reading: Reading, cond: Condition,
                                 target: Target, c: Candidate)
    requires reading.Keys == config.tokens.Keys && Known(config, ConditionRefs(cond))
    decreases cond
  {
    match cond
    case All(operands) =>
      OperandsKnown(config, operands);
      forall i :: 0 <= i < |operands| ==> OperandHolds(ops, config, reading, operands[i], target, c)
    case Any(operands) =>
      OperandsKnown(config, operands);
      exists i :: 0 <= i < |operands| && OperandHolds(ops, config, reading, operands[i], target, c)
    case Not(operand) => !OperandHolds(ops, config, reading, operand, target, c)
  }

  lemma {:induction false} OperandsKnown(config: MatcherConfig, os: seq<Operand>)
    requires Known(config, OperandsRefs(os))
    ensures forall i :: 0 <= i < |os| ==> Known(config, OperandRefs(os[i]))
  {
    if os != [] {
      OperandsKnown(config, os[1..]);
      forall i | 0 <= i < |os| ensures Known(config, OperandRefs(os[i])) {
        if i > 0 { assert os[i] == os[1..][i - 1]; }
      }
    }
  }

  /** Every token holds exactly when its own definition, read over the same table, holds. */
  ghost predicate Consistent(ops: TextOps, config: MatcherConfig, reading: Reading, target: Target, c: Candidate)
    requires ReferencesExist(config)
  {
    && reading.Keys == config.tokens.Keys
    && forall n :: n in config.tokens ==> reading[n] == DefHolds(ops, config, reading, n, target, c)
  }

  ghost predicate DefHolds(ops: TextOps, config: MatcherConfig, reading: Reading, n: string, target: Target,
                           c: Candidate)
    requires ReferencesExist(config) && reading.Keys == config.tokens.Keys && n in config.tokens
  {
    var d := config.tokens[n];
    if d.Composite? then
      assert DefsKnown(config, d);
      KnownRefs(config, d.condition);
      ConditionHolds(ops, config, reading, d.condition, target, c)
    else LeafHolds(ops, d, target, c, None, None)
  }

  // ---------- compilation preserves meaning ----------

  /** `reading` agrees with the compiled tokens below a given depth. */
  ghost predicate Agrees(ops: TextOps, config: MatcherConfig, reading: Reading, target: Target, c: Candidate,
                         depth: nat)
    requires Resolvable(config)
  {
    && reading.Keys == config.tokens.Keys
    && forall n :: n in config.tokens && TokenDepth(config, n) <= depth ==>
         Matches(ops, ResolveToken(ops, config, n, target, None, None), c) == reading[n]
  }

  lemma {:induction false} ConditionCompiles(ops: TextOps, config: MatcherConfig, reading: Reading, cond: Condition,
                                             target: Target, c: Candidate)
    requires Resolvable(config) && Known(config, ConditionRefs(cond))
    requires Agrees(ops, config, reading, target, c, RefsDepth(config, ConditionRefs(cond)))
    ensures Matches(ops, BuildCondition(ops, config, cond, target), c)
         == ConditionHolds(ops, config, reading, cond, target, c)
    decreases cond
  {
    match cond
    case All(operands) => OperandsCompile(ops, config, reading, operands, target, c);
    case Any(operands) => OperandsCompile(ops, config, reading, operands, target, c);
    case Not(operand) => OperandCompiles(ops, config, reading, operand, target, c);
  }

  lemma {:induction false} OperandCompiles(ops: TextOps, config: MatcherConfig, reading: Reading, o: Operand,
                                           target: Target, c: Candidate)
    requires Resolvable(config) && Known(config, OperandRefs(o))
    requires Agrees(ops, config, reading, target, c, RefsDepth(config, OperandRefs(o)))
    ensures Matches(ops, BuildOperand(ops, config, o, target), c)
         == OperandHolds(ops, config, reading, o, target, c)
    decreases o
  {
    match o
    case Bare(name) => SingleRefDepth(config, name);
    case Ref(ref) =>
      SingleRefDepth(config, ref.name);
      TokenRefsKnown(config, ref.name);
      assert BuildOperand(ops, config, o, target)
          == BuildDef(ops, config, config.tokens[ref.name], target, ref.min, ref.fuzz);
      if config.tokens[ref.name].Composite? {
        assert ResolveToken(ops, config, ref.name, target, ref.min, ref.fuzz)
            == ResolveToken(ops, config, ref.name, target, None, None);
      } else {
        LeafCompiles(ops, config, config.tokens[ref.name], target, c, ref.min, ref.fuzz);
      }
    case Inline(condition) => ConditionCompiles(ops, config, reading, condition, target, c);
  }

  lemma {:induction false} OperandsCompile(ops: TextOps, config: MatcherConfig, reading: Reading, os: seq<Operand>,
                                           target: Target, c: Candidate)
    requires Resolvable(config) && Known(config, OperandsRefs(os))
    requires Agrees(ops, config, reading, target, c, RefsDepth(config, OperandsRefs(os)))
    ensures forall i :: 0 <= i < |os| ==> Known(config, OperandRefs(os[i]))
    ensures forall i :: 0 <= i < |os| ==>
      Matches(ops, BuildOperands(ops, config, os, target)[i], c) == OperandHolds(ops, config, reading, os[i], target, c)
    decreases os
  {
    OperandsKnown(config, os);
    if os != [] {
      RefsDepthMonotone(config, OperandRefs(os[0]), OperandsRefs(os));
      RefsDepthMonotone(config, OperandsRefs(os[1..]), OperandsRefs(os));
      OperandCompiles(ops, config, reading, os[0], target, c);
      OperandsCompile(ops, config, reading, os[1..], target, c);
      var first, rest := BuildOperand(ops, config, os[0], target), BuildOperands(ops, config, os[1..], target);
      assert BuildOperands(ops, config, os, target) == [first] + rest;
      forall i | 0 <= i < |os|
        ensures Matches(ops, BuildOperands(ops, config, os, target)[i], c)
             == OperandHolds(ops, config, reading, os[i], target, c)
      {
        if i > 0 {
          assert os[i] == os[1..][i - 1] && ([first] + rest)[i] == rest[i - 1];
        }
      }
    }
  }

  /** The reading obtained by running the compiled tokens. */
  ghost function CompiledReading(ops: TextOps, config: MatcherConfig, target: Target, c: Candidate): Reading
    requires Resolvable(config)
  {
    map n | n in config.tokens :: Matches(ops, ResolveToken(ops, config, n, target, None, None), c)
  }

  lemma DefCompiles(ops: TextOps, config: MatcherConfig, reading: Reading, n: string, target: Target, c: Candidate)
    requires Resolvable(config) && n in config.tokens
    requires reading.Keys == config.tokens.Keys
    requires forall m :: m in config.tokens && TokenDepth(config, m) < TokenDepth(config, n) ==>
      Matches(ops, ResolveToken(ops, config, m, target, None, None), c) == reading[m]
    ensures Matches(ops, ResolveToken(ops, config, n, target, None, None), c)
         == DefHolds(ops, config, reading, n, target, c)
  {
    TokenRefsKnown(config, n);
    var d := config.tokens[n];
    if d.Composite? {
      ConditionCompiles(ops, config, reading, d.condition, target, c);
    } else {
      LeafCompiles(ops, config, d, target, c, None, None);
    }
  }

  lemma LeafCompiles(ops: TextOps, config: MatcherConfig, d: TokenDef, target: Target, c: Candidate,
                     min: Option<real>, fuzz: Option<real>)
    requires Resolvable(config) && !d.Composite?
    ensures Known(config, DefRefs(d))
    ensures Matches(ops, BuildDef(ops, config, d, target, min, fuzz), c) == LeafHolds(ops, d, target, c, min, fuzz)
  {
  }

  /** A valid table has a consistent reading: the one its compiled tokens give. */
  lemma CompiledIsConsistent(ops: TextOps, config: MatcherConfig, target: Target, c: Candidate)
    requires Resolvable(config)
    ensures Consistent(ops, config, CompiledReading(ops, config, target, c), target, c)
  {
    var reading := CompiledReading(ops, config, target, c);
    forall n | n in config.tokens ensures reading[n] == DefHolds(ops, config, reading, n, target, c) {
      DefCompiles(ops, config, reading, n, target, c);
    }
  }

  /** It has no other: whatever reading is consistent, each compiled token matches accordingly. */
  lemma {:induction false} CompiledTokenMeans(ops: TextOps, config: MatcherConfig, reading: Reading, n: string,
                                              target: Target, c: Candidate)
    requires Resolvable(config) && n in config.tokens
    requires Consistent(ops, config, reading, target, c)
    ensures Matches(ops, ResolveToken(ops, config, n, target, None, None), c) == reading[n]
    decreases TokenDepth(config, n)
  {
    forall m | m in config.tokens && TokenDepth(config, m) < TokenDepth(config, n)
      ensures Matches(ops, ResolveToken(ops, config, m, target, None, None), c) == reading[m]
    {
      CompiledTokenMeans(ops, config, reading, m, target, c);
    }
    DefCompiles(ops, config, reading, n, target, c);
  }

  /** A compiled rule matches exactly when its condition, read over the token table, holds. */
  lemma CompiledRuleMeans(ops: TextOps, config: MatcherConfig, reading: Reading, i: nat, target: Target, c: Candidate)
    requires Resolvable(config) && i < |config.rules|
    requires Consistent(ops, config, reading, target, c)
    ensures Known(config, ConditionRefs(config.rules[i].condition))
    ensures Matches(ops, ResolveRule(ops, config, i, target), c)
         == ConditionHolds(ops, config, reading, config.rules[i].condition, target, c)
  {
    RuleKnown(config, i);
    forall n | n in config.tokens
      ensures Matches(ops, ResolveToken(ops, config, n, target, None, None), c) == reading[n]
    {
      CompiledTokenMeans(ops, config, reading, n, target, c);
    }
    ConditionCompiles(ops, config, reading, config.rules[i].condition, target, c);
  }

  // ---------- overrides at the point of use ----------

  /** A reference to a coverage token compiles to a tree that asks for the `min` and the `fuzz` of the reference where
      it has them, and for the token's own where it has not. */
  lemma OverrideMeans(ops: TextOps, config: MatcherConfig, target: Target, c: Candidate, ref: TokenRef,
                      reference: string, defMin: real, defFuzz: real)
    requires Resolvable(config) && ref.name in config.tokens
    requires config.tokens[ref.name] == Coverage(reference, defMin, defFuzz)
    ensures Known(config, OperandRefs(Ref(ref)))
    ensures
      var text := if reference == "title" then target.title else reference;
      var tree := BuildOperand(ops, config, Ref(ref), target);
      && (ref.min.None? && ref.fuzz.None? ==>
            (Matches(ops, tree, c) <==> defMin <= ops.coverage(text, defFuzz, c.filename)))
      && (ref.min.Some? && ref.fuzz.None? ==>
            (Matches(ops, tree, c) <==> ref.min.value <= ops.coverage(text, defFuzz, c.filename)))
      && (ref.min.None? && ref.fuzz.Some? ==>
            (Matches(ops, tree, c) <==> defMin <= ops.coverage(text, ref.fuzz.value, c.filename)))
      && (ref.min.Some? && ref.fuzz.Some? ==>
            (Matches(ops, tree, c) <==> ref.min.value <= ops.coverage(text, ref.fuzz.value, c.filename)))
  {
    SingleRefDepth(config, ref.name);
    assert BuildOperand(ops, config, Ref(ref), target)
        == ResolveToken(ops, config, ref.name, target, ref.min, ref.fuzz);
    var text := CoverageText(reference, target);
    assert ResolveToken(ops, config, ref.name, target, ref.min, ref.fuzz)
        == CoverageMatcher(text, OrElse(ref.min, defMin), OrElse(ref.fuzz, defFuzz));
  }

  /** A rule that consists of such a reference, negated or not, matches accordingly, in all four cases. */
  lemma OverrideRule(ops: TextOps, config: MatcherConfig, target: Target, c: Candidate, i: nat, ref: TokenRef,
                     reference: string, defMin: real, defFuzz: real)
    requires Resolvable(config) && i < |config.rules| && ref.name in config.tokens
    requires config.tokens[ref.name] == Coverage(reference, defMin, defFuzz)
    ensures
      var text := if reference == "title" then target.title else reference;
      var min := match ref.min case Some(m) => m case None => defMin;
      var fuzz := match ref.fuzz case Some(f) => f case None => defFuzz;
      var reached := min <= ops.coverage(text, fuzz, c.filename);
      && (config.rules[i].condition == Condition.All([Ref(ref)]) ==>
            (Matches(ops, ResolveRule(ops, config, i, target), c) <==> reached))
      && (config.rules[i].condition == Condition.Any([Ref(ref)]) ==>
            (Matches(ops, ResolveRule(ops, config, i, target), c) <==> reached))
      && (config.rules[i].condition == Condition.Not(Ref(ref)) ==>
            (Matches(ops, ResolveRule(ops, config, i, target), c) <==> !reached))
  {
    OverrideMeans(ops, config, target, c, ref, reference, defMin, defFuzz);
    RuleKnown(config, i);
    OneOperand(ops, config, target, Ref(ref));
    var tree := BuildOperand(ops, config, Ref(ref), target);
    assert config.rules[i].condition == Condition.All([Ref(ref)]) ==>
      ResolveRule(ops, config, i, target) == AllMatcher([tree]);
    assert config.rules[i].condition == Condition.Any([Ref(ref)]) ==>
      ResolveRule(ops, config, i, target) == AnyMatcher([tree]);
    assert [tree][0] == tree;
  }

  lemma OneOperand(ops: TextOps, config: MatcherConfig, target: Target, o: Operand)
    requires Resolvable(config) && Known(config, OperandRefs(o))
    ensures Known(config, OperandsRefs([o]))
    ensures BuildOperands(ops, config, [o], target) == [BuildOperand(ops, config, o, target)]
  {
    assert [o][1..] == [] && OperandsRefs([o]) == OperandRefs(o) + OperandsRefs([]);
  }

  ghost predicate DistinctRuleNames(config: MatcherConfig) {
    forall i, j :: 0 <= i < j < |config.rules| ==> config.rules[i].name != config.rules[j].name
  }

  lemma {:induction false} RulesByNameHas(ops: TextOps, config: MatcherConfig, n: nat, target: Target)
    requires Resolvable(config) && n <= |config.rules|
    ensures forall i :: 0 <= i < n ==> config.rules[i].name in RulesByName(ops, config, n, target)
    ensures DistinctRuleNames(config) ==> forall i :: 0 <= i < n ==>
      RulesByName(ops, config, n, target)[config.rules[i].name] == ResolveRule(ops, config, i, target)
  {
    if n > 0 {
      RulesByNameHas(ops, config, n - 1, target);
    }
  }
}
