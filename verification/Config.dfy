/** The matcher configuration: named tokens, the conditions built over them, and the rules. */
module Config {
  import opened Options

  /** An operand `{token: name, min?, fuzz?}`. */
  datatype TokenRef = TokenRef(name: string, min: Option<real>, fuzz: Option<real>)

  datatype Operand = Bare(name: string) | Ref(ref: TokenRef) | Inline(condition: Condition)

  datatype Condition = All(operands: seq<Operand>) | Any(operands: seq<Operand>) | Not(operand: Operand)

  datatype TokenDef =
    | Keyword(phrase: string)
    | Regex(pattern: string, flags: string)
    | Coverage(reference: string, min: real, fuzz: real)
    | AttrBetween(attr: Attr, lower: Option<real>, upper: Option<real>)
    | Composite(condition: Condition)

  datatype Attr = SizeMb | DurationSec | BitrateKbps

  datatype Tier = Catalog | Notify | Download

  function Rank(tier: Tier): nat {
    match tier
    case Catalog => 0
    case Notify => 1
    case Download => 2
  }

  datatype Rule = Rule(name: string, tier: Tier, condition: Condition)

  /** `names` are the keys of the token table in the order the table lists them. */
  datatype MatcherConfig = MatcherConfig(names: seq<string>, tokens: map<string, TokenDef>, rules: seq<Rule>) {
    ghost predicate IsTable() {
      forall n :: n in names <==> n in tokens
    }
  }

  // ---------- the references of an operand, as validation.py collects them ----------

  function OperandRefs(o: Operand): seq<string> {
    match o
    case Bare(name) => [name]
    case Ref(ref) => [ref.name]
    case Inline(condition) => ConditionRefs(condition)
  }

  function ConditionRefs(c: Condition): seq<string> {
    match c
    case All(operands) => OperandsRefs(operands)
    case Any(operands) => OperandsRefs(operands)
    case Not(operand) => OperandRefs(operand)
  }

  function OperandsRefs(os: seq<Operand>): seq<string> {
    if os == [] then [] else OperandRefs(os[0]) + OperandsRefs(os[1..])
  }

  function DefRefs(d: TokenDef): seq<string> {
    if d.Composite? then ConditionRefs(d.condition) else []
  }

  function OperandTokenRefs(o: Operand): seq<TokenRef> {
    match o
    case Bare(_) => []
    case Ref(ref) => [ref]
    case Inline(condition) => ConditionTokenRefs(condition)
  }

  function ConditionTokenRefs(c: Condition): seq<TokenRef> {
    match c
    case All(operands) => OperandsTokenRefs(operands)
    case Any(operands) => OperandsTokenRefs(operands)
    case Not(operand) => OperandTokenRefs(operand)
  }

  function OperandsTokenRefs(os: seq<Operand>): seq<TokenRef> {
    if os == [] then [] else OperandTokenRefs(os[0]) + OperandsTokenRefs(os[1..])
  }

  function DefTokenRefs(d: TokenDef): seq<TokenRef> {
    if d.Composite? then ConditionTokenRefs(d.condition) else []
  }

  // ---------- what "is referenced by" means ----------

  /** `leaf`, a bare name or a token reference, occurs somewhere inside the condition. */
  ghost predicate Occurs(c: Condition, leaf: Operand) {
    match c
    case All(operands) => exists i :: 0 <= i < |operands| && OccursIn(operands[i], leaf)
    case Any(operands) => exists i :: 0 <= i < |operands| && OccursIn(operands[i], leaf)
    case Not(operand) => OccursIn(operand, leaf)
  }

  ghost predicate OccursIn(o: Operand, leaf: Operand) {
    if o.Inline? then Occurs(o.condition, leaf) else o == leaf
  }

  ghost predicate Names(leaf: Operand, name: string) {
    match leaf
    case Bare(n) => n == name
    case Ref(ref) => ref.name == name
    case Inline(_) => false
  }

  ghost predicate Mentioned(c: Condition, name: string) {
    exists leaf :: Occurs(c, leaf) && Names(leaf, name)
  }

  /** The collected names are exactly the names the condition mentions. */
  lemma {:induction false} RefsAreMentions(c: Condition, name: string)
    ensures name in ConditionRefs(c) <==> Mentioned(c, name)
    decreases c
  {
    match c
    case All(operands) => OperandsRefsAreMentions(operands, name);
    case Any(operands) => OperandsRefsAreMentions(operands, name);
    case Not(operand) => OperandRefsAreMentions(operand, name);
  }

  lemma {:induction false} OperandRefsAreMentions(o: Operand, name: string)
    ensures name in OperandRefs(o) <==> exists leaf :: OccursIn(o, leaf) && Names(leaf, name)
    decreases o
  {
    if o.Inline? {
      RefsAreMentions(o.condition, name);
      assert forall leaf :: OccursIn(o, leaf) <==> Occurs(o.condition, leaf);
    } else {
      assert OccursIn(o, o);
      assert Names(o, name) <==> name in OperandRefs(o);
    }
  }

  lemma {:induction false} OperandsRefsAreMentions(os: seq<Operand>, name: string)
    ensures name in OperandsRefs(os)
      <==> exists leaf, i :: 0 <= i < |os| && OccursIn(os[i], leaf) && Names(leaf, name)
    decreases os
  {
    if os != [] {
      OperandRefsAreMentions(os[0], name);
      OperandsRefsAreMentions(os[1..], name);
      assert forall i :: 0 < i < |os| ==> os[i] == os[1..][i - 1];
    }
  }

  /** The collected token references are exactly those that occur in the condition. */
  lemma {:induction false} TokenRefsOccur(c: Condition, ref: TokenRef)
    ensures ref in ConditionTokenRefs(c) <==> Occurs(c, Ref(ref))
    decreases c
  {
    match c
    case All(operands) => OperandsTokenRefsOccur(operands, ref);
    case Any(operands) => OperandsTokenRefsOccur(operands, ref);
    case Not(operand) => OperandTokenRefsOccur(operand, ref);
  }

  lemma {:induction false} OperandTokenRefsOccur(o: Operand, ref: TokenRef)
    ensures ref in OperandTokenRefs(o) <==> OccursIn(o, Ref(ref))
    decreases o
  {
    if o.Inline? {
      TokenRefsOccur(o.condition, ref);
    }
  }

  lemma {:induction false} OperandsTokenRefsOccur(os: seq<Operand>, ref: TokenRef)
    ensures ref in OperandsTokenRefs(os) <==> exists i :: 0 <= i < |os| && OccursIn(os[i], Ref(ref))
    decreases os
  {
    if os != [] {
      OperandTokenRefsOccur(os[0], ref);
      OperandsTokenRefsOccur(os[1..], ref);
      assert forall i :: 0 < i < |os| ==> os[i] == os[1..][i - 1];
    }
  }
}
