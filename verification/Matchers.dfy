/** What is matched (a file candidate, a target segment) and the matcher trees. */
module Matchers {
  import opened Config
  import opened Options

  datatype Candidate = Candidate(
    filename: string, sizeMb: Option<real>, durationSec: Option<real>, bitrateKbps: Option<real>)

  datatype Target = Target(
    season: int, seasonalNumber: int, absoluteNumber: int, segment: string, title: string,
    status: string, id: string)

  /** The text engines (regex, tokenizer, fuzzy ratio) are parameters of the whole development. */
  datatype TextOps = TextOps(
    interpolate: (string, Target) -> string,
    keyword: (string, string) -> bool,
    regex: (string, string, string) -> bool,
    coverage: (string, real, string) -> real)

  datatype Matcher =
    | KeywordMatcher(phrase: string)
    | RegexMatcher(pattern: string, flags: string)
    | CoverageMatcher(reference: string, min: real, fuzz: real)
    | AttrBetweenMatcher(attr: Attr, lower: Option<real>, upper: Option<real>)
    | AllMatcher(children: seq<Matcher>)
    | AnyMatcher(children: seq<Matcher>)
    | NotMatcher(child: Matcher)

  function AttrValue(c: Candidate, attr: Attr): Option<real> {
    match attr
    case SizeMb => c.sizeMb
    case DurationSec => c.durationSec
    case BitrateKbps => c.bitrateKbps
  }

  predicate Between(value: Option<real>, lower: Option<real>, upper: Option<real>) {
    && value.Some?
    && (lower.Some? ==> lower.value <= value.value)
    && (upper.Some? ==> value.value <= upper.value)
  }

  predicate Matches(ops: TextOps, m: Matcher, c: Candidate) {
    match m
    case KeywordMatcher(phrase) => ops.keyword(phrase, c.filename)
    case RegexMatcher(pattern, flags) => ops.regex(pattern, flags, c.filename)
    case CoverageMatcher(reference, min, fuzz) => ops.coverage(reference, fuzz, c.filename) >= min
    case AttrBetweenMatcher(attr, lower, upper) => Between(AttrValue(c, attr), lower, upper)
    case AllMatcher(children) => forall i :: 0 <= i < |children| ==> Matches(ops, children[i], c)
    case AnyMatcher(children) => exists i :: 0 <= i < |children| && Matches(ops, children[i], c)
    case NotMatcher(child) => !Matches(ops, child, c)
  }
}
