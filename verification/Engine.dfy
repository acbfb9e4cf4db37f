/** The evaluation engine: the best rule per target over all the names of a file, then what is emitted. */
module Engine {
  import opened Config
  import opened Matchers
  import opened Options
  import opened Order
  import opened Resolver

  const SEGMENT_LEVEL: set<string> := {"id_segment_exact", "title_confirmed", "title_review"}
  const EPISODE_LEVEL: set<string> := {"numero_nu_confirmed", "numero_nu"}
  const ATTRIBUTABLE: set<string> := SEGMENT_LEVEL + EPISODE_LEVEL

  /** What judges one name against one target. */
  datatype Policy = Policy(ops: TextOps, rules: seq<Rule>, maxFilenameLength: int) {
    ghost predicate Resolves(t: ResolvedTarget) {
      forall i :: 0 <= i < |rules| ==> rules[i].name in t.rules
    }
  }

  datatype Engine = Engine(policy: Policy, targets: seq<ResolvedTarget>) {
    /** Every rule has a tree in every target, and target ids are unique (as `parse_targets` checks). */
    ghost predicate Ready() {
      && (forall t :: t in targets ==> policy.Resolves(t))
      && (forall i, j :: 0 <= i < j < |targets| ==> Id(targets[i]) != Id(targets[j]))
    }
  }

  function Id(t: ResolvedTarget): string { t.target.id }

  function Ids(ts: seq<ResolvedTarget>): set<string> {
    set i | 0 <= i < |ts| :: Id(ts[i])
  }

  function Episode(t: ResolvedTarget): int { t.target.absoluteNumber }

  /** The best match kept for one target: `(resolved, index, rule_name, tier, candidate)`. */
  datatype Match = Match(resolved: ResolvedTarget, index: nat, ruleName: string, tier: Tier, candidate: Candidate)

  /** `explained` is the name the decision is explained with. */
  datatype Decision = Decision(targetId: string, ruleName: string, tier: Tier, explained: Candidate)

  datatype Record = Record(targetId: string, ruleName: string, tier: Tier)

  function ToRecord(d: Decision): Record { Record(d.targetId, d.ruleName, d.tier) }

  function MatchId(m: Match): string { Id(m.resolved) }

  // ---------- the first matching rule ----------

  predicate Fires(p: Policy, t: ResolvedTarget, c: Candidate, i: nat)
    requires p.Resolves(t) && i < |p.rules|
  {
    Matches(p.ops, t.rules[p.rules[i].name], c)
  }

  ghost predicate IsFirst(p: Policy, t: ResolvedTarget, c: Candidate, i: nat)
    requires p.Resolves(t)
  {
    i < |p.rules| && Fires(p, t, c, i) && forall j :: 0 <= j < i ==> !Fires(p, t, c, j)
  }

  method FirstMatchingRule(p: Policy, t: ResolvedTarget, c: Candidate) returns (r: Option<nat>)
    requires p.Resolves(t)
    ensures r.None? ==> forall i :: 0 <= i < |p.rules| ==> !Fires(p, t, c, i)
    ensures r.Some? ==> IsFirst(p, t, c, r.value)
  {
    for i := 0 to |p.rules|
      invariant forall j :: 0 <= j < i ==> !Fires(p, t, c, j)
    {
      if Fires(p, t, c, i) {
        return Some(i);
      }
    }
    r := None;
  }

  // ---------- what the best rule of a target is ----------

  /** `(-rank, index)` of rule `i` is smaller than that of rule `j`. */
  predicate Better(p: Policy, i: nat, j: nat)
    requires i < |p.rules| && j < |p.rules|
  {
    var ri, rj := Rank(p.rules[i].tier), Rank(p.rules[j].tier);
    ri > rj || (ri == rj && i < j)
  }

  predicate Kept(p: Policy, c: Candidate) { |c.filename| <= p.maxFilenameLength }

  ghost predicate FiredBy(p: Policy, t: ResolvedTarget, c: Candidate, i: nat)
    requires p.Resolves(t)
  {
    |c.filename| <= p.maxFilenameLength && IsFirst(p, t, c, i)
  }

  ghost predicate Reached(p: Policy, names: seq<Candidate>, t: ResolvedTarget, i: nat)
    requires p.Resolves(t)
  {
    exists k :: 0 <= k < |names| && FiredBy(p, t, names[k], i)
  }

  /** Rule `i` is the least, by (highest tier, smallest index), of the first rules of the kept names. */
  ghost predicate IsBest(p: Policy, names: seq<Candidate>, t: ResolvedTarget, i: nat)
    requires p.Resolves(t)
  {
    && i < |p.rules|
    && Reached(p, names, t, i)
    && forall j :: 0 <= j < |p.rules| && Reached(p, names, t, j) ==> !Better(p, j, i)
  }

  /** `c` is the earliest name whose first rule is `i`. */
  ghost predicate Earliest(p: Policy, names: seq<Candidate>, t: ResolvedTarget, i: nat, c: Candidate)
    requires p.Resolves(t)
  {
    exists k :: 0 <= k < |names| && names[k] == c && FiredBy(p, t, c, i) && NotBefore(p, names, t, i, k)
  }

  ghost predicate NotBefore(p: Policy, names: seq<Candidate>, t: ResolvedTarget, i: nat, k: nat)
    requires p.Resolves(t) && k <= |names|
  {
    forall j :: 0 <= j < k ==> !FiredBy(p, t, names[j], i)
  }

  ghost predicate IsEntry(p: Policy, names: seq<Candidate>, t: ResolvedTarget, m: Match)
    requires p.Resolves(t)
  {
    && m.resolved == t && IsBest(p, names, t, m.index)
    && m.ruleName == p.rules[m.index].name && m.tier == p.rules[m.index].tier
    && Earliest(p, names, t, m.index, m.candidate)
  }

  /** What the dictionary holds for a target once `names` have been seen. */
  ghost predicate Tracks(p: Policy, names: seq<Candidate>, t: ResolvedTarget, entry: Option<Match>)
    requires p.Resolves(t)
  {
    match entry
    case None => forall i :: 0 <= i < |p.rules| ==> !Reached(p, names, t, i)
    case Some(m) => IsEntry(p, names, t, m)
  }

  function Lookup(best: map<string, Match>, id: string): Option<Match> {
    if id in best then Some(best[id]) else None
  }

  lemma ReachedSnoc(p: Policy, names: seq<Candidate>, c: Candidate, t: ResolvedTarget, i: nat)
    requires p.Resolves(t)
    ensures Reached(p, names + [c], t, i) <==> Reached(p, names, t, i) || FiredBy(p, t, c, i)
  {
    var all := names + [c];
    if Reached(p, names, t, i) {
      var k :| 0 <= k < |names| && FiredBy(p, t, names[k], i);
      assert all[k] == names[k];
    }
    if FiredBy(p, t, c, i) {
      assert all[|names|] == c;
    }
  }

  lemma EarliestSnoc(p: Policy, names: seq<Candidate>, c: Candidate, t: ResolvedTarget, i: nat, first: Candidate)
    requires p.Resolves(t) && Earliest(p, names, t, i, first)
    ensures Earliest(p, names + [c], t, i, first)
  {
    var k :| 0 <= k < |names| && names[k] == first && FiredBy(p, t, first, i) && NotBefore(p, names, t, i, k);
    assert (names + [c])[k] == first && NotBefore(p, names + [c], t, i, k);
  }

  /** A name that is too long, or fires no rule, or no better one, changes nothing. */
  lemma TrackUnchanged(p: Policy, names: seq<Candidate>, c: Candidate, t: ResolvedTarget, entry: Option<Match>)
    requires p.Resolves(t) && Tracks(p, names, t, entry)
    requires forall i :: 0 <= i < |p.rules| && FiredBy(p, t, c, i) ==> entry.Some? && !Better(p, i, entry.value.index)
    ensures Tracks(p, names + [c], t, entry)
  {
    forall i | 0 <= i < |p.rules|
      ensures Reached(p, names + [c], t, i) <==> Reached(p, names, t, i) || FiredBy(p, t, c, i)
    {
      ReachedSnoc(p, names, c, t, i);
    }
    if entry.Some? {
      EarliestSnoc(p, names, c, t, entry.value.index, entry.value.candidate);
    }
  }

  /** A better first rule replaces the entry. */
  lemma TrackReplaced(p: Policy, names: seq<Candidate>, c: Candidate, t: ResolvedTarget, entry: Option<Match>, i: nat)
    requires p.Resolves(t) && Tracks(p, names, t, entry)
    requires FiredBy(p, t, c, i)
    requires entry.Some? ==> Better(p, i, entry.value.index)
    ensures Tracks(p, names + [c], t, Some(Match(t, i, p.rules[i].name, p.rules[i].tier, c)))
  {
    forall j | 0 <= j < |p.rules|
      ensures Reached(p, names + [c], t, j) <==> Reached(p, names, t, j) || FiredBy(p, t, c, j)
    {
      ReachedSnoc(p, names, c, t, j);
    }
    var all := names + [c];
    assert !Reached(p, names, t, i);
    assert all[|names|] == c;
    forall j | 0 <= j < |names| ensures !FiredBy(p, t, all[j], i) {
      assert all[j] == names[j];
    }
    assert NotBefore(p, all, t, i, |names|);
  }

  // ---------- the collected matches ----------

  ghost predicate UniqueIds(ms: seq<Match>) {
    forall i, j :: 0 <= i < j < |ms| ==> MatchId(ms[i]) != MatchId(ms[j])
  }

  /** One entry per target that some kept name fires a rule of. */
  ghost predicate Collected(e: Engine, names: seq<Candidate>, ms: seq<Match>)
    requires e.Ready()
  {
    && UniqueIds(ms)
    && (forall m :: m in ms ==> m.resolved in e.targets && IsEntry(e.policy, names, m.resolved, m))
    && (forall t, i: nat :: t in e.targets && IsBest(e.policy, names, t, i) ==> HasMatch(ms, t, i))
  }

  ghost predicate HasMatch(ms: seq<Match>, t: ResolvedTarget, i: nat) {
    exists m :: m in ms && m.resolved == t && m.index == i
  }

  lemma BestUnique(p: Policy, names: seq<Candidate>, t: ResolvedTarget, i: nat, j: nat)
    requires p.Resolves(t) && IsBest(p, names, t, i) && IsBest(p, names, t, j)
    ensures i == j
  {
  }

  /** The dictionary and the order of its keys. */
  ghost predicate IsDict(e: Engine, best: map<string, Match>, order: seq<string>) {
    Distinct(order) && (forall id :: id in order <==> id in best) && best.Keys <= Ids(e.targets)
  }

  /** Targets below `m` have seen the name, the others not yet. */
  ghost predicate TracksAll(e: Engine, seen: seq<Candidate>, c: Candidate, m: nat, best: map<string, Match>)
    requires e.Ready() && m <= |e.targets|
  {
    && (forall t :: 0 <= t < m ==> Tracks(e.policy, seen + [c], e.targets[t], Lookup(best, Id(e.targets[t]))))
    && (forall t :: m <= t < |e.targets| ==> Tracks(e.policy, seen, e.targets[t], Lookup(best, Id(e.targets[t]))))
  }

  ghost predicate TracksSeen(e: Engine, seen: seq<Candidate>, best: map<string, Match>)
    requires e.Ready()
  {
    forall t :: 0 <= t < |e.targets| ==> Tracks(e.policy, seen, e.targets[t], Lookup(best, Id(e.targets[t])))
  }

  /** The loop of `evaluate_all`: names outside, targets inside, one dictionary of bests. */
  method CollectBests(e: Engine, names: seq<Candidate>) returns (ms: seq<Match>)
    requires e.Ready()
    ensures Collected(e, names, ms)
  {
    var best: map<string, Match> := map[];
    var order: seq<string> := [];
    for k := 0 to |names|
      invariant IsDict(e, best, order) && TracksSeen(e, names[..k], best)
    {
      assert names[..k + 1] == names[..k] + [names[k]];
      if Kept(e.policy, names[k]) {
        best, order := ConsiderName(e, names[..k], names[k], best, order);
      } else {
        NameSkipped(e, names[..k], names[k], best);
      }
    }
    assert names[..|names|] == names;
    ms := seq(|order|, i requires 0 <= i < |order| && order[i] in best => best[order[i]]);
    BestsAreCollected(e, names, best, order, ms);
  }

  lemma NameSkipped(e: Engine, seen: seq<Candidate>, c: Candidate, best: map<string, Match>)
    requires e.Ready() && TracksSeen(e, seen, best) && !Kept(e.policy, c)
    ensures TracksSeen(e, seen + [c], best)
  {
    forall t | 0 <= t < |e.targets|
      ensures Tracks(e.policy, seen + [c], e.targets[t], Lookup(best, Id(e.targets[t])))
    {
      TrackUnchanged(e.policy, seen, c, e.targets[t], Lookup(best, Id(e.targets[t])));
    }
  }

  method ConsiderName(e: Engine, ghost seen: seq<Candidate>, c: Candidate, best: map<string, Match>, order: seq<string>)
    returns (best': map<string, Match>, order': seq<string>)
    requires e.Ready() && Kept(e.policy, c) && IsDict(e, best, order) && TracksSeen(e, seen, best)
    ensures IsDict(e, best', order') && TracksSeen(e, seen + [c], best')
  {
    best', order' := best, order;
    for m := 0 to |e.targets|
      invariant IsDict(e, best', order') && TracksAll(e, seen, c, m, best')
    {
      ghost var before := best';
      best', order' := Consider(e, seen, c, m, best', order');
      forall t | 0 <= t < |e.targets| && t != m
        ensures Lookup(best', Id(e.targets[t])) == Lookup(before, Id(e.targets[t]))
      {
      }
    }
  }

  /** One (name, target) step of the loop. */
  method Consider(e: Engine, ghost seen: seq<Candidate>, c: Candidate, m: nat, best: map<string, Match>,
                  order: seq<string>)
    returns (best': map<string, Match>, order': seq<string>)
    requires e.Ready() && m < |e.targets| && Kept(e.policy, c) && IsDict(e, best, order)
    requires Tracks(e.policy, seen, e.targets[m], Lookup(best, Id(e.targets[m])))
    ensures IsDict(e, best', order')
    ensures forall id :: id != Id(e.targets[m]) ==> Lookup(best', id) == Lookup(best, id)
    ensures Tracks(e.policy, seen + [c], e.targets[m], Lookup(best', Id(e.targets[m])))
  {
    best', order' := best, order;
    var t := e.targets[m];
    var outcome := FirstMatchingRule(e.policy, t, c);
    var current := Lookup(best, Id(t));
    if outcome.None? {
      TrackUnchanged(e.policy, seen, c, t, current);
      return;
    }
    var index := outcome.value;
    if current.None? || Better(e.policy, index, current.value.index) {
      TrackReplaced(e.policy, seen, c, t, current, index);
      best' := best[Id(t) := Match(t, index, e.policy.rules[index].name, e.policy.rules[index].tier, c)];
      if Id(t) !in best {
        order' := order + [Id(t)];
      }
    } else {
      TrackUnchanged(e.policy, seen, c, t, current);
    }
  }

  lemma BestsAreCollected(e: Engine, names: seq<Candidate>, best: map<string, Match>, order: seq<string>,
                          ms: seq<Match>)
    requires e.Ready()
    requires IsDict(e, best, order) && TracksSeen(e, names, best)
    requires |ms| == |order| && forall i :: 0 <= i < |order| ==> ms[i] == best[order[i]]
    ensures Collected(e, names, ms)
  {
    forall i | 0 <= i < |ms|
      ensures MatchId(ms[i]) == order[i] && ms[i].resolved in e.targets
      ensures IsEntry(e.policy, names, ms[i].resolved, ms[i])
    {
      assert order[i] in best;
      var t :| 0 <= t < |e.targets| && Id(e.targets[t]) == order[i];
      assert Tracks(e.policy, names, e.targets[t], Lookup(best, Id(e.targets[t])));
    }
    forall t, i: nat | t in e.targets && IsBest(e.policy, names, t, i) ensures HasMatch(ms, t, i) {
      var k :| 0 <= k < |e.targets| && e.targets[k] == t;
      assert Tracks(e.policy, names, t, Lookup(best, Id(t)));
      assert Id(t) in best;
      var p :| 0 <= p < |order| && order[p] == Id(t);
      BestUnique(e.policy, names, t, i, best[Id(t)].index);
      assert ms[p] in ms;
    }
  }

  // ---------- _fan_out ----------

  predicate Attributable(m: Match) { m.ruleName in ATTRIBUTABLE }

  predicate SegmentLevel(m: Match) { m.ruleName in SEGMENT_LEVEL }

  /** The entries of one episode's group, in the order of the matches. */
  function Group(ms: seq<Match>, episode: int): (r: seq<Match>)
    ensures forall m :: m in r <==> m in ms && Attributable(m) && Episode(m.resolved) == episode
  {
    if ms == [] then []
    else
      var m := ms[|ms| - 1];
      assert ms == ms[..|ms| - 1] + [m];
      Group(ms[..|ms| - 1], episode) + (if Attributable(m) && Episode(m.resolved) == episode then [m] else [])
  }

  lemma {:induction false} GroupDistinct(ms: seq<Match>, episode: int)
    requires Distinct(ms)
    ensures Distinct(Group(ms, episode))
  {
    if ms != [] {
      GroupDistinct(ms[..|ms| - 1], episode);
      assert ms[|ms| - 1] !in ms[..|ms| - 1];
    }
  }

  lemma GroupSnoc(ms: seq<Match>, m: Match, episode: int)
    ensures Group(ms + [m], episode)
      == if Attributable(m) && Episode(m.resolved) == episode then Group(ms, episode) + [m] else Group(ms, episode)
  {
    assert (ms + [m])[..|ms|] == ms;
  }

  ghost predicate SegmentSignal(ms: seq<Match>, episode: int) {
    exists m :: m in ms && SegmentLevel(m) && Episode(m.resolved) == episode
  }

  /** A segment-level signal emits only those segments; otherwise every segment of the episode. */
  ghost predicate FannedOut(ms: seq<Match>, m: Match) {
    m in ms && Attributable(m) && (SegmentLevel(m) || !SegmentSignal(ms, Episode(m.resolved)))
  }

  function SegmentLevelOrGroup(group: seq<Match>): seq<Match> {
    var segmentLevel := Filter(group, SegmentLevel);
    if segmentLevel != [] then segmentLevel else group
  }

  lemma UniqueIdsDistinct(ms: seq<Match>)
    requires UniqueIds(ms)
    ensures Distinct(ms)
    ensures forall a, b :: a in ms && b in ms && MatchId(a) == MatchId(b) ==> a == b
  {
  }

  lemma SegmentLevelOrGroupEmits(ms: seq<Match>, episode: int)
    requires UniqueIds(ms)
    ensures Distinct(SegmentLevelOrGroup(Group(ms, episode)))
    ensures forall m :: m in SegmentLevelOrGroup(Group(ms, episode)) <==>
      FannedOut(ms, m) && Episode(m.resolved) == episode
  {
    UniqueIdsDistinct(ms);
    var group := Group(ms, episode);
    GroupDistinct(ms, episode);
    FilterDistinct(group, SegmentLevel);
    var segmentLevel := Filter(group, SegmentLevel);
    if SegmentSignal(ms, episode) {
      var s :| s in ms && SegmentLevel(s) && Episode(s.resolved) == episode;
      assert s in segmentLevel;
    } else if segmentLevel != [] {
      assert segmentLevel[0] in segmentLevel;
      assert SegmentSignal(ms, episode);
    }
  }

  predicate IdAtMost(a: Match, b: Match) { AtMost(MatchId(a), MatchId(b)) }

  ghost predicate AscendingIds(ms: seq<Match>) {
    forall i, j :: 0 <= i < j < |ms| ==> Below(MatchId(ms[i]), MatchId(ms[j]))
  }

  /** What has been emitted once some episodes have been handled. */
  ghost predicate EmittedFor(ms: seq<Match>, emitted: seq<Match>, episodes: seq<int>) {
    && Distinct(emitted)
    && forall m :: m in emitted <==> FannedOut(ms, m) && Episode(m.resolved) in episodes
  }

  lemma EmittedGrows(ms: seq<Match>, emitted: seq<Match>, episodes: seq<int>, episode: int)
    requires UniqueIds(ms) && EmittedFor(ms, emitted, episodes) && episode !in episodes
    ensures EmittedFor(ms, emitted + SegmentLevelOrGroup(Group(ms, episode)), episodes + [episode])
  {
    SegmentLevelOrGroupEmits(ms, episode);
  }

  lemma AllEpisodes(ms: seq<Match>, byEpisode: map<int, seq<Match>>, episodes: seq<int>)
    requires forall ep :: ep in episodes <==> ep in byEpisode
    requires forall ep :: GroupAt(byEpisode, ep) == Group(ms, ep)
    ensures forall m :: FannedOut(ms, m) ==> Episode(m.resolved) in episodes
    ensures forall i :: 0 <= i < |episodes| ==>
      episodes[i] in byEpisode && byEpisode[episodes[i]] == Group(ms, episodes[i])
  {
    forall i | 0 <= i < |episodes|
      ensures episodes[i] in byEpisode && byEpisode[episodes[i]] == Group(ms, episodes[i])
    {
      assert GroupAt(byEpisode, episodes[i]) == Group(ms, episodes[i]);
    }
    forall m | FannedOut(ms, m) ensures Episode(m.resolved) in episodes {
      assert m in Group(ms, Episode(m.resolved));
      assert GroupAt(byEpisode, Episode(m.resolved)) != [];
    }
  }

  method FanOut(ms: seq<Match>) returns (emitted: seq<Match>)
    requires UniqueIds(ms)
    ensures AscendingIds(emitted)
    ensures forall m :: m in emitted <==> FannedOut(ms, m)
  {
    var byEpisode, episodes := GroupByEpisode(ms);
    AllEpisodes(ms, byEpisode, episodes);
    var unsorted := EmitGroups(ms, byEpisode, episodes);
    emitted := SortById(ms, unsorted);
  }

  method EmitGroups(ghost ms: seq<Match>, byEpisode: map<int, seq<Match>>, episodes: seq<int>)
    returns (emitted: seq<Match>)
    requires UniqueIds(ms) && Distinct(episodes)
    requires forall i :: 0 <= i < |episodes| ==>
      episodes[i] in byEpisode && byEpisode[episodes[i]] == Group(ms, episodes[i])
    ensures EmittedFor(ms, emitted, episodes)
  {
    emitted := [];
    for i := 0 to |episodes|
      invariant EmittedFor(ms, emitted, episodes[..i])
    {
      EmittedGrows(ms, emitted, episodes[..i], episodes[i]);
      assert episodes[..i + 1] == episodes[..i] + [episodes[i]];
      emitted := emitted + SegmentLevelOrGroup(byEpisode[episodes[i]]);
    }
    assert episodes[..|episodes|] == episodes;
  }

  function GroupAt(byEpisode: map<int, seq<Match>>, episode: int): seq<Match> {
    if episode in byEpisode then byEpisode[episode] else []
  }

  method GroupByEpisode(ms: seq<Match>) returns (byEpisode: map<int, seq<Match>>, episodes: seq<int>)
    ensures Distinct(episodes) && forall ep :: ep in episodes <==> ep in byEpisode
    ensures forall ep :: GroupAt(byEpisode, ep) == Group(ms, ep)
  {
    byEpisode, episodes := map[], [];
    for i := 0 to |ms|
      invariant Distinct(episodes) && forall ep :: ep in episodes <==> ep in byEpisode
      invariant forall ep :: GroupAt(byEpisode, ep) == Group(ms[..i], ep)
    {
      assert ms[..i + 1] == ms[..i] + [ms[i]];
      if Attributable(ms[i]) {
        byEpisode, episodes := AddToGroup(ms[..i], ms[i], byEpisode, episodes);
      } else {
        forall ep ensures Group(ms[..i + 1], ep) == Group(ms[..i], ep) { GroupSnoc(ms[..i], ms[i], ep); }
      }
    }
    assert ms[..|ms|] == ms;
  }

  /** `by_episode.setdefault(absolute_number, []).append(entry)` */
  method AddToGroup(ghost seen: seq<Match>, m: Match, byEpisode: map<int, seq<Match>>, episodes: seq<int>)
    returns (byEpisode': map<int, seq<Match>>, episodes': seq<int>)
    requires Attributable(m)
    requires Distinct(episodes) && forall ep :: ep in episodes <==> ep in byEpisode
    requires forall ep :: GroupAt(byEpisode, ep) == Group(seen, ep)
    ensures Distinct(episodes') && forall ep :: ep in episodes' <==> ep in byEpisode'
    ensures forall ep :: GroupAt(byEpisode', ep) == Group(seen + [m], ep)
  {
    var episode := Episode(m.resolved);
    byEpisode' := byEpisode[episode := GroupAt(byEpisode, episode) + [m]];
    episodes' := if episode in byEpisode then episodes else episodes + [episode];
    GroupsGrow(seen, m, byEpisode);
  }

  lemma GroupsGrow(seen: seq<Match>, m: Match, byEpisode: map<int, seq<Match>>)
    requires Attributable(m) && forall ep :: GroupAt(byEpisode, ep) == Group(seen, ep)
    ensures
      var episode := Episode(m.resolved);
      forall ep :: GroupAt(byEpisode[episode := GroupAt(byEpisode, episode) + [m]], ep) == Group(seen + [m], ep)
  {
    var grown := byEpisode[Episode(m.resolved) := GroupAt(byEpisode, Episode(m.resolved)) + [m]];
    forall ep ensures GroupAt(grown, ep) == Group(seen + [m], ep) {
      GroupSnoc(seen, m, ep);
    }
  }

  method SortById(ghost ms: seq<Match>, emitted: seq<Match>) returns (r: seq<Match>)
    requires UniqueIds(ms) && Distinct(emitted) && forall m :: m in emitted ==> m in ms
    ensures AscendingIds(r) && forall m :: m in r <==> m in emitted
  {
    r := Sort(emitted, IdAtMost);
    IdAtMostIsTotal();
    SortSorted(emitted, IdAtMost);
    SameElements(emitted, r);
    MultisetDistinct(emitted, r);
    UniqueIdsDistinct(ms);
    forall i, j | 0 <= i < j < |r| ensures Below(MatchId(r[i]), MatchId(r[j])) {
      assert IdAtMost(r[i], r[j]);
      assert r[i] in r && r[j] in r;
    }
  }

  lemma IdAtMostIsTotal()
    ensures TotalPreorder(IdAtMost)
  {
    BelowIsStrictTotal();
    forall a: Match, b: Match ensures IdAtMost(a, b) || IdAtMost(b, a) {
      BelowTotal(MatchId(a), MatchId(b));
    }
    forall a: Match, b: Match, c: Match | IdAtMost(a, b) && IdAtMost(b, c) ensures IdAtMost(a, c) {
      if MatchId(a) != MatchId(b) && MatchId(b) != MatchId(c) {
        BelowTransitive(MatchId(a), MatchId(b), MatchId(c));
      }
    }
  }

  // ---------- _single_winner ----------

  /** `(-rank, index, target_id)` of `a` is smaller than that of `b`. */
  predicate KeyBelow(a: Match, b: Match) {
    var ra, rb := Rank(a.tier), Rank(b.tier);
    ra > rb || (ra == rb && (a.index < b.index || (a.index == b.index && Below(MatchId(a), MatchId(b)))))
  }

  method SingleWinner(ms: seq<Match>) returns (r: seq<Match>)
    requires UniqueIds(ms)
    ensures |r| <= 1 && (r == [] <==> ms == [])
    ensures r != [] ==> r[0] in ms && forall m :: m in ms ==> !KeyBelow(m, r[0])
  {
    r := [];
    for i := 0 to |ms|
      invariant |r| <= 1 && (r == [] <==> i == 0)
      invariant r != [] ==> r[0] in ms && forall j :: 0 <= j < i ==> !KeyBelow(ms[j], r[0])
    {
      if r == [] || KeyBelow(ms[i], r[0]) {
        forall j | 0 <= j < i ensures !KeyBelow(ms[j], ms[i]) {
          if r != [] { KeyBelowTransitive(ms[j], ms[i], r[0]); }
        }
        BelowIrreflexive(MatchId(ms[i]));
        r := [ms[i]];
      }
    }
  }

  lemma KeyBelowTransitive(a: Match, b: Match, c: Match)
    ensures KeyBelow(a, b) && KeyBelow(b, c) ==> KeyBelow(a, c)
  {
    if Below(MatchId(a), MatchId(b)) && Below(MatchId(b), MatchId(c)) {
      BelowTransitive(MatchId(a), MatchId(b), MatchId(c));
    }
  }

  // ---------- evaluate_all ----------

  /** Some target's best rule attributes the file to it. */
  ghost predicate AnyAttributable(e: Engine, names: seq<Candidate>)
    requires e.Ready()
  {
    exists t, i: nat :: t in e.targets && IsBest(e.policy, names, t, i) && e.policy.rules[i].name in ATTRIBUTABLE
  }

  ghost predicate EpisodeHasSegment(e: Engine, names: seq<Candidate>, episode: int)
    requires e.Ready()
  {
    exists t, i: nat :: t in e.targets && Episode(t) == episode
      && IsBest(e.policy, names, t, i) && e.policy.rules[i].name in SEGMENT_LEVEL
  }

  ghost predicate Wins(e: Engine, t: ResolvedTarget, i: nat, u: ResolvedTarget, j: nat)
    requires i < |e.policy.rules| && j < |e.policy.rules|
  {
    Better(e.policy, i, j) || (i == j && Below(Id(t), Id(u)))
  }

  /** Target `t` with rule `i` is one of the decisions the file gets. */
  ghost predicate Decided(e: Engine, names: seq<Candidate>, t: ResolvedTarget, i: nat)
    requires e.Ready() && t in e.targets
  {
    && IsBest(e.policy, names, t, i)
    && if AnyAttributable(e, names)
       then
         && e.policy.rules[i].name in ATTRIBUTABLE
         && (e.policy.rules[i].name in SEGMENT_LEVEL || !EpisodeHasSegment(e, names, Episode(t)))
       else
         forall u, j: nat :: u in e.targets && IsBest(e.policy, names, u, j) ==> !Wins(e, u, j, t, i)
  }

  ghost predicate IsDecision(e: Engine, names: seq<Candidate>, d: Decision, t: ResolvedTarget, i: nat)
    requires e.Ready() && t in e.targets
  {
    && Decided(e, names, t, i)
    && d.targetId == Id(t) && d.ruleName == e.policy.rules[i].name && d.tier == e.policy.rules[i].tier
    && Earliest(e.policy, names, t, i, d.explained)
  }

  /** The declarative result: sorted by target, and exactly the decided targets. */
  ghost predicate Result(e: Engine, names: seq<Candidate>, ds: seq<Decision>)
    requires e.Ready()
  {
    && (forall i, j :: 0 <= i < j < |ds| ==> Below(ds[i].targetId, ds[j].targetId))
    && (forall d :: d in ds ==> Justified(e, names, d))
    && (forall t, i: nat :: t in e.targets && Decided(e, names, t, i) ==> Answered(e, names, ds, t, i))
  }

  ghost predicate Justified(e: Engine, names: seq<Candidate>, d: Decision)
    requires e.Ready()
  {
    exists t, i: nat :: t in e.targets && IsDecision(e, names, d, t, i)
  }

  ghost predicate Answered(e: Engine, names: seq<Candidate>, ds: seq<Decision>, t: ResolvedTarget, i: nat)
    requires e.Ready() && t in e.targets
  {
    exists d :: d in ds && IsDecision(e, names, d, t, i)
  }

  function ToDecision(m: Match): Decision {
    Decision(MatchId(m), m.ruleName, m.tier, m.candidate)
  }

  function ToDecisions(ms: seq<Match>): (ds: seq<Decision>)
    ensures |ds| == |ms| && forall i :: 0 <= i < |ms| ==> ds[i] == ToDecision(ms[i])
  {
    seq(|ms|, i requires 0 <= i < |ms| => ToDecision(ms[i]))
  }

  method EvaluateAll(e: Engine, names: seq<Candidate>) returns (ds: seq<Decision>)
    requires e.Ready()
    ensures Result(e, names, ds)
  {
    var ms := CollectBests(e, names);
    var emitted := FanOut(ms);
    if emitted != [] {
      FanOutResult(e, names, ms, emitted);
      ds := ToDecisions(emitted);
    } else {
      var winner := SingleWinner(ms);
      WinnerResult(e, names, ms, emitted, winner);
      ds := ToDecisions(winner);
    }
  }

  lemma AttributableMatches(e: Engine, names: seq<Candidate>, ms: seq<Match>)
    requires e.Ready() && Collected(e, names, ms)
    ensures AnyAttributable(e, names) <==> exists m :: FannedOut(ms, m)
    ensures forall ep :: SegmentSignal(ms, ep) <==> EpisodeHasSegment(e, names, ep)
  {
    forall ep ensures SegmentSignal(ms, ep) <==> EpisodeHasSegment(e, names, ep) {
      if EpisodeHasSegment(e, names, ep) {
        var t, i: nat :| t in e.targets && Episode(t) == ep
          && IsBest(e.policy, names, t, i) && e.policy.rules[i].name in SEGMENT_LEVEL;
        var m :| m in ms && m.resolved == t && m.index == i;
        assert SegmentLevel(m);
      }
    }
    if AnyAttributable(e, names) {
      var t, i: nat :| t in e.targets && IsBest(e.policy, names, t, i) && e.policy.rules[i].name in ATTRIBUTABLE;
      var m :| m in ms && m.resolved == t && m.index == i;
      if SegmentSignal(ms, Episode(t)) {
        var s :| s in ms && SegmentLevel(s) && Episode(s.resolved) == Episode(t);
        assert FannedOut(ms, s);
      } else {
        assert FannedOut(ms, m);
      }
    }
  }

  lemma ResultOf(e: Engine, names: seq<Candidate>, ms: seq<Match>, chosen: seq<Match>)
    requires e.Ready() && Collected(e, names, ms)
    requires AscendingIds(chosen)
    requires forall m :: m in chosen <==> m in ms && Decided(e, names, m.resolved, m.index)
    ensures Result(e, names, ToDecisions(chosen))
  {
    var ds := ToDecisions(chosen);
    forall d | d in ds ensures Justified(e, names, d) {
      var k :| 0 <= k < |ds| && ds[k] == d;
      assert chosen[k] in chosen;
      assert IsDecision(e, names, d, chosen[k].resolved, chosen[k].index);
    }
    forall t, i: nat | t in e.targets && Decided(e, names, t, i)
      ensures Answered(e, names, ds, t, i)
    {
      assert HasMatch(ms, t, i);
      var m :| m in ms && m.resolved == t && m.index == i;
      var k :| 0 <= k < |chosen| && chosen[k] == m;
      assert ds[k] in ds && IsDecision(e, names, ds[k], t, i);
    }
  }

  lemma FanOutResult(e: Engine, names: seq<Candidate>, ms: seq<Match>, emitted: seq<Match>)
    requires e.Ready() && Collected(e, names, ms) && emitted != []
    requires AscendingIds(emitted) && forall m :: m in emitted <==> FannedOut(ms, m)
    ensures Result(e, names, ToDecisions(emitted))
  {
    AttributableMatches(e, names, ms);
    assert FannedOut(ms, emitted[0]);
    forall m ensures m in emitted <==> m in ms && Decided(e, names, m.resolved, m.index) {
    }
    ResultOf(e, names, ms, emitted);
  }

  lemma WinnerResult(e: Engine, names: seq<Candidate>, ms: seq<Match>, emitted: seq<Match>, winner: seq<Match>)
    requires e.Ready() && Collected(e, names, ms) && emitted == []
    requires forall m :: m in emitted <==> FannedOut(ms, m)
    requires |winner| <= 1 && (winner == [] <==> ms == [])
    requires winner != [] ==> winner[0] in ms && forall m :: m in ms ==> !KeyBelow(m, winner[0])
    ensures Result(e, names, ToDecisions(winner))
  {
    AttributableMatches(e, names, ms);
    assert !AnyAttributable(e, names);
    forall m ensures m in winner <==> m in ms && Decided(e, names, m.resolved, m.index) {
      if m in winner {
        WinnerDecided(e, names, ms, m);
      }
      if m in ms && Decided(e, names, m.resolved, m.index) {
        OnlyWinner(e, names, ms, winner[0], m);
      }
    }
    ResultOf(e, names, ms, winner);
  }

  lemma WinnerDecided(e: Engine, names: seq<Candidate>, ms: seq<Match>, w: Match)
    requires e.Ready() && Collected(e, names, ms) && !AnyAttributable(e, names)
    requires w in ms && forall m :: m in ms ==> !KeyBelow(m, w)
    ensures Decided(e, names, w.resolved, w.index)
  {
    forall u, j: nat | u in e.targets && IsBest(e.policy, names, u, j) ensures !Wins(e, u, j, w.resolved, w.index) {
      assert HasMatch(ms, u, j);
      var m :| m in ms && m.resolved == u && m.index == j;
      assert !KeyBelow(m, w);
    }
  }

  lemma OnlyWinner(e: Engine, names: seq<Candidate>, ms: seq<Match>, w: Match, m: Match)
    requires e.Ready() && Collected(e, names, ms) && !AnyAttributable(e, names)
    requires w in ms && forall x :: x in ms ==> !KeyBelow(x, w)
    requires m in ms && Decided(e, names, m.resolved, m.index)
    ensures m == w
  {
    assert IsBest(e.policy, names, w.resolved, w.index);
    assert !Wins(e, w.resolved, w.index, m.resolved, m.index);
    assert !KeyBelow(m, w);
    BelowTotal(MatchId(m), MatchId(w));
    UniqueIdsDistinct(ms);
  }

  // ---------- the result in the terms of the configuration ----------

  /** The best rule of a target: a `download` rule if a kept name fires one first, else a `notify` rule if one does,
      else a `catalog` rule; and of the rules of that tier the first in the configuration. */
  lemma BestByTier(p: Policy, names: seq<Candidate>, t: ResolvedTarget, i: nat)
    requires p.Resolves(t)
    ensures IsBest(p, names, t, i) <==>
      && i < |p.rules| && Reached(p, names, t, i)
      && (forall j :: 0 <= j < i && Reached(p, names, t, j) ==> p.rules[j].tier != p.rules[i].tier)
      && forall j :: 0 <= j < |p.rules| && Reached(p, names, t, j) ==>
           match p.rules[i].tier
           case Download => true
           case Notify => !p.rules[j].tier.Download?
           case Catalog => p.rules[j].tier.Catalog?
  {
  }

  predicate NamesSegment(rule: string) {
    rule == "id_segment_exact" || rule == "title_confirmed" || rule == "title_review"
  }

  predicate NamesEpisode(rule: string) { rule == "numero_nu_confirmed" || rule == "numero_nu" }

  /** Some target's best rule names a segment or an episode. */
  ghost predicate NamesSomething(e: Engine, names: seq<Candidate>)
    requires e.Ready()
  {
    exists u, j: nat ::
      && u in e.targets && IsBest(e.policy, names, u, j)
      && (NamesSegment(e.policy.rules[j].name) || NamesEpisode(e.policy.rules[j].name))
  }

  /** No target of the episode has a best rule that names a segment. */
  ghost predicate NoSegmentNamed(e: Engine, names: seq<Candidate>, episode: int)
    requires e.Ready()
  {
    forall u, j: nat ::
      (u in e.targets && IsBest(e.policy, names, u, j) && u.target.absoluteNumber == episode) ==>
        !NamesSegment(e.policy.rules[j].name)
  }

  lemma LevelsAre(rule: string)
    ensures rule in SEGMENT_LEVEL <==> NamesSegment(rule)
    ensures rule in ATTRIBUTABLE <==> NamesSegment(rule) || NamesEpisode(rule)
  {
  }

  /** When some target's best rule names a segment or an episode: exactly the targets whose best rule names a segment,
      and those whose best rule names an episode none of whose targets has a best rule that names a segment. */
  lemma AttributedIff(e: Engine, names: seq<Candidate>, t: ResolvedTarget, i: nat)
    requires e.Ready() && t in e.targets && NamesSomething(e, names)
    ensures Decided(e, names, t, i) <==>
      && IsBest(e.policy, names, t, i)
      && (|| NamesSegment(e.policy.rules[i].name)
          || (NamesEpisode(e.policy.rules[i].name) && NoSegmentNamed(e, names, t.target.absoluteNumber)))
  {
    forall rule: string
      ensures rule in SEGMENT_LEVEL <==> NamesSegment(rule)
      ensures rule in ATTRIBUTABLE <==> NamesSegment(rule) || NamesEpisode(rule)
    {
      LevelsAre(rule);
    }
  }

  /** When none does: the target whose best rule has the highest tier, then the smallest index, then the least id. */
  lemma UnattributedIff(e: Engine, names: seq<Candidate>, t: ResolvedTarget, i: nat)
    requires e.Ready() && t in e.targets && !NamesSomething(e, names)
    ensures Decided(e, names, t, i) <==>
      && IsBest(e.policy, names, t, i)
      && forall u, j: nat :: u in e.targets && IsBest(e.policy, names, u, j) ==> Yields(e.policy, u, j, t, i)
  {
    forall rule: string ensures rule in ATTRIBUTABLE <==> NamesSegment(rule) || NamesEpisode(rule) {
      LevelsAre(rule);
    }
    if i < |e.policy.rules| {
      forall u, j: nat | u in e.targets && j < |e.policy.rules|
        ensures Wins(e, u, j, t, i) <==> !Yields(e.policy, u, j, t, i)
      {
        BelowTotal(t.target.id, u.target.id);
        AtMostAntisymmetric(t.target.id, u.target.id);
        BelowIrreflexive(t.target.id);
      }
    }
  }

  /** Target `u` with rule `j` does not come before target `t` with rule `i`. */
  predicate Yields(p: Policy, u: ResolvedTarget, j: nat, t: ResolvedTarget, i: nat)
    requires i < |p.rules| && j < |p.rules|
  {
    || OutrankedBy(p.rules[j].tier, p.rules[i].tier)
    || (p.rules[j].tier == p.rules[i].tier && (i < j || (i == j && AtMost(t.target.id, u.target.id))))
  }

  predicate OutrankedBy(low: Tier, high: Tier) {
    (low.Catalog? && !high.Catalog?) || (low.Notify? && high.Download?)
  }

  ghost predicate Bears(e: Engine, names: seq<Candidate>, d: Decision, t: ResolvedTarget, i: nat)
    requires e.Ready() && t in e.targets
  {
    && i < |e.policy.rules| && Decided(e, names, t, i)
    && d.targetId == t.target.id && d.ruleName == e.policy.rules[i].name && d.tier == e.policy.rules[i].tier
  }

  /** A decision bears the id of its target and the name and the tier of its rule, both as configured. */
  lemma DecisionBears(e: Engine, names: seq<Candidate>, ds: seq<Decision>, d: Decision)
    requires e.Ready() && Result(e, names, ds) && d in ds
    ensures exists t, i: nat :: t in e.targets && Bears(e, names, d, t, i)
  {
    assert Justified(e, names, d);
    var t, i: nat :| t in e.targets && IsDecision(e, names, d, t, i);
    assert Bears(e, names, d, t, i);
  }

  // ---------- the order of names and targets does not matter ----------

  /** The same rules and text engines over the same targets, listed in any order. */
  ghost predicate SameTargets(e: Engine, f: Engine) {
    && e.policy == f.policy
    && forall t :: t in e.targets <==> t in f.targets
  }

  ghost predicate SameNames(a: seq<Candidate>, b: seq<Candidate>) {
    forall c :: c in a <==> c in b
  }

  lemma BestIndependent(p: Policy, a: seq<Candidate>, b: seq<Candidate>, t: ResolvedTarget, i: nat)
    requires p.Resolves(t) && SameNames(a, b)
    ensures IsBest(p, a, t, i) <==> IsBest(p, b, t, i)
  {
    forall j: nat ensures Reached(p, a, t, j) <==> Reached(p, b, t, j) {
      ReachedIncluded(p, a, b, t, j);
      ReachedIncluded(p, b, a, t, j);
    }
  }

  lemma ReachedIncluded(p: Policy, a: seq<Candidate>, b: seq<Candidate>, t: ResolvedTarget, i: nat)
    requires p.Resolves(t) && forall c :: c in a ==> c in b
    ensures Reached(p, a, t, i) ==> Reached(p, b, t, i)
  {
    if Reached(p, a, t, i) {
      var k :| 0 <= k < |a| && FiredBy(p, t, a[k], i);
      assert a[k] in b;
    }
  }

  lemma DecidedIndependent(e: Engine, f: Engine, a: seq<Candidate>, b: seq<Candidate>, t: ResolvedTarget, i: nat)
    requires e.Ready() && f.Ready() && SameTargets(e, f) && SameNames(a, b) && t in e.targets
    ensures Decided(e, a, t, i) <==> Decided(f, b, t, i)
  {
    forall u, j: nat | u in e.targets ensures IsBest(e.policy, a, u, j) <==> IsBest(e.policy, b, u, j) {
      BestIndependent(e.policy, a, b, u, j);
    }
    AttributionIncluded(e, f, a, b, Episode(t));
    AttributionIncluded(f, e, b, a, Episode(t));
  }

  lemma AttributionIncluded(e: Engine, f: Engine, a: seq<Candidate>, b: seq<Candidate>, episode: int)
    requires e.Ready() && f.Ready() && SameTargets(e, f)
    requires forall u, j: nat :: u in e.targets && IsBest(e.policy, a, u, j) ==> IsBest(f.policy, b, u, j)
    ensures AnyAttributable(e, a) ==> AnyAttributable(f, b)
    ensures EpisodeHasSegment(e, a, episode) ==> EpisodeHasSegment(f, b, episode)
  {
  }

  predicate RecordBelow(a: Record, b: Record) { Below(a.targetId, b.targetId) }

  function Records(ds: seq<Decision>): (rs: seq<Record>)
    ensures |rs| == |ds| && forall i :: 0 <= i < |ds| ==> rs[i] == ToRecord(ds[i])
  {
    seq(|ds|, i requires 0 <= i < |ds| => ToRecord(ds[i]))
  }

  /** The recorded triples depend only on which names and which targets there are. */
  lemma RecordsOrderIndependent(e: Engine, f: Engine, a: seq<Candidate>, b: seq<Candidate>,
                                ds: seq<Decision>, es: seq<Decision>)
    requires e.Ready() && f.Ready() && SameTargets(e, f) && SameNames(a, b)
    requires Result(e, a, ds) && Result(f, b, es)
    ensures Records(ds) == Records(es)
  {
    forall t, i: nat | t in e.targets ensures Decided(e, a, t, i) <==> Decided(f, b, t, i) {
      DecidedIndependent(e, f, a, b, t, i);
    }
    RecordsInclude(e, f, a, b, ds, es);
    RecordsInclude(f, e, b, a, es, ds);
    forall x: Record ensures !RecordBelow(x, x) { BelowIrreflexive(x.targetId); }
    forall x: Record, y: Record ensures !(RecordBelow(x, y) && RecordBelow(y, x)) {
      if RecordBelow(x, y) && RecordBelow(y, x) {
        BelowTransitive(x.targetId, y.targetId, x.targetId);
        BelowIrreflexive(x.targetId);
      }
    }
    AscendingUnique(Records(ds), Records(es), RecordBelow);
  }

  lemma RecordsInclude(e: Engine, f: Engine, a: seq<Candidate>, b: seq<Candidate>,
                       ds: seq<Decision>, es: seq<Decision>)
    requires e.Ready() && f.Ready() && SameTargets(e, f)
    requires forall t, i: nat :: t in e.targets && Decided(e, a, t, i) ==> Decided(f, b, t, i)
    requires forall d :: d in ds ==> Justified(e, a, d)
    requires forall t, i: nat :: t in f.targets && Decided(f, b, t, i) ==> Answered(f, b, es, t, i)
    ensures forall r :: r in Records(ds) ==> r in Records(es)
  {
    forall k | 0 <= k < |ds| ensures Records(ds)[k] in Records(es) {
      assert ds[k] in ds;
      RecordIncluded(e, f, a, b, ds[k], es);
    }
  }

  lemma RecordIncluded(e: Engine, f: Engine, a: seq<Candidate>, b: seq<Candidate>, d: Decision, es: seq<Decision>)
    requires e.Ready() && f.Ready() && SameTargets(e, f) && Justified(e, a, d)
    requires forall t, i: nat :: t in e.targets && Decided(e, a, t, i) ==> Decided(f, b, t, i)
    requires forall t, i: nat :: t in f.targets && Decided(f, b, t, i) ==> Answered(f, b, es, t, i)
    ensures ToRecord(d) in Records(es)
  {
    var t, i: nat :| t in e.targets && IsDecision(e, a, d, t, i);
    assert Answered(f, b, es, t, i);
    var x :| x in es && IsDecision(f, b, x, t, i);
    var p :| 0 <= p < |es| && es[p] == x;
    assert Records(es)[p] == ToRecord(d);
  }

  /** Reordering the targets alone changes nothing at all, the explaining name included. */
  lemma DecisionsTargetOrderIndependent(e: Engine, f: Engine, names: seq<Candidate>,
                                        ds: seq<Decision>, es: seq<Decision>)
    requires e.Ready() && f.Ready() && SameTargets(e, f)
    requires Result(e, names, ds) && Result(f, names, es)
    ensures ds == es
  {
    RecordsOrderIndependent(e, f, names, names, ds, es);
    assert |ds| == |es|;
    forall k | 0 <= k < |ds| ensures ds[k] == es[k] {
      assert Records(ds)[k] == Records(es)[k];
      assert ds[k] in ds && es[k] in es;
      SameDecision(e, f, names, ds[k], es[k]);
    }
  }

  lemma SameDecision(e: Engine, f: Engine, names: seq<Candidate>, d: Decision, x: Decision)
    requires e.Ready() && f.Ready() && SameTargets(e, f)
    requires Justified(e, names, d) && Justified(f, names, x) && ToRecord(d) == ToRecord(x)
    ensures d == x
  {
    var t, i: nat :| t in e.targets && IsDecision(e, names, d, t, i);
    var u, j: nat :| u in f.targets && IsDecision(f, names, x, u, j);
    SameId(e, t, u);
    BestUnique(e.policy, names, t, i, j);
    EarliestUnique(e.policy, names, t, i, d.explained, x.explained);
  }

  lemma SameId(e: Engine, t: ResolvedTarget, u: ResolvedTarget)
    requires e.Ready() && t in e.targets && u in e.targets && Id(t) == Id(u)
    ensures t == u
  {
  }

  lemma EarliestUnique(p: Policy, names: seq<Candidate>, t: ResolvedTarget, i: nat, c: Candidate, d: Candidate)
    requires p.Resolves(t) && Earliest(p, names, t, i, c) && Earliest(p, names, t, i, d)
    ensures c == d
  {
    var k :| 0 <= k < |names| && names[k] == c && FiredBy(p, t, c, i) && NotBefore(p, names, t, i, k);
    var l :| 0 <= l < |names| && names[l] == d && FiredBy(p, t, d, i) && NotBefore(p, names, t, i, l);
  }

  // ---------- from the configuration to the decisions ----------

  function ForConfig(ops: TextOps, config: MatcherConfig, targets: seq<Target>, maxFilenameLength: int): Engine
    requires Resolvable(config)
  {
    Engine(Policy(ops, config.rules, maxFilenameLength),
           seq(|targets|, i requires 0 <= i < |targets| => ResolveAll(ops, config, targets[i])))
  }

  lemma EngineReady(ops: TextOps, config: MatcherConfig, targets: seq<Target>, maxFilenameLength: int)
    requires Resolvable(config)
    requires forall i, j :: 0 <= i < j < |targets| ==> targets[i].id != targets[j].id
    ensures ForConfig(ops, config, targets, maxFilenameLength).Ready()
  {
    var e := ForConfig(ops, config, targets, maxFilenameLength);
    forall t | t in e.targets ensures e.policy.Resolves(t) {
      RulesByNameHas(ops, config, |config.rules|, t.target);
    }
  }

  /** The engine built from a validated configuration is ready, and its rules fire exactly when
      their conditions, read over the token table, hold. */
  lemma EngineReadsTable(ops: TextOps, config: MatcherConfig, targets: seq<Target>, maxFilenameLength: int,
                         k: nat, c: Candidate, i: nat, reading: Reading)
    requires Resolvable(config) && DistinctRuleNames(config)
    requires forall i, j :: 0 <= i < j < |targets| ==> targets[i].id != targets[j].id
    requires k < |targets| && i < |config.rules|
    requires Consistent(ops, config, reading, targets[k], c)
    ensures ForConfig(ops, config, targets, maxFilenameLength).Ready()
    ensures Known(config, ConditionRefs(config.rules[i].condition))
    ensures
      var e := ForConfig(ops, config, targets, maxFilenameLength);
      && |e.targets| == |targets| && e.targets[k].target == targets[k]
      && e.policy.rules == config.rules && e.policy.maxFilenameLength == maxFilenameLength
    ensures
      var e := ForConfig(ops, config, targets, maxFilenameLength);
      Fires(e.policy, e.targets[k], c, i) <==>
        ConditionHolds(ops, config, reading, config.rules[i].condition, targets[k], c)
  {
    EngineReady(ops, config, targets, maxFilenameLength);
    RulesByNameHas(ops, config, |config.rules|, targets[k]);
    CompiledRuleMeans(ops, config, reading, i, targets[k], c);
  }
}
