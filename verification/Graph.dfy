/** The token-to-token reference graph: chains, cycles, and the longest chain from a token. A bound on the length of
    chains excludes cycles, because a cycle can be followed any number of times; and a numbering that falls along
    every reference bounds the chains. */
module Graph {

  type Graph = map<string, seq<string>>

  ghost predicate Closed(g: Graph) {
    forall n, r :: n in g && r in g[n] ==> r in g
  }

  /** `p` follows references: each name refers to the next one. */
  ghost predicate Chain(g: Graph, p: seq<string>) {
    && p != []
    && (forall i :: 0 <= i < |p| ==> p[i] in g)
    && (forall i, j :: 0 <= i && j == i + 1 && j < |p| ==> p[j] in g[p[i]])
  }

  /** A chain that closes on the name it started from. */
  ghost predicate Cycle(g: Graph, c: seq<string>) {
    Chain(g, c) && |c| >= 2 && c[0] == c[|c| - 1]
  }

  ghost predicate Acyclic(g: Graph) {
    forall c :: !Cycle(g, c)
  }

  ghost predicate ChainsWithin(g: Graph, bound: int) {
    forall p :: Chain(g, p) ==> |p| <= bound
  }

  ghost predicate HasChain(g: Graph, length: nat) {
    exists p :: Chain(g, p) && |p| == length
  }

  /** No chain is longer than `maxDepth`; an empty table has depth 0, which also has to fit. */
  ghost predicate DepthWithin(g: Graph, maxDepth: int) {
    0 <= maxDepth && ChainsWithin(g, maxDepth)
  }

  lemma ChainCons(g: Graph, n: string, p: seq<string>)
    requires Chain(g, p) && n in g && p[0] in g[n]
    ensures Chain(g, [n] + p)
  {
  }

  lemma ChainTail(g: Graph, p: seq<string>)
    requires Chain(g, p) && |p| > 1
    ensures Chain(g, p[1..]) && p[1] in g[p[0]]
  {
  }

  lemma ChainSnoc(g: Graph, p: seq<string>, n: string)
    requires n in g && (p == [] || (Chain(g, p) && n in g[p[|p| - 1]]))
    ensures Chain(g, p + [n])
  {
  }

  lemma ChainFront(g: Graph, p: seq<string>, n: string)
    requires Chain(g, p + [n])
    ensures p == [] || Chain(g, p)
  {
    assert forall i :: 0 <= i < |p| ==> (p + [n])[i] == p[i];
  }

  lemma ChainSuffix(g: Graph, p: seq<string>, i: nat)
    requires Chain(g, p) && i < |p|
    ensures Chain(g, p[i..])
  {
  }

  /** Referring back to a name of the chain closes a cycle. */
  lemma ClosingChain(g: Graph, p: seq<string>, name: string, i: nat)
    requires Chain(g, p) && name in g[p[|p| - 1]] && name in g && i < |p| && p[i] == name
    ensures Cycle(g, p[i..] + [name])
  {
    ChainSuffix(g, p, i);
    ChainSnoc(g, p[i..], name);
  }

  // ---------- a bound on chains excludes cycles ----------

  lemma {:induction false} Pump(g: Graph, c: seq<string>, n: nat) returns (p: seq<string>)
    requires Cycle(g, c)
    ensures Chain(g, p) && p[0] == c[0] && |p| >= n
  {
    if n == 0 {
      p := c;
    } else {
      var q := Pump(g, c, n - 1);
      p := c[..|c| - 1] + q;
      forall i, j | 0 <= i && j == i + 1 && j < |p| ensures p[j] in g[p[i]] {
        if i < |c| - 1 {
          assert p[i] == c[i] && p[j] == c[j];
        } else {
          assert p[i] == q[i - |c| + 1] && p[j] == q[j - |c| + 1];
        }
      }
    }
  }

  /** If every chain fits under some bound, no chain closes on itself. */
  lemma BoundedIsAcyclic(g: Graph, bound: nat)
    requires ChainsWithin(g, bound)
    ensures Acyclic(g)
  {
    forall c ensures !Cycle(g, c) {
      if Cycle(g, c) {
        var p := Pump(g, c, bound + 1);
        assert false;
      }
    }
  }

  // ---------- the longest chain from a name ----------

  /** Length of the longest chain from `n`, looking no further than `fuel` names. */
  ghost function Longest(g: Graph, n: string, fuel: nat): nat
    requires Closed(g) && n in g
    decreases fuel, 0
  {
    if fuel == 0 then 0 else 1 + LongestOf(g, g[n], fuel - 1)
  }

  ghost function LongestOf(g: Graph, ns: seq<string>, fuel: nat): nat
    requires Closed(g) && forall n :: n in ns ==> n in g
    decreases fuel, 1, |ns|
  {
    if ns == [] then 0
    else Max(LongestOf(g, ns[..|ns| - 1], fuel), Longest(g, ns[|ns| - 1], fuel))
  }

  function Max(a: nat, b: nat): nat { if a < b then b else a }

  lemma {:induction false} LongestOfIsMax(g: Graph, ns: seq<string>, fuel: nat)
    requires Closed(g) && forall n :: n in ns ==> n in g
    ensures forall n :: n in ns ==> Longest(g, n, fuel) <= LongestOf(g, ns, fuel)
    ensures ns != [] ==> exists n :: n in ns && Longest(g, n, fuel) == LongestOf(g, ns, fuel)
    decreases |ns|
  {
    if ns != [] {
      var front, last := ns[..|ns| - 1], ns[|ns| - 1];
      LongestOfIsMax(g, front, fuel);
      assert ns == front + [last];
      assert last in ns;
      if front != [] && LongestOf(g, front, fuel) > Longest(g, last, fuel) {
        var n :| n in front && Longest(g, n, fuel) == LongestOf(g, front, fuel);
        assert n in ns;
      }
    }
  }

  lemma {:induction false} LongestIsReached(g: Graph, n: string, fuel: nat) returns (p: seq<string>)
    requires Closed(g) && n in g && fuel > 0
    ensures Chain(g, p) && p[0] == n && |p| == Longest(g, n, fuel)
    decreases fuel
  {
    if g[n] == [] || fuel == 1 {
      p := [n];
      LongestOfIsMax(g, g[n], fuel - 1);
    } else {
      LongestOfIsMax(g, g[n], fuel - 1);
      var r :| r in g[n] && Longest(g, r, fuel - 1) == LongestOf(g, g[n], fuel - 1);
      var q := LongestIsReached(g, r, fuel - 1);
      ChainCons(g, n, q);
      p := [n] + q;
    }
  }

  lemma {:induction false} LongestIsBound(g: Graph, p: seq<string>, fuel: nat)
    requires Closed(g) && Chain(g, p) && |p| <= fuel
    ensures |p| <= Longest(g, p[0], fuel)
    decreases fuel
  {
    if |p| > 1 {
      ChainTail(g, p);
      LongestIsBound(g, p[1..], fuel - 1);
      LongestOfIsMax(g, g[p[0]], fuel - 1);
    }
  }

  /** Once the fuel covers every chain, the equation of `_max_resolution_depth` holds. */
  lemma LongestUnfolds(g: Graph, n: string, bound: nat)
    requires Closed(g) && n in g && ChainsWithin(g, bound)
    ensures Longest(g, n, bound) == 1 + LongestOf(g, g[n], bound)
    ensures forall r :: r in g[n] ==> Longest(g, r, bound) < Longest(g, n, bound)
  {
    assert Chain(g, [n]);
    var p := LongestIsReached(g, n, bound);
    LongestOfIsMax(g, g[n], bound);
    forall r | r in g[n] ensures Longest(g, r, bound) < Longest(g, n, bound) {
      var q := LongestIsReached(g, r, bound);
      ChainCons(g, n, q);
      LongestIsBound(g, [n] + q, bound);
    }
    if |p| > 1 {
      ChainTail(g, p);
      LongestIsBound(g, p[1..], bound);
    }
  }

  // ---------- a ranking bounds every chain ----------

  /** The ranks of the names in `done` fall along every reference. */
  ghost predicate Ranked(g: Graph, done: set<string>, rank: map<string, nat>) {
    && done <= g.Keys && rank.Keys == done
    && (forall n :: n in done ==> rank[n] < |done|)
    && (forall n, r :: n in done && r in g[n] ==> r in done && rank[r] < rank[n])
  }

  /** A name whose references are all ranked can be ranked above them. */
  lemma RankedBlacken(g: Graph, done: set<string>, rank: map<string, nat>, name: string)
    requires Ranked(g, done, rank) && name in g && name !in done
    requires forall r :: r in g[name] ==> r in done
    ensures Ranked(g, done + {name}, rank[name := |done|])
  {
  }

  lemma {:induction false} RankedChain(g: Graph, done: set<string>, rank: map<string, nat>, p: seq<string>)
    requires Ranked(g, done, rank) && Chain(g, p) && p[0] in done
    ensures |p| <= rank[p[0]] + 1
    decreases |p|
  {
    if |p| > 1 {
      ChainTail(g, p);
      RankedChain(g, done, rank, p[1..]);
    }
  }

  lemma RankedIsBounded(g: Graph, rank: map<string, nat>)
    requires Ranked(g, g.Keys, rank)
    ensures ChainsWithin(g, |g|)
  {
    forall p | Chain(g, p) ensures |p| <= |g| {
      RankedChain(g, g.Keys, rank, p);
      assert |g.Keys| == |g|;
    }
  }
}
