/** Capped exponential backoff and its registry (domain/search/backoff.py, search_worker.py). Delays and instants are
    reals: rounding and float overflow are not modelled, and the jitter is an input. */
module Backoff {

  function Min(a: real, b: real): real { if a < b then a else b }

  function Power(x: real, n: nat): real {
    if n == 0 then 1.0 else x * Power(x, n - 1)
  }

  /** `backoff_delay`: `min(base * factor ** (attempt - 1), cap)`, an attempt below 1 counting as the first. */
  function Delay(attempt: int, base: real, cap: real, factor: real): real {
    if attempt <= 1 then Min(base, cap) else Min(base * Power(factor, attempt - 1), cap)
  }

  lemma MulMonotone(a: real, b: real, x: real)
    requires 0.0 <= x && a <= b
    ensures a * x <= b * x
  {
  }

  lemma {:induction false} PowerGrows(x: real, n: nat)
    requires x >= 1.0
    ensures 1.0 <= Power(x, n) <= Power(x, n + 1)
  {
    if n > 0 {
      PowerGrows(x, n - 1);
    }
    MulMonotone(1.0, x, Power(x, n));
  }

  lemma NextNominal(base: real, factor: real, n: nat)
    ensures base * Power(factor, n + 1) == factor * (base * Power(factor, n))
  {
    var p := Power(factor, n);
    assert base * (factor * p) == factor * (base * p);
  }

  /** Scaling commutes with the cap. */
  lemma CappedScaling(nominal: real, cap: real, factor: real)
    requires nominal >= 0.0 && cap >= 0.0 && factor >= 1.0
    ensures Min(factor * nominal, cap) == Min(factor * Min(nominal, cap), cap)
    ensures Min(nominal, cap) <= Min(factor * nominal, cap)
  {
    MulMonotone(1.0, factor, nominal);
    MulMonotone(1.0, factor, cap);
    if cap < nominal {
      MulMonotone(cap, nominal, factor);
    }
  }

  lemma NominalNonNegative(base: real, factor: real, n: nat)
    requires base >= 0.0 && factor >= 1.0
    ensures base * Power(factor, n) >= 0.0
  {
    PowerGrows(factor, n);
    MulMonotone(0.0, base, Power(factor, n));
  }

  /** One more failure multiplies the delay by `factor`, up to the cap; so delays never shrink. */
  lemma DelayStep(attempt: int, base: real, cap: real, factor: real)
    requires base >= 0.0 && cap >= 0.0 && factor >= 1.0 && attempt >= 1
    ensures
      var next := factor * Delay(attempt, base, cap, factor);
      Delay(attempt + 1, base, cap, factor) == if next <= cap then next else cap
    ensures Delay(attempt, base, cap, factor) <= Delay(attempt + 1, base, cap, factor) <= cap
  {
    var nominal := base * Power(factor, attempt - 1);
    assert Delay(attempt, base, cap, factor) == Min(nominal, cap) by {
      assert attempt == 1 ==> Power(factor, attempt - 1) == 1.0;
    }
    NextNominal(base, factor, attempt - 1);
    NominalNonNegative(base, factor, attempt - 1);
    CappedScaling(nominal, cap, factor);
  }

  /** The first delay is the base, or the cap when that is less; an attempt below 1 counts as the first. */
  lemma FirstDelay(attempt: int, base: real, cap: real, factor: real)
    requires attempt <= 1
    ensures Delay(attempt, base, cap, factor) == if base <= cap then base else cap
  {
  }

  lemma {:induction false} DelayMonotone(a: int, b: int, base: real, cap: real, factor: real)
    requires base >= 0.0 && cap >= 0.0 && factor >= 1.0 && a <= b
    ensures Delay(a, base, cap, factor) <= Delay(b, base, cap, factor) <= cap
    decreases b - a
  {
    if a < b {
      DelayMonotone(a, b - 1, base, cap, factor);
      if b - 1 >= 1 {
        DelayStep(b - 1, base, cap, factor);
      }
    }
  }

  datatype Policy = Policy(base: real, cap: real, factor: real, jitterRatio: real)

  datatype ChannelBackoff = ChannelBackoff(attempts: nat, retryAfter: real)

  /** `key -> (attempts, retry_after)`, shared by every worker of the cycle. */
  class BackoffRegistry<K(==)> {
    const policy: Policy
    var states: map<K, ChannelBackoff>

    constructor (policy: Policy)
      ensures this.policy == policy && states == map[]
    {
      this.policy := policy;
      states := map[];
    }

    method Snapshot() returns (snapshot: map<K, ChannelBackoff>)
      ensures snapshot == states
    {
      snapshot := states;
    }

    /** What was persisted replaces everything. */
    method LoadFrom(snapshot: map<K, ChannelBackoff>)
      modifies this
      ensures states == snapshot
    {
      states := snapshot;
    }

    predicate IsInBackoff(key: K, now: real)
      reads this
    {
      key in states && now < states[key].retryAfter
    }

    function Attempts(key: K): nat
      reads this
    {
      if key in states then states[key].attempts else 0
    }

    /** `jitter` is the draw of `Rng.jitter(ratio * nominal)`: within `[0, span)`, or 0 without a span. */
    method RecordFailure(key: K, now: real, jitter: real) returns (delay: real)
      requires
        var span := policy.jitterRatio * Delay(Attempts(key) + 1, policy.base, policy.cap, policy.factor);
        if span <= 0.0 then jitter == 0.0 else 0.0 <= jitter < span
      modifies this
      ensures Attempts(key) == old(Attempts(key)) + 1
      ensures
        var nominal := Delay(Attempts(key), policy.base, policy.cap, policy.factor);
        nominal <= delay && (policy.jitterRatio * nominal > 0.0 ==> delay < nominal + policy.jitterRatio * nominal)
      ensures states == old(states)[key := ChannelBackoff(old(Attempts(key)) + 1, now + delay)]
      ensures forall t: real :: IsInBackoff(key, t) <==> t < now + delay
    {
      var attempts := if key in states then states[key].attempts + 1 else 1;
      delay := Delay(attempts, policy.base, policy.cap, policy.factor);
      delay := delay + jitter;
      states := states[key := ChannelBackoff(attempts, now + delay)];
    }

    method Reset(key: K)
      modifies this
      ensures states == old(states) - {key}
      ensures Attempts(key) == 0 && forall t: real :: !IsInBackoff(key, t)
    {
      states := states - {key};
    }
  }

  /** A restart: a new registry, loaded with what the last one saved. It skips the same keys at every instant, and
      the next failure of a key is delayed as it would have been without the restart. */
  method Restart<K(==)>(last: BackoffRegistry<K>) returns (registry: BackoffRegistry<K>)
    ensures fresh(registry) && registry.policy == last.policy
    ensures forall key, now: real :: registry.IsInBackoff(key, now) <==> last.IsInBackoff(key, now)
    ensures forall key :: registry.Attempts(key) == last.Attempts(key)
    ensures forall key ::
      var policy := last.policy;
      Delay(registry.Attempts(key) + 1, policy.base, policy.cap, policy.factor)
        == Delay(last.Attempts(key) + 1, policy.base, policy.cap, policy.factor)
  {
    registry := new BackoffRegistry(last.policy);
    var saved := last.Snapshot();
    registry.LoadFrom(saved);
  }
}
