/** Treatment assignment of `SimData.generate_treatment_assignment`: a
    propensity per observation, then one Bernoulli draw per observation. */
module Assignment {

  /** The marginal treatment probability of random assignment. */
  const RandomProbability: real := 0.5

  /** Every entry is 0 or 1. */
  predicate Binary(d: seq<int>) {
    forall i :: 0 <= i < |d| ==> d[i] == 0 || d[i] == 1
  }

  predicate InUnitInterval(s: seq<real>) {
    forall i :: 0 <= i < |s| ==> 0.0 <= s[i] <= 1.0
  }

  /** `m_0`: the constant 0.5 for all `n` observations in random mode; in
      confounded mode the given per-observation propensity (the normal CDF of
      the standardised linear index, computed outside this model). */
  function Propensity(random: bool, n: nat, confounded: seq<real>): (m0: seq<real>)
    requires !random ==> |confounded| == n
    ensures |m0| == n
  {
    if random then seq(n, _ => RandomProbability) else confounded
  }

  /** `np.random.binomial(1, m0, n)` with the randomness supplied as one
      uniform coin per observation: observation `i` is treated when its coin
      falls below its propensity. */
  function Bernoulli(m0: seq<real>, coins: seq<real>): (d: seq<int>)
    requires |coins| == |m0|
    ensures |d| == |m0| && Binary(d)
  {
    seq(|m0|, i requires 0 <= i < |m0| => if coins[i] < m0[i] then 1 else 0)
  }

  /** Random mode ignores the covariates: each observation is treated exactly
      when its coin is below 0.5, the same rule for every observation. */
  lemma RandomModeUniform(n: nat, confounded: seq<real>, coins: seq<real>)
    requires |coins| == n
    ensures var d := Bernoulli(Propensity(true, n, confounded), coins);
      |d| == n && Binary(d) && forall i :: 0 <= i < n ==> (d[i] == 1 <==> coins[i] < RandomProbability)
  {
  }

  /** A propensity of 1 always treats and a propensity of 0 never does, for
      coins drawn from [0, 1). */
  lemma BernoulliExtremes(m0: seq<real>, coins: seq<real>)
    requires |coins| == |m0|
    requires forall i :: 0 <= i < |coins| ==> 0.0 <= coins[i] < 1.0
    ensures forall i :: 0 <= i < |m0| && m0[i] == 1.0 ==> Bernoulli(m0, coins)[i] == 1
    ensures forall i :: 0 <= i < |m0| && m0[i] == 0.0 ==> Bernoulli(m0, coins)[i] == 0
  {
  }
}
