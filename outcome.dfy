/** The realized treatment effect `theta * D` and the outcome
    `y = theta * D + g_0(X) + U`, both elementwise. */
module Outcome {
  import opened Assignment

  /** `theta * D`, elementwise. */
  function Realized(theta: seq<real>, d: seq<int>): (r: seq<real>)
    requires |theta| == |d|
    ensures |r| == |theta|
  {
    seq(|theta|, i requires 0 <= i < |theta| => theta[i] * d[i] as real)
  }

  /** For a binary assignment the realized effect is the treatment effect on
      treated observations and 0 on untreated ones. */
  lemma RealizedSelectsTreated(theta: seq<real>, d: seq<int>)
    requires |theta| == |d| && Binary(d)
    ensures forall i :: 0 <= i < |d| ==> Realized(theta, d)[i] == (if d[i] == 1 then theta[i] else 0.0)
  {
    forall i | 0 <= i < |d| ensures Realized(theta, d)[i] == (if d[i] == 1 then theta[i] else 0.0) {
      assert d[i] == 0 || d[i] == 1;
    }
  }

  /** `realized + g_0_X + U`, elementwise. */
  function Compose(realized: seq<real>, g0: seq<real>, noise: seq<real>): (y: seq<real>)
    requires |realized| == |g0| == |noise|
    ensures |y| == |realized|
  {
    seq(|realized|, i requires 0 <= i < |realized| => realized[i] + g0[i] + noise[i])
  }

  /** Removing the baseline and the noise from the outcome leaves the realized
      effect: the treatment effect where treated, 0 where not. */
  lemma OutcomeIsolatesEffect(theta: seq<real>, d: seq<int>, g0: seq<real>, noise: seq<real>)
    requires |theta| == |d| == |g0| == |noise| && Binary(d)
    ensures var y := Compose(Realized(theta, d), g0, noise);
      forall i :: 0 <= i < |d| ==> y[i] - g0[i] - noise[i] == (if d[i] == 1 then theta[i] else 0.0)
  {
    RealizedSelectsTreated(theta, d);
  }

  /** A treated and an untreated observation with the same baseline and noise
      differ in outcome by exactly the treated one's effect. */
  lemma TreatedUntreatedGap(theta: seq<real>, d: seq<int>, g0: seq<real>, noise: seq<real>, i: int, j: int)
    requires |theta| == |d| == |g0| == |noise| && Binary(d)
    requires 0 <= i < |d| && 0 <= j < |d| && d[i] == 1 && d[j] == 0
    requires g0[i] == g0[j] && noise[i] == noise[j]
    ensures var y := Compose(Realized(theta, d), g0, noise); y[i] - y[j] == theta[i]
  {
    RealizedSelectsTreated(theta, d);
  }
}
