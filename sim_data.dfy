/** The simulation session `SimData`: its fields, the methods that set them,
    and the order in which those methods depend on each other. */
module Simulation {
  import opened Regimes
  import opened Labels
  import opened Columns
  import opened TreatmentEffect
  import opened Assignment
  import opened Outcome

  /** How `generate_treatment_effect` ends: normally, or with one of its `ValueError`s. */
  datatype Status = Done | Failed(error: EffectError)

  class SimData {
    var N: nat
    var k: nat
    var X: seq<seq<real>>
    var g0X: seq<real>
    var D: seq<int>
    var weightVector: seq<real>
    var treatmentEffect: seq<real>

    // Which of the generated fields exist yet: reading a field before the
    // method that sets it has run is an AttributeError in `SimData`.
    ghost var hasCovariates: bool
    ghost var hasAssignment: bool
    ghost var hasEffect: bool

    /** What every step keeps: an assignment is binary, a baseline has one
        entry per covariate row. */
    ghost predicate Valid()
      reads this
    {
      && (hasAssignment ==> Binary(D))
      && (hasCovariates ==> |g0X| == |X|)
    }

    constructor (n: nat, numCovariates: nat)
      ensures Valid()
      ensures N == n && k == numCovariates
      ensures !hasCovariates && !hasAssignment && !hasEffect
    {
      N, k := n, numCovariates;
      X, g0X, D, weightVector, treatmentEffect := [], [], [], [], [];
      hasCovariates, hasAssignment, hasEffect := false, false, false;
    }

    method GetN() returns (n: nat)
      ensures n == N
    {
      n := N;
    }

    method GetK() returns (numCovariates: nat)
      ensures numCovariates == k
    {
      numCovariates := k;
    }

    method SetN(newN: nat)
      requires Valid()
      modifies this`N
      ensures Valid() && N == newN
    {
      N := newN;
    }

    method SetK(newK: nat)
      requires Valid()
      modifies this`k
      ensures Valid() && k == newK
    {
      k := newK;
    }

    method GetX() returns (x: seq<seq<real>>)
      requires hasCovariates
      ensures x == X
    {
      x := X;
    }

    method GetG0X() returns (g: seq<real>)
      requires hasCovariates
      ensures g == g0X
    {
      g := g0X;
    }

    method GetTreatmentAssignment() returns (d: seq<int>)
      requires hasAssignment
      ensures d == D
    {
      d := D;
    }

    method GetTreatmentEffect() returns (theta: seq<real>)
      requires hasEffect
      ensures theta == treatmentEffect
    {
      theta := treatmentEffect;
    }

    /** `generate_covariates` in its nonlinear mode: `draws` stands for the
        N x k multivariate-normal sample, `squaredCos` for `cos(.)**2`. */
    method GenerateCovariates(draws: seq<seq<real>>, squaredCos: real -> real)
      requires Valid()
      requires |draws| == N && Rectangular(draws, k)
      modifies this`X, this`g0X, this`hasCovariates
      ensures Valid() && hasCovariates
      ensures X == draws
      ensures g0X == Baseline(draws, k, squaredCos) && |g0X| == N
    {
      X := draws;
      g0X := Baseline(draws, k, squaredCos);
      hasCovariates := true;
    }

    /** `generate_treatment_assignment`: `weightDraws` stands for the U(0,1)
        weights, `coins` for the uniform draws behind the Bernoulli sample, and
        `confounded` for the propensities of the covariate-dependent mode. */
    method GenerateTreatmentAssignment(random: bool, weightDraws: seq<real>, confounded: seq<real>, coins: seq<real>)
      requires Valid()
      requires |weightDraws| == k && InUnitInterval(weightDraws)
      requires |coins| == N && forall i :: 0 <= i < N ==> 0.0 <= coins[i] < 1.0
      requires !random ==> hasCovariates && |confounded| == N && InUnitInterval(confounded)
      modifies this`D, this`weightVector, this`hasAssignment
      ensures Valid() && hasAssignment
      ensures D == Bernoulli(Propensity(random, N, confounded), coins)
      ensures |D| == N && Binary(D)
      ensures random ==> forall i :: 0 <= i < N ==> (D[i] == 1 <==> coins[i] < RandomProbability)
      ensures weightVector == weightDraws
    {
      var m0 := Propensity(random, N, confounded);
      D := Bernoulli(m0, coins);
      weightVector := weightDraws;
      hasAssignment := true;
    }

    /** What the heterogeneous branch reads: the covariates and weights of the
        earlier steps with matching shapes, a column index `rIdx` with one
        label per covariate, and a length-preserving `shape` standing for
        `standardize(sin(.) + noise)`. */
    ghost predicate HeterogeneousReady(f: Flags, rIdx: seq<int>, shape: seq<real> -> seq<real>)
      reads this
    {
      && hasCovariates && hasAssignment
      && |X| == N && Rectangular(X, k) && |weightVector| == k
      && |rIdx| == k
      && (forall v :: |shape(v)| == |v|)
    }

    /** The standardised heterogeneous signal, one entry per observation when
        `shape` preserves length. */
    function HeterogeneousSignal(rIdx: seq<int>, shape: seq<real> -> seq<real>): (s: seq<real>)
      reads this
      requires |weightVector| == |rIdx| && Rectangular(X, |rIdx|)
      ensures (forall v :: |shape(v)| == |v|) ==> |s| == |X|
    {
      shape(HeterogeneousIndex(X, weightVector, rIdx))
    }

    /** `generate_treatment_effect`. `drawn` stands for the drawn partition index,
        `rIdx` for the drawn column index and `neg` for the U(-1,0) draws. */
    method GenerateTreatmentEffect(predefined: PredefinedIndex, f: Flags, drawn: seq<int>, rIdx: seq<int>,
                                   shape: seq<real> -> seq<real>, neg: seq<real>) returns (status: Status)
      requires Valid()
      requires AnyActive(f) && predefined.Absent? ==> |drawn| == N && DrawnFrom(drawn, OptionList(f))
      requires f.heterogeneity && Accepted(N, predefined) ==> HeterogeneousReady(f, rIdx, shape)
      requires f.negative && Accepted(N, predefined) ==> |neg| == Count(Proposed(predefined, drawn), NegativeCode)
      requires forall i :: 0 <= i < |neg| ==> -1.0 <= neg[i] <= 0.0
      modifies this`treatmentEffect, this`hasEffect
      ensures Valid()
      ensures status.Failed? <==> !AnyActive(f) || !Accepted(N, predefined)
      ensures status.Failed? ==> (status.error == NoRegimeActive <==> !AnyActive(f))
      ensures status.Failed? ==> treatmentEffect == old(treatmentEffect) && hasEffect == old(hasEffect)
      ensures status.Done? ==> hasEffect && |treatmentEffect| == N
      ensures status.Done? ==> treatmentEffect == Theta(f, Proposed(predefined, drawn),
        if f.heterogeneity then HeterogeneousSignal(rIdx, shape) else [], neg)
      ensures status.Done? && f.negative ==> forall i :: 0 <= i < N && Proposed(predefined, drawn)[i] == NegativeCode ==>
        -1.0 <= treatmentEffect[i] <= 0.0
    {
      var options := BuildOptions(f);
      var choice := ChooseIndex(N, options, predefined, drawn);
      if choice.Rejected? {
        return Failed(choice.error);
      }
      var idx := choice.index;
      var het: seq<real> := [];
      if f.heterogeneity {
        het := HeterogeneousSignal(rIdx, shape);
      }
      var theta := FillTheta(f, idx, het, neg);
      if f.negative {
        NegativeLabelsInRange(f, idx, het, neg);
      }
      treatmentEffect := theta;
      hasEffect := true;
      status := Done;
    }

    /** `generate_realized_treatment_effect`: `theta * D`. */
    method GenerateRealizedTreatmentEffect() returns (realized: seq<real>)
      requires Valid() && hasEffect && hasAssignment && |treatmentEffect| == |D|
      ensures realized == Realized(treatmentEffect, D)
      ensures forall i :: 0 <= i < |D| ==>
        realized[i] == (if D[i] == 1 then treatmentEffect[i] else 0.0)
    {
      RealizedSelectsTreated(treatmentEffect, D);
      realized := Realized(treatmentEffect, D);
    }

    /** `generate_outcome_variable`: returns `(y, X, theta * D)` with `noise`
        standing for the N(0,1) draws of `generate_noise`. */
    method GenerateOutcomeVariable(noise: seq<real>) returns (y: seq<real>, x: seq<seq<real>>, realized: seq<real>)
      requires Valid() && hasCovariates && hasAssignment && hasEffect
      requires |treatmentEffect| == |D| == |g0X| == |noise| == N
      ensures realized == Realized(treatmentEffect, D)
      ensures y == Compose(realized, g0X, noise) && |y| == N
      ensures x == X
    {
      realized := GenerateRealizedTreatmentEffect();
      y := Compose(realized, g0X, noise);
      x := X;
    }
  }

  /** The end-to-end case with only the constant regime on: with the index
      drawn from the options, the realized effect is 0.2 on treated rows and 0
      on untreated ones, and the outcome exceeds baseline plus noise by exactly that. */
  lemma ConstantOnlyScenario(idx: seq<int>, het: seq<real>, neg: seq<real>, d: seq<int>, g0: seq<real>, noise: seq<real>)
    requires DrawnFrom(idx, OptionList(Flags(true, false, false, false)))
    requires |d| == |idx| == |g0| == |noise| && Binary(d)
    ensures var theta := Theta(Flags(true, false, false, false), idx, het, neg);
      var realized := Realized(theta, d);
      var y := Compose(realized, g0, noise);
      forall i :: 0 <= i < |idx| ==>
        realized[i] == (if d[i] == 1 then ConstantEffect else 0.0) && y[i] == realized[i] + g0[i] + noise[i]
  {
    var theta := Theta(Flags(true, false, false, false), idx, het, neg);
    OnlyConstantEverywhere(idx, het, neg);
    RealizedSelectsTreated(theta, d);
  }
}
