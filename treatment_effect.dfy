/** Treatment-effect assembly of `SimData.generate_treatment_effect`: choose or
    validate the partition index, then fill a zero-initialised buffer regime by regime. */
module TreatmentEffect {
  import opened Regimes
  import opened Labels
  import MaskedFill

  /** The value of the constant regime. */
  const ConstantEffect: real := 0.2

  /** The `predefined_idx` argument: not given, a numpy array, or some other
      sized object (a list, a tuple), which `SimData` refuses. */
  datatype PredefinedIndex = Absent | NdArray(labels: seq<int>) | OtherArrayLike(labels: seq<int>)

  /** The two `ValueError`s the method raises. */
  datatype EffectError = NoRegimeActive | InvalidPredefinedIndex

  datatype Choice = Chosen(index: seq<int>) | Rejected(error: EffectError)

  /** A caller-supplied index passes the check: it is an array and has length `n`. */
  predicate Accepted(n: nat, p: PredefinedIndex) {
    p.Absent? || (p.NdArray? && |p.labels| == n)
  }

  /** Every entry of `s` is one of the `options`. */
  predicate DrawnFrom(s: seq<int>, options: seq<int>) {
    forall j :: 0 <= j < |s| ==> s[j] in options
  }

  /** The index the method works with when nothing is refused. */
  function Proposed(p: PredefinedIndex, drawn: seq<int>): seq<int> {
    if p.Absent? then drawn else p.labels
  }

  /** Rejects an empty option list, then uses a supplied index only when it is
      an array of length `n`; with no index, the drawn one (`drawn`, standing
      for `np.random.choice(options, n)`) is used. */
  function ChooseIndex(n: nat, options: seq<int>, p: PredefinedIndex, drawn: seq<int>): (r: Choice)
    requires options != [] && p.Absent? ==> |drawn| == n && DrawnFrom(drawn, options)
    ensures r.Rejected? <==> options == [] || !Accepted(n, p)
    ensures r.Rejected? ==> (r.error == NoRegimeActive <==> options == [])
    ensures r.Chosen? ==> |r.index| == n && r.index == Proposed(p, drawn)
    ensures r.Chosen? && p.Absent? ==> DrawnFrom(r.index, options)
  {
    if options == [] then Rejected(NoRegimeActive)
    else
      match p
      case Absent => Chosen(drawn)
      case NdArray(labels) => if |labels| == n then Chosen(labels) else Rejected(InvalidPredefinedIndex)
      case OtherArrayLike(_) => Rejected(InvalidPredefinedIndex)
  }

  /** What the fill needs: a full-length heterogeneous vector when that regime
      is on, and exactly one negative draw per label-3 position when that one is. */
  predicate EffectInputs(f: Flags, idx: seq<int>, het: seq<real>, neg: seq<real>) {
    && (f.heterogeneity ==> |het| == |idx|)
    && (f.negative ==> |neg| == Count(idx, NegativeCode))
  }

  /** Reference definition of one entry of theta: the rule of the regime the
      position is labelled with, if that regime is active; 0 otherwise. */
  function ThetaAt(f: Flags, idx: seq<int>, het: seq<real>, neg: seq<real>, i: int): real
    requires EffectInputs(f, idx, het, neg) && 0 <= i < |idx|
  {
    if idx[i] == ConstantCode && f.constant then ConstantEffect
    else if idx[i] == HeterogeneousCode && f.heterogeneity then het[i]
    else if idx[i] == NegativeCode && f.negative then DrawAt(idx, NegativeCode, neg, i)
    else 0.0
  }

  function Theta(f: Flags, idx: seq<int>, het: seq<real>, neg: seq<real>): seq<real>
    requires EffectInputs(f, idx, het, neg)
  {
    seq(|idx|, i requires 0 <= i < |idx| => ThetaAt(f, idx, het, neg, i))
  }

  /** ThetaAt restricted to the regimes with codes up to `stage`: the buffer's
      contents after the masked assignments of those regimes. */
  function Stage(f: Flags, idx: seq<int>, het: seq<real>, neg: seq<real>, i: int, stage: int): real
    requires EffectInputs(f, idx, het, neg) && 0 <= i < |idx|
  {
    if 1 <= idx[i] <= stage then ThetaAt(f, idx, het, neg, i) else 0.0
  }

  /** Allocates `np.zeros(n)` and applies the masked assignments in the
      simulator's order: constant, heterogeneity, negative, no_treatment. */
  method FillTheta(f: Flags, idx: seq<int>, het: seq<real>, neg: seq<real>) returns (theta: seq<real>)
    requires EffectInputs(f, idx, het, neg)
    ensures theta == Theta(f, idx, het, neg)
    ensures |theta| == |idx|
    ensures forall i :: 0 <= i < |idx| && idx[i] == ConstantCode && f.constant ==> theta[i] == ConstantEffect
    ensures forall i :: 0 <= i < |idx| && idx[i] == HeterogeneousCode && f.heterogeneity ==> theta[i] == het[i]
    ensures forall i :: 0 <= i < |idx| && idx[i] == NegativeCode && f.negative ==>
      theta[i] == DrawAt(idx, NegativeCode, neg, i)
    ensures forall i :: 0 <= i < |idx| && (idx[i] == NoTreatmentCode || !Active(f, idx[i])) ==> theta[i] == 0.0
  {
    var a := new real[|idx|](_ => 0.0);
    assert forall j :: 0 <= j < a.Length ==> a[j] == Stage(f, idx, het, neg, j, 0);
    if f.constant {
      MaskedFill.AssignWhere(a, idx, ConstantCode, ConstantEffect);
    }
    assert forall j :: 0 <= j < a.Length ==> a[j] == Stage(f, idx, het, neg, j, 1);
    if f.heterogeneity {
      MaskedFill.CopyWhere(a, idx, HeterogeneousCode, het);
    }
    assert forall j :: 0 <= j < a.Length ==> a[j] == Stage(f, idx, het, neg, j, 2);
    if f.negative {
      MaskedFill.ScatterWhere(a, idx, NegativeCode, neg);
    }
    assert forall j :: 0 <= j < a.Length ==> a[j] == Stage(f, idx, het, neg, j, 3);
    if f.noTreatment {
      // not really needed: those entries are still zero
      MaskedFill.AssignWhere(a, idx, NoTreatmentCode, 0.0);
    }
    assert forall j :: 0 <= j < a.Length ==> a[j] == Stage(f, idx, het, neg, j, 4);
    theta := a[..];
  }

  /** Every entry of theta lies in the range of the rule that produced it: 0.2,
      the heterogeneous vector's range, the negative draws' range, or 0. */
  lemma ThetaBounds(f: Flags, idx: seq<int>, het: seq<real>, neg: seq<real>, lo: real, hi: real)
    requires EffectInputs(f, idx, het, neg)
    requires lo <= 0.0 && ConstantEffect <= hi
    requires f.heterogeneity ==> forall i :: 0 <= i < |het| ==> lo <= het[i] <= hi
    requires f.negative ==> forall i :: 0 <= i < |neg| ==> lo <= neg[i] <= hi
    ensures forall i :: 0 <= i < |idx| ==> lo <= Theta(f, idx, het, neg)[i] <= hi
  {
    forall i | 0 <= i < |idx| ensures lo <= Theta(f, idx, het, neg)[i] <= hi {
      if idx[i] == NegativeCode && f.negative {
        CountPrefixLess(idx, i, NegativeCode);
      }
    }
  }

  /** With the heterogeneous vector in [0.1, 0.3] (what min-max standardisation
      promises) and the negative draws in [-1, 0], theta lies in [-1, 0.3]. */
  lemma ThetaRange(f: Flags, idx: seq<int>, het: seq<real>, neg: seq<real>)
    requires EffectInputs(f, idx, het, neg)
    requires f.heterogeneity ==> forall i :: 0 <= i < |het| ==> 0.1 <= het[i] <= 0.3
    requires f.negative ==> forall i :: 0 <= i < |neg| ==> -1.0 <= neg[i] <= 0.0
    ensures forall i :: 0 <= i < |idx| ==> -1.0 <= Theta(f, idx, het, neg)[i] <= 0.3
  {
    ThetaBounds(f, idx, het, neg, -1.0, 0.3);
  }

  /** Only `negative` on: every theta lies in [-1, 0], whatever the index holds. */
  lemma OnlyNegativeInRange(idx: seq<int>, het: seq<real>, neg: seq<real>)
    requires |neg| == Count(idx, NegativeCode)
    requires forall i :: 0 <= i < |neg| ==> -1.0 <= neg[i] <= 0.0
    ensures var theta := Theta(Flags(false, false, true, false), idx, het, neg);
      forall i :: 0 <= i < |idx| ==> -1.0 <= theta[i] <= 0.0
  {
    var f := Flags(false, false, true, false);
    forall i | 0 <= i < |idx| ensures -1.0 <= Theta(f, idx, het, neg)[i] <= 0.0 {
      if idx[i] == NegativeCode {
        CountPrefixLess(idx, i, NegativeCode);
      }
    }
  }

  /** With `negative` on and its draws in [-1, 0], every label-3 position's
      theta lies in [-1, 0], whichever other regimes are on. */
  lemma NegativeLabelsInRange(f: Flags, idx: seq<int>, het: seq<real>, neg: seq<real>)
    requires EffectInputs(f, idx, het, neg) && f.negative
    requires forall i :: 0 <= i < |neg| ==> -1.0 <= neg[i] <= 0.0
    ensures forall i :: 0 <= i < |idx| && idx[i] == NegativeCode ==> -1.0 <= Theta(f, idx, het, neg)[i] <= 0.0
  {
    forall i | 0 <= i < |idx| && idx[i] == NegativeCode
      ensures -1.0 <= Theta(f, idx, het, neg)[i] <= 0.0
    {
      CountPrefixLess(idx, i, NegativeCode);
    }
  }

  /** Only `constant` on and the index drawn from the option list: theta is 0.2 everywhere. */
  lemma OnlyConstantEverywhere(idx: seq<int>, het: seq<real>, neg: seq<real>)
    requires DrawnFrom(idx, OptionList(Flags(true, false, false, false)))
    ensures Theta(Flags(true, false, false, false), idx, het, neg) == seq(|idx|, _ => ConstantEffect)
  {
    OptionListExact(Flags(true, false, false, false));
  }

  /** Only `no_treatment` on and the index drawn from the option list: theta is 0 everywhere. */
  lemma OnlyNoTreatmentZero(idx: seq<int>, het: seq<real>, neg: seq<real>)
    requires DrawnFrom(idx, OptionList(Flags(false, false, false, true)))
    ensures Theta(Flags(false, false, false, true), idx, het, neg) == seq(|idx|, _ => 0.0)
  {
    OptionListExact(Flags(false, false, false, true));
  }

  /** Draw number `n` is the theta of some label-3 position preceded by exactly `n` others. */
  predicate DrawLandsSomewhere(f: Flags, idx: seq<int>, het: seq<real>, neg: seq<real>, n: int)
    requires EffectInputs(f, idx, het, neg) && 0 <= n < |neg|
  {
    exists i :: 0 <= i < |idx| && idx[i] == NegativeCode && Count(idx[..i], NegativeCode) == n
      && Theta(f, idx, het, neg)[i] == neg[n]
  }

  /** The negative draws are used in position order and each exactly once. */
  lemma NegativeDrawsInOrder(f: Flags, idx: seq<int>, het: seq<real>, neg: seq<real>)
    requires EffectInputs(f, idx, het, neg) && f.negative
    ensures forall i1, i2 :: 0 <= i1 < i2 < |idx| && idx[i1] == NegativeCode && idx[i2] == NegativeCode ==>
      Count(idx[..i1], NegativeCode) < Count(idx[..i2], NegativeCode)
    ensures forall n :: 0 <= n < |neg| ==> DrawLandsSomewhere(f, idx, het, neg, n)
  {
    forall i1, i2 | 0 <= i1 < i2 < |idx| && idx[i1] == NegativeCode && idx[i2] == NegativeCode
      ensures Count(idx[..i1], NegativeCode) < Count(idx[..i2], NegativeCode)
    {
      DrawsInPositionOrder(idx, NegativeCode, i1, i2);
    }
    forall n | 0 <= n < |neg|
      ensures DrawLandsSomewhere(f, idx, het, neg, n)
    {
      EveryDrawUsed(idx, NegativeCode, n);
      var i :| 0 <= i < |idx| && idx[i] == NegativeCode && Count(idx[..i], NegativeCode) == n;
      assert Theta(f, idx, het, neg)[i] == neg[n];
    }
  }
}
