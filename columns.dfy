/** Boolean-mask column selection and the dot products built on it: the
    heterogeneous regime's `X[:, r_idx == 2] · weight_vector[r_idx == 2]` and
    the baseline projection `X · (1/1, ..., 1/k)`. */
module Columns {
  import opened Labels
  import opened Regimes

  /** `v[mask == code]`: the entries of `v` whose mask entry is `code`, in order. */
  function Select(v: seq<real>, mask: seq<int>, code: int): (r: seq<real>)
    requires |v| == |mask|
    ensures |r| == Count(mask, code)
  {
    if v == [] then []
    else
      assert mask == [mask[0]] + mask[1..];
      (if mask[0] == code then [v[0]] else []) + Select(v[1..], mask[1..], code)
  }

  /** The kept entry of column `j` sits at the position numbered by the kept
      columns before `j`. */
  lemma {:induction false} SelectAt(v: seq<real>, mask: seq<int>, code: int, j: int)
    requires |v| == |mask| && 0 <= j < |v| && mask[j] == code
    ensures Count(mask[..j], code) < |Select(v, mask, code)|
    ensures Select(v, mask, code)[Count(mask[..j], code)] == v[j]
  {
    CountPrefixLess(mask, j, code);
    if j > 0 {
      SelectAt(v[1..], mask[1..], code, j - 1);
      assert mask[..j] == [mask[0]] + mask[1..][..j - 1];
    }
  }

  /** Selecting the same mask from a covariate row and from the weight vector
      keeps the columns aligned: both selections have one entry per selected
      column, and each position holds that column's row value and weight. */
  lemma SelectionAligned(row: seq<real>, w: seq<real>, mask: seq<int>, j: int)
    requires |row| == |mask| && |w| == |mask| && 0 <= j < |mask| && mask[j] == HeterogeneousCode
    ensures |Select(row, mask, HeterogeneousCode)| == |Select(w, mask, HeterogeneousCode)|
    ensures var p := Count(mask[..j], HeterogeneousCode);
      p < |Select(row, mask, HeterogeneousCode)|
      && Select(row, mask, HeterogeneousCode)[p] == row[j]
      && Select(w, mask, HeterogeneousCode)[p] == w[j]
  {
    SelectAt(row, mask, HeterogeneousCode, j);
    SelectAt(w, mask, HeterogeneousCode, j);
  }

  /** `np.dot` of two vectors of equal length (0 for empty vectors). */
  function Dot(a: seq<real>, b: seq<real>): real
    requires |a| == |b|
  {
    if a == [] then 0.0 else a[0] * b[0] + Dot(a[1..], b[1..])
  }

  /** Reference sum: over all columns, the product of the column's entries
      where the mask selects it and 0 elsewhere. */
  function MaskedDot(a: seq<real>, b: seq<real>, mask: seq<int>, code: int): real
    requires |a| == |b| == |mask|
  {
    if a == [] then 0.0
    else (if mask[0] == code then a[0] * b[0] else 0.0) + MaskedDot(a[1..], b[1..], mask[1..], code)
  }

  /** The dot product of the two selections is the masked sum over all columns. */
  lemma {:induction false} DotOfSelections(a: seq<real>, b: seq<real>, mask: seq<int>, code: int)
    requires |a| == |b| == |mask|
    ensures Dot(Select(a, mask, code), Select(b, mask, code)) == MaskedDot(a, b, mask, code)
  {
    if a != [] {
      DotOfSelections(a[1..], b[1..], mask[1..], code);
      var sa, sb := Select(a[1..], mask[1..], code), Select(b[1..], mask[1..], code);
      if mask[0] == code {
        assert Select(a, mask, code) == [a[0]] + sa;
        assert Select(b, mask, code) == [b[0]] + sb;
        assert ([a[0]] + sa)[1..] == sa;
        assert ([b[0]] + sb)[1..] == sb;
      } else {
        assert Select(a, mask, code) == sa;
        assert Select(b, mask, code) == sb;
      }
    }
  }

  /** A mask that keeps every column leaves the plain dot product. */
  lemma {:induction false} MaskedDotAllSelected(a: seq<real>, b: seq<real>, mask: seq<int>, code: int)
    requires |a| == |b| == |mask|
    requires forall j :: 0 <= j < |mask| ==> mask[j] == code
    ensures MaskedDot(a, b, mask, code) == Dot(a, b)
  {
    if a != [] {
      MaskedDotAllSelected(a[1..], b[1..], mask[1..], code);
    }
  }

  /** A mask that keeps no column gives 0. */
  lemma {:induction false} MaskedDotNoneSelected(a: seq<real>, b: seq<real>, mask: seq<int>, code: int)
    requires |a| == |b| == |mask|
    requires forall j :: 0 <= j < |mask| ==> mask[j] != code
    ensures MaskedDot(a, b, mask, code) == 0.0
  {
    if a != [] {
      MaskedDotNoneSelected(a[1..], b[1..], mask[1..], code);
    }
  }

  /** Every row of `x` has `width` columns. */
  predicate Rectangular(x: seq<seq<real>>, width: nat) {
    forall i :: 0 <= i < |x| ==> |x[i]| == width
  }

  /** `np.dot(X[:, r_idx == 2], weight_vector[r_idx == 2])`: one entry per
      observation, the argument of the heterogeneous regime's sine. */
  function HeterogeneousIndex(x: seq<seq<real>>, w: seq<real>, rIdx: seq<int>): (a: seq<real>)
    requires |w| == |rIdx| && Rectangular(x, |rIdx|)
    ensures |a| == |x|
  {
    seq(|x|, i requires 0 <= i < |x| =>
      Dot(Select(x[i], rIdx, HeterogeneousCode), Select(w, rIdx, HeterogeneousCode)))
  }

  /** Each observation's heterogeneous index is the sum, over the columns
      labelled 2, of covariate times weight; with no such column it is 0. */
  lemma HeterogeneousIndexIsMaskedSum(x: seq<seq<real>>, w: seq<real>, rIdx: seq<int>)
    requires |w| == |rIdx| && Rectangular(x, |rIdx|)
    ensures forall i :: 0 <= i < |x| ==>
      HeterogeneousIndex(x, w, rIdx)[i] == MaskedDot(x[i], w, rIdx, HeterogeneousCode)
    ensures Count(rIdx, HeterogeneousCode) == 0 ==> forall i :: 0 <= i < |x| ==> HeterogeneousIndex(x, w, rIdx)[i] == 0.0
  {
    forall i | 0 <= i < |x|
      ensures HeterogeneousIndex(x, w, rIdx)[i] == MaskedDot(x[i], w, rIdx, HeterogeneousCode)
    {
      DotOfSelections(x[i], w, rIdx, HeterogeneousCode);
    }
    if Count(rIdx, HeterogeneousCode) == 0 {
      forall i | 0 <= i < |x| ensures HeterogeneousIndex(x, w, rIdx)[i] == 0.0 {
        MaskedDotNoneSelected(x[i], w, rIdx, HeterogeneousCode);
      }
    }
  }

  /** `1 / np.arange(1, k + 1)`: the diminishing weights 1/1, 1/2, ..., 1/k. */
  function DiminishingWeights(k: nat): (b: seq<real>)
    ensures |b| == k
    ensures forall j :: 0 <= j < k ==> 0.0 < b[j] <= 1.0 && b[j] * (j + 1) as real == 1.0
    ensures forall j :: 0 < j < k ==> b[j] < b[j - 1]
  {
    var b := seq(k, j requires 0 <= j < k => Reciprocal(j + 1));
    forall j | 0 <= j < k ensures 0.0 < b[j] <= 1.0 && b[j] * (j + 1) as real == 1.0 {
      ReciprocalBounds(j + 1);
    }
    forall j | 0 < j < k ensures b[j] < b[j - 1] {
      ReciprocalDecreasing(j);
    }
    b
  }

  function Reciprocal(n: nat): real
    requires n > 0
  {
    1.0 / n as real
  }

  lemma ReciprocalBounds(n: nat)
    requires n > 0
    ensures 0.0 < Reciprocal(n) <= 1.0 && Reciprocal(n) * n as real == 1.0
  {
    var x, r := n as real, Reciprocal(n);
    assert r * x == 1.0;
    assert x >= 1.0;
    assert r > 0.0;
    assert r * (x - 1.0) >= 0.0;
  }

  lemma ReciprocalDecreasing(n: nat)
    requires n > 0
    ensures Reciprocal(n + 1) < Reciprocal(n)
  {
    ReciprocalBounds(n);
    ReciprocalBounds(n + 1);
    var a, b, x := Reciprocal(n + 1), Reciprocal(n), n as real;
    assert a * x + a == 1.0;
    assert b * x == 1.0;
    assert (b - a) * x == a;
  }

  /** `np.cos(np.dot(X, b))**2` with the squared cosine given as `squaredCos`:
      one baseline value per observation, from that row's weighted sum. */
  function Baseline(x: seq<seq<real>>, k: nat, squaredCos: real -> real): (g: seq<real>)
    requires Rectangular(x, k)
    ensures |g| == |x|
  {
    seq(|x|, i requires 0 <= i < |x| => squaredCos(Dot(x[i], DiminishingWeights(k))))
  }
}
