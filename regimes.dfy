/** The four treatment-effect regimes of the simulator and the option list
    built from the caller's regime flags. */
module Regimes {

  /** Regime codes as they appear in a partition index. */
  const ConstantCode: int := 1
  const HeterogeneousCode: int := 2
  const NegativeCode: int := 3
  const NoTreatmentCode: int := 4

  /** The four boolean switches of `generate_treatment_effect`. */
  datatype Flags = Flags(constant: bool, heterogeneity: bool, negative: bool, noTreatment: bool)

  /** `code` names a regime whose flag is on. */
  predicate Active(f: Flags, code: int) {
    || (code == ConstantCode && f.constant)
    || (code == HeterogeneousCode && f.heterogeneity)
    || (code == NegativeCode && f.negative)
    || (code == NoTreatmentCode && f.noTreatment)
  }

  predicate AnyActive(f: Flags) {
    f.constant || f.heterogeneity || f.negative || f.noTreatment
  }

  predicate StrictlyIncreasing(s: seq<int>) {
    forall i, j :: 0 <= i < j < |s| ==> s[i] < s[j]
  }

  /** The codes of `codes` whose regime is active, in their original order. */
  function KeepActive(f: Flags, codes: seq<int>): (r: seq<int>)
    ensures forall c :: c in r <==> c in codes && Active(f, c)
    ensures StrictlyIncreasing(codes) ==> StrictlyIncreasing(r)
  {
    if codes == [] then []
    else
      var rest := KeepActive(f, codes[1..]);
      assert forall c :: c in codes[1..] ==> c in codes;
      assert StrictlyIncreasing(codes) ==> StrictlyIncreasing(codes[1..]);
      if Active(f, codes[0]) then
        assert StrictlyIncreasing(codes) ==> StrictlyIncreasing([codes[0]] + rest) by {
          if StrictlyIncreasing(codes) {
            forall c | c in rest ensures codes[0] < c {
              var j :| 0 <= j < |codes[1..]| && codes[1..][j] == c;
              assert codes[j + 1] == c;
            }
            forall i, j | 0 <= i < j < |rest| + 1
              ensures ([codes[0]] + rest)[i] < ([codes[0]] + rest)[j]
            {
              assert rest[j - 1] in rest;
            }
          }
        }
        [codes[0]] + rest
      else rest
  }

  /** Reference definition of the option list: the active codes among 1..4. */
  function OptionList(f: Flags): seq<int> {
    KeepActive(f, [ConstantCode, HeterogeneousCode, NegativeCode, NoTreatmentCode])
  }

  /** The option list holds exactly the active codes, in increasing order
      (hence without duplicates), and is empty exactly when no flag is on. */
  lemma OptionListExact(f: Flags)
    ensures forall c :: c in OptionList(f) <==> 1 <= c <= 4 && Active(f, c)
    ensures StrictlyIncreasing(OptionList(f))
    ensures OptionList(f) == [] <==> !AnyActive(f)
  {
    var all := [ConstantCode, HeterogeneousCode, NegativeCode, NoTreatmentCode];
    assert StrictlyIncreasing(all);
    assert forall c :: c in all <==> 1 <= c <= 4;
    if f.constant { assert ConstantCode in OptionList(f); }
    if f.heterogeneity { assert HeterogeneousCode in OptionList(f); }
    if f.negative { assert NegativeCode in OptionList(f); }
    if f.noTreatment { assert NoTreatmentCode in OptionList(f); }
    if OptionList(f) != [] { assert OptionList(f)[0] in OptionList(f); }
  }

  /** Builds the option list by appending one code per true flag, in the
      order constant, heterogeneity, negative, no_treatment. */
  method BuildOptions(f: Flags) returns (options: seq<int>)
    ensures options == OptionList(f)
    ensures forall c :: c in options <==> 1 <= c <= 4 && Active(f, c)
    ensures StrictlyIncreasing(options)
    ensures options == [] <==> !AnyActive(f)
  {
    options := [];
    if f.constant {
      options := options + [ConstantCode];
    }
    if f.heterogeneity {
      options := options + [HeterogeneousCode];
    }
    if f.negative {
      options := options + [NegativeCode];
    }
    if f.noTreatment {
      options := options + [NoTreatmentCode];
    }
    OptionListExact(f);
    IncreasingUnique(options, OptionList(f));
  }

  lemma HeadIsLeast(s: seq<int>, j: int)
    requires StrictlyIncreasing(s) && 0 <= j < |s|
    ensures s[0] <= s[j]
  {
  }

  /** Two strictly increasing sequences with the same elements have the same head. */
  lemma SameHead(s: seq<int>, t: seq<int>)
    requires StrictlyIncreasing(s) && StrictlyIncreasing(t) && s != [] && t != []
    requires forall c :: c in s <==> c in t
    ensures s[0] == t[0]
  {
    assert s[0] in s && t[0] in t;
    var i :| 0 <= i < |t| && t[i] == s[0];
    var j :| 0 <= j < |s| && s[j] == t[0];
    HeadIsLeast(s, j);
    HeadIsLeast(t, i);
  }

  /** ... and then their tails have the same elements. */
  lemma SameTailElements(s: seq<int>, t: seq<int>)
    requires StrictlyIncreasing(s) && StrictlyIncreasing(t) && s != [] && t != [] && s[0] == t[0]
    requires forall c :: c in s <==> c in t
    ensures forall c :: c in s[1..] <==> c in t[1..]
  {
    forall c ensures c in s[1..] ==> c in t[1..] {
      if c in s[1..] {
        var a :| 1 <= a < |s| && s[a] == c;
        assert c in s;
        var b :| 0 <= b < |t| && t[b] == c;
        assert b != 0;
      }
    }
    forall c ensures c in t[1..] ==> c in s[1..] {
      if c in t[1..] {
        var b :| 1 <= b < |t| && t[b] == c;
        assert c in t;
        var a :| 0 <= a < |s| && s[a] == c;
        assert a != 0;
      }
    }
  }

  /** Two strictly increasing sequences with the same elements are equal. */
  lemma {:induction false} IncreasingUnique(s: seq<int>, t: seq<int>)
    requires StrictlyIncreasing(s) && StrictlyIncreasing(t)
    requires forall c :: c in s <==> c in t
    ensures s == t
  {
    if s != [] { assert s[0] in s; }
    if t != [] { assert t[0] in t; }
    if s != [] && t != [] {
      SameHead(s, t);
      SameTailElements(s, t);
      assert StrictlyIncreasing(s[1..]) && StrictlyIncreasing(t[1..]);
      IncreasingUnique(s[1..], t[1..]);
      assert s == [s[0]] + s[1..];
      assert t == [t[0]] + t[1..];
    }
  }
}
