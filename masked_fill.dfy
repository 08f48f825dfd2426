/** In-place masked assignments on a numpy-like buffer: `a[mask == code] = ...`. */
module MaskedFill {
  import opened Labels

  /** `a[mask == code] = value` */
  method AssignWhere(a: array<real>, mask: seq<int>, code: int, value: real)
    requires |mask| == a.Length
    modifies a
    ensures forall j :: 0 <= j < a.Length ==> a[j] == (if mask[j] == code then value else old(a[j]))
  {
    var i := 0;
    while i < a.Length
      invariant 0 <= i <= a.Length
      invariant forall j :: 0 <= j < i ==> a[j] == (if mask[j] == code then value else old(a[j]))
      invariant forall j :: i <= j < a.Length ==> a[j] == old(a[j])
    {
      if mask[i] == code {
        a[i] := value;
      }
      i := i + 1;
    }
  }

  /** `a[mask == code] = src[mask == code]`: the entries of `src` at the same positions. */
  method CopyWhere(a: array<real>, mask: seq<int>, code: int, src: seq<real>)
    requires |mask| == a.Length && |src| == a.Length
    modifies a
    ensures forall j :: 0 <= j < a.Length ==> a[j] == (if mask[j] == code then src[j] else old(a[j]))
  {
    var i := 0;
    while i < a.Length
      invariant 0 <= i <= a.Length
      invariant forall j :: 0 <= j < i ==> a[j] == (if mask[j] == code then src[j] else old(a[j]))
      invariant forall j :: i <= j < a.Length ==> a[j] == old(a[j])
    {
      if mask[i] == code {
        a[i] := src[i];
      }
      i := i + 1;
    }
  }

  /** `a[mask == code] = draws`: one draw per labelled position, handed out in
      position order; numpy demands exactly as many draws as labelled positions. */
  method ScatterWhere(a: array<real>, mask: seq<int>, code: int, draws: seq<real>)
    requires |mask| == a.Length && |draws| == Count(mask, code)
    modifies a
    ensures forall j :: 0 <= j < a.Length ==>
      a[j] == (if mask[j] == code then DrawAt(mask, code, draws, j) else old(a[j]))
  {
    var i, used := 0, 0;
    while i < a.Length
      invariant 0 <= i <= a.Length
      invariant used == Count(mask[..i], code)
      invariant forall j :: 0 <= j < i ==>
        a[j] == (if mask[j] == code then DrawAt(mask, code, draws, j) else old(a[j]))
      invariant forall j :: i <= j < a.Length ==> a[j] == old(a[j])
    {
      CountPrefixStep(mask, i, code);
      if mask[i] == code {
        CountPrefixLess(mask, i, code);
        a[i] := draws[used];
        used := used + 1;
      }
      i := i + 1;
    }
  }
}
