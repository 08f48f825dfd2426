/** Counting the positions of a partition index that carry a given code,
    and the order in which a masked assignment hands out its values. */
module Labels {

  /** The number of positions of `s` holding `code` (numpy's `np.sum(s == code)`). */
  function Count(s: seq<int>, code: int): nat {
    multiset(s)[code]
  }

  /** No position carries `code` exactly when the count is 0. */
  lemma CountZeroIff(s: seq<int>, code: int)
    ensures Count(s, code) == 0 <==> code !in s
  {
  }

  lemma CountPrefixStep(s: seq<int>, j: int, code: int)
    requires 0 <= j < |s|
    ensures Count(s[..j + 1], code) == Count(s[..j], code) + (if s[j] == code then 1 else 0)
  {
    assert s[..j + 1] == s[..j] + [s[j]];
  }

  /** A labelled position has fewer labelled positions before it than the whole index. */
  lemma CountPrefixLess(s: seq<int>, j: int, code: int)
    requires 0 <= j < |s| && s[j] == code
    ensures Count(s[..j], code) < Count(s, code)
  {
    assert s == s[..j] + s[j..];
    assert s[j..] == [s[j]] + s[j + 1..];
  }

  /** The value that `a[s == code] = draws` writes at position `j`: the draw
      numbered by how many labelled positions come before `j`. */
  function DrawAt(s: seq<int>, code: int, draws: seq<real>, j: int): (r: real)
    requires 0 <= j < |s| && s[j] == code && |draws| == Count(s, code)
    ensures r in draws
  {
    CountPrefixLess(s, j, code);
    draws[Count(s[..j], code)]
  }

  /** Later labelled positions receive later draws. */
  lemma DrawsInPositionOrder(s: seq<int>, code: int, j1: int, j2: int)
    requires 0 <= j1 < j2 <= |s| && s[j1] == code
    ensures Count(s[..j1], code) < Count(s[..j2], code)
  {
    assert s[..j2] == s[..j1] + s[j1..j2];
    assert s[j1..j2] == [s[j1]] + s[j1 + 1..j2];
  }

  /** Every draw is used: draw number `n` lands on some labelled position. */
  lemma {:induction false} EveryDrawUsed(s: seq<int>, code: int, n: nat)
    requires n < Count(s, code)
    ensures exists j :: 0 <= j < |s| && s[j] == code && Count(s[..j], code) == n
    decreases |s|
  {
    var m := |s| - 1;
    assert s[..m + 1] == s;
    CountPrefixStep(s, m, code);
    if n < Count(s[..m], code) {
      EveryDrawUsed(s[..m], code, n);
      var j :| 0 <= j < m && s[..m][j] == code && Count(s[..m][..j], code) == n;
      assert s[..m][..j] == s[..j];
      assert s[j] == code;
    } else {
      assert s[m] == code && Count(s[..m], code) == n;
    }
  }
}
