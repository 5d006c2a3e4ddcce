/** Matching two key sequences: a longest common subsequence by a table, or greedily when it would be too large. */
module Matching {
  import Bits

  const LCS_LIMIT: nat := 4_000_000

  type Pairs = seq<(nat, nat)>

  /** Both sides strictly increase, inside the window that starts at `(i, j)`. */
  ghost predicate Increasing(pairs: Pairs, i: nat, j: nat) {
    && (forall p | 0 <= p < |pairs| :: i <= pairs[p].0 && j <= pairs[p].1)
    && (forall p, q | 0 <= p < q < |pairs| :: pairs[p].0 < pairs[q].0 && pairs[p].1 < pairs[q].1)
  }

  ghost predicate EqualKeys<K>(a: seq<K>, b: seq<K>, pairs: Pairs) {
    forall p | 0 <= p < |pairs| :: pairs[p].0 < |a| && pairs[p].1 < |b| && a[pairs[p].0] == b[pairs[p].1]
  }

  /** A common subsequence of `a[i..]` and `b[j..]`, as pairs of positions. */
  ghost predicate Common<K>(a: seq<K>, b: seq<K>, pairs: Pairs, i: nat, j: nat) {
    Increasing(pairs, i, j) && EqualKeys(a, b, pairs)
  }

  /** The table: length of the longest common subsequence of the suffixes. */
  function Lcs<K(==)>(a: seq<K>, b: seq<K>, i: nat, j: nat): nat
    requires i <= |a| && j <= |b|
    decreases |a| - i + |b| - j
  {
    if i == |a| || j == |b| then 0
    else if a[i] == b[j] then Lcs(a, b, i + 1, j + 1) + 1
    else
      var down, right := Lcs(a, b, i + 1, j), Lcs(a, b, i, j + 1);
      if down >= right then down else right
  }

  /** No common subsequence is longer than the table says. */
  lemma {:induction false} LcsIsUpperBound<K>(a: seq<K>, b: seq<K>, pairs: Pairs, i: nat, j: nat)
    requires i <= |a| && j <= |b| && Common(a, b, pairs, i, j)
    ensures |pairs| <= Lcs(a, b, i, j)
    decreases |a| - i + |b| - j
  {
    if pairs != [] {
      var p := pairs[0];
      assert i < |a| && j < |b|;
      if a[i] == b[j] {
        LcsIsUpperBound(a, b, pairs[1..], i + 1, j + 1);
      } else if p.0 > i {
        LcsIsUpperBound(a, b, pairs, i + 1, j);
      } else {
        assert p.1 > j;
        LcsIsUpperBound(a, b, pairs, i, j + 1);
      }
    }
  }

  /** Row-major position in the flat table. */
  function At(i: nat, j: nat, m: nat): nat {
    i * (m + 1) + j
  }

  lemma AtInside(i: nat, j: nat, n: nat, m: nat)
    requires i <= n && j <= m
    ensures At(i, j, m) < (n + 1) * (m + 1)
  {
    assert (n - i) * (m + 1) >= 0;
    assert (n + 1) * (m + 1) == (n - i) * (m + 1) + i * (m + 1) + (m + 1);
  }

  lemma AtInjective(i: nat, j: nat, k: nat, l: nat, m: nat)
    requires j <= m && l <= m && At(i, j, m) == At(k, l, m)
    ensures i == k && j == l
  {
    var x := At(i, j, m);
    assert x == (m + 1) * i + j == (m + 1) * k + l;
    Bits.DivUnique(x, m + 1, i, j);
    Bits.DivUnique(x, m + 1, k, l);
  }

  /** Whether the table is right from row `i`, column `j` on (and in all later rows). */
  ghost predicate Filled<K>(a: seq<K>, b: seq<K>, dp: seq<nat>, i: nat, j: nat) {
    && |dp| == (|a| + 1) * (|b| + 1)
    && forall k: nat, l: nat | k <= |a| && l <= |b| && (k > i || (k == i && l >= j)) ::
         CellRight(a, b, dp, k, l)
  }

  ghost predicate CellRight<K>(a: seq<K>, b: seq<K>, dp: seq<nat>, k: nat, l: nat)
    requires k <= |a| && l <= |b|
  {
    At(k, l, |b|) < |dp| && dp[At(k, l, |b|)] == Lcs(a, b, k, l)
  }

  lemma CellUpdate<K>(a: seq<K>, b: seq<K>, dp: seq<nat>, i: nat, j: nat, after: seq<nat>)
    requires i < |a| && j < |b| && Filled(a, b, dp, i, j + 1)
    requires At(i, j, |b|) < |dp| && after == dp[At(i, j, |b|) := Lcs(a, b, i, j)]
    ensures Filled(a, b, after, i, j)
  {
    forall k: nat, l: nat | k <= |a| && l <= |b| && (k > i || (k == i && l >= j))
      ensures CellRight(a, b, after, k, l)
    {
      if k == i && l == j {
      } else {
        assert CellRight(a, b, dp, k, l);
        if At(k, l, |b|) == At(i, j, |b|) {
          AtInjective(k, l, i, j, |b|);
        }
      }
    }
  }

  /** One cell, from the three the recurrence reads. */
  method FillCell<K(==)>(a: seq<K>, b: seq<K>, dp: array<nat>, i: nat, j: nat)
    requires i < |a| && j < |b| && Filled(a, b, dp[..], i, j + 1)
    modifies dp
    ensures At(i, j, |b|) < dp.Length && dp[..] == old(dp[..])[At(i, j, |b|) := Lcs(a, b, i, j)]
    ensures Filled(a, b, dp[..], i, j)
  {
    var m := |b|;
    AtInside(i, j, |a|, m);
    assert CellRight(a, b, dp[..], i + 1, j + 1) && CellRight(a, b, dp[..], i + 1, j) && CellRight(a, b, dp[..], i, j + 1);
    ghost var before := dp[..];
    if a[i] == b[j] {
      dp[At(i, j, m)] := dp[At(i + 1, j + 1, m)] + 1;
    } else {
      var down, right := dp[At(i + 1, j, m)], dp[At(i, j + 1, m)];
      dp[At(i, j, m)] := if down >= right then down else right;
    }
    assert dp[..] == before[At(i, j, m) := Lcs(a, b, i, j)];
    CellUpdate(a, b, before, i, j, dp[..]);
  }

  /** The last column of the rows not filled yet is still zero. */
  ghost predicate RightColumn(dp: seq<nat>, rows: nat, m: nat) {
    forall k: nat | k < rows :: At(k, m, m) < |dp| && dp[At(k, m, m)] == 0
  }

  lemma ZeroTable<K>(a: seq<K>, b: seq<K>, dp: seq<nat>)
    requires |dp| == (|a| + 1) * (|b| + 1) && forall k | 0 <= k < |dp| :: dp[k] == 0
    ensures Filled(a, b, dp, |a|, 0) && RightColumn(dp, |a|, |b|)
  {
    forall l: nat | l <= |b|
      ensures CellRight(a, b, dp, |a|, l)
    {
      AtInside(|a|, l, |a|, |b|);
    }
    forall k: nat | k < |a|
      ensures At(k, |b|, |b|) < |dp| && dp[At(k, |b|, |b|)] == 0
    {
      AtInside(k, |b|, |a|, |b|);
    }
  }

  lemma StartRow<K>(a: seq<K>, b: seq<K>, dp: seq<nat>, i: nat)
    requires i < |a| && Filled(a, b, dp, i + 1, 0) && RightColumn(dp, i + 1, |b|)
    ensures Filled(a, b, dp, i, |b|)
  {
    forall k: nat, l: nat | k <= |a| && l <= |b| && (k > i || (k == i && l >= |b|))
      ensures CellRight(a, b, dp, k, l)
    {
      if k == i {
        assert At(i, |b|, |b|) < |dp|;
      }
    }
  }

  lemma KeepsColumn(before: seq<nat>, after: seq<nat>, i: nat, j: nat, m: nat, value: nat)
    requires j < m && RightColumn(before, i, m)
    requires At(i, j, m) < |before| && after == before[At(i, j, m) := value]
    ensures RightColumn(after, i, m)
  {
    forall k: nat | k < i
      ensures At(k, m, m) < |after| && after[At(k, m, m)] == 0
    {
      if At(k, m, m) == At(i, j, m) {
        AtInjective(k, m, i, j, m);
      }
    }
  }

  /** Fills the table in place, from the last row and column up. */
  method FillTable<K(==)>(a: seq<K>, b: seq<K>, dp: array<nat>)
    requires dp.Length == (|a| + 1) * (|b| + 1)
    requires forall k | 0 <= k < dp.Length :: dp[k] == 0
    modifies dp
    ensures Filled(a, b, dp[..], 0, 0)
  {
    var n, m := |a|, |b|;
    var i: int := n;
    ZeroTable(a, b, dp[..]);
    while i > 0
      invariant 0 <= i <= n && Filled(a, b, dp[..], i, 0)
      invariant RightColumn(dp[..], i, m)
    {
      i := i - 1;
      var j: int := m;
      StartRow(a, b, dp[..], i);
      while j > 0
        invariant 0 <= j <= m && Filled(a, b, dp[..], i, j)
        invariant RightColumn(dp[..], i, m)
      {
        j := j - 1;
        ghost var before := dp[..];
        FillCell(a, b, dp, i, j);
        KeepsColumn(before, dp[..], i, j, m, Lcs(a, b, i, j));
      }
    }
  }

  /** Walks the table from the top, taking equal keys and otherwise the better neighbour. */
  method Traceback<K(==)>(a: seq<K>, b: seq<K>, dp: array<nat>) returns (pairs: Pairs)
    requires Filled(a, b, dp[..], 0, 0)
    ensures Common(a, b, pairs, 0, 0) && |pairs| == Lcs(a, b, 0, 0)
  {
    pairs := [];
    var i, j := 0, 0;
    while i < |a| && j < |b|
      invariant i <= |a| && j <= |b| && Common(a, b, pairs, 0, 0)
      invariant forall p | 0 <= p < |pairs| :: pairs[p].0 < i && pairs[p].1 < j
      invariant |pairs| + Lcs(a, b, i, j) == Lcs(a, b, 0, 0)
      decreases |a| - i + |b| - j
    {
      if a[i] == b[j] {
        pairs := pairs + [(i, j)];
        i, j := i + 1, j + 1;
      } else {
        assert CellRight(a, b, dp[..], i + 1, j) && CellRight(a, b, dp[..], i, j + 1);
        if dp[At(i + 1, j, |b|)] >= dp[At(i, j + 1, |b|)] {
          i := i + 1;
        } else {
          j := j + 1;
        }
      }
    }
  }

  /** The greedy match: each key takes the first equal key not yet passed. */
  function Greedy<K(==)>(a: seq<K>, b: seq<K>, i: nat, j: nat): Pairs
    requires i <= |a| && j <= |b|
    decreases |a| - i
  {
    if i == |a| then []
    else
      var o := FirstFrom(b, a[i], j);
      if o < |b| then [(i, o)] + Greedy(a, b, i + 1, o + 1) else Greedy(a, b, i + 1, j)
  }

  /** The first position of `key` in `b` at or after `j`, or `|b|`. */
  function FirstFrom<K(==)>(b: seq<K>, key: K, j: nat): (o: nat)
    requires j <= |b|
    ensures j <= o <= |b| && key !in b[j..o] && (o < |b| ==> b[o] == key)
    decreases |b| - j
  {
    if j == |b| || b[j] == key then j
    else
      var o := FirstFrom(b, key, j + 1);
      assert b[j..o] == [b[j]] + b[j + 1..o];
      o
  }

  lemma CommonCons<K>(a: seq<K>, b: seq<K>, rest: Pairs, i: nat, j: nat, o: nat)
    requires i < |a| && j <= o < |b| && a[i] == b[o] && Common(a, b, rest, i + 1, o + 1)
    ensures Common(a, b, [(i, o)] + rest, i, j)
  {
    var pairs := [(i, o)] + rest;
    assert forall p | 0 < p < |pairs| :: pairs[p] == rest[p - 1];
  }

  lemma {:induction false} GreedyIsCommon<K>(a: seq<K>, b: seq<K>, i: nat, j: nat)
    requires i <= |a| && j <= |b|
    ensures Common(a, b, Greedy(a, b, i, j), i, j)
    decreases |a| - i
  {
    if i < |a| {
      var o := FirstFrom(b, a[i], j);
      if o < |b| {
        GreedyIsCommon(a, b, i + 1, o + 1);
        CommonCons(a, b, Greedy(a, b, i + 1, o + 1), i, j, o);
      } else {
        GreedyIsCommon(a, b, i + 1, j);
      }
    }
  }

  method MatchGreedily<K(==)>(a: seq<K>, b: seq<K>) returns (pairs: Pairs)
    ensures pairs == Greedy(a, b, 0, 0)
  {
    pairs := [];
    var j := 0;
    for i := 0 to |a|
      invariant j <= |b| && pairs + Greedy(a, b, i, j) == Greedy(a, b, 0, 0)
    {
      var o := j;
      while o < |b| && b[o] != a[i]
        invariant j <= o <= |b| && FirstFrom(b, a[i], j) == FirstFrom(b, a[i], o)
      {
        o := o + 1;
      }
      if o < |b| {
        assert pairs + ([(i, o)] + Greedy(a, b, i + 1, o + 1)) == pairs + [(i, o)] + Greedy(a, b, i + 1, o + 1);
        pairs := pairs + [(i, o)];
        j := o + 1;
      }
    }
  }

  /** What matching promises: always a common subsequence, and a longest one unless the product
      of the lengths is above the limit. */
  ghost predicate Matched<K>(a: seq<K>, b: seq<K>, pairs: Pairs) {
    && Common(a, b, pairs, 0, 0)
    && (|a| * |b| <= LCS_LIMIT ==> forall other: Pairs | Common(a, b, other, 0, 0) :: |other| <= |pairs|)
    && (|a| * |b| > LCS_LIMIT ==> pairs == Greedy(a, b, 0, 0))
  }

  method Match<K(==)>(a: seq<K>, b: seq<K>) returns (pairs: Pairs)
    ensures Matched(a, b, pairs)
  {
    if |a| * |b| > LCS_LIMIT {
      pairs := MatchGreedily(a, b);
      GreedyIsCommon(a, b, 0, 0);
      return;
    }
    assert (|a| + 1) * (|b| + 1) >= 0;
    var dp := new nat[(|a| + 1) * (|b| + 1)](_ => 0);
    FillTable(a, b, dp);
    pairs := Traceback(a, b, dp);
    forall other: Pairs | Common(a, b, other, 0, 0)
      ensures |other| <= |pairs|
    {
      LcsIsUpperBound(a, b, other, 0, 0);
    }
  }

  /** Above the limit the match can be far from longest: when one key moved from the front to the
      back of two thousand others or more, that key is paired and all the others are not. */
  lemma GreedyCanBeShort<K>(key: K, rest: seq<K>, a: seq<K>, b: seq<K>, shifted: Pairs, pairs: Pairs)
    requires key !in rest && |rest| >= 2000 && a == [key] + rest && b == rest + [key]
    requires |shifted| == |rest| && forall p: nat | p < |rest| :: shifted[p] == (p + 1, p)
    requires Matched(a, b, pairs)
    ensures Common(a, b, shifted, 0, 0) && |pairs| == 1 < 2000 <= |shifted|
  {
    AboveTheLimit(|a|, |b|);
    FoundAtTheEnd(key, rest, 0);
    GreedyPastTheEnd(a, b, 1);
    ShiftedMatch(key, rest, shifted);
  }

  lemma AboveTheLimit(m: nat, n: nat)
    requires m > 2000 && n > 2000
    ensures m * n > LCS_LIMIT
  {
    Bits.MulAtLeast(m, n, 2001);
    Bits.MulAtLeast(2001, m, 2001);
    assert m * 2001 == 2001 * m;
  }

  lemma ShiftedMatch<K>(key: K, rest: seq<K>, pairs: Pairs)
    requires |pairs| == |rest| && forall p: nat | p < |rest| :: pairs[p] == (p + 1, p)
    ensures Common([key] + rest, rest + [key], pairs, 0, 0)
  {
  }

  lemma {:induction false} FoundAtTheEnd<K>(key: K, rest: seq<K>, j: nat)
    requires key !in rest && j <= |rest|
    ensures FirstFrom(rest + [key], key, j) == |rest|
    decreases |rest| - j
  {
    if j < |rest| {
      assert (rest + [key])[j] == rest[j];
      FoundAtTheEnd(key, rest, j + 1);
    }
  }

  lemma {:induction false} GreedyPastTheEnd<K>(a: seq<K>, b: seq<K>, i: nat)
    requires i <= |a|
    ensures Greedy(a, b, i, |b|) == []
    decreases |a| - i
  {
    if i < |a| {
      GreedyPastTheEnd(a, b, i + 1);
    }
  }
}
