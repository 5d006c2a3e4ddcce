/** Concatenations and running sums, by index so that no slice is ever taken; where each part of a
    concatenation lies. */
module Sequences {
  import opened Wrappers

  /** The first `n` parts, concatenated. */
  function Flatten<T>(parts: seq<seq<T>>, n: nat): seq<T>
    requires n <= |parts|
  {
    if n == 0 then [] else Flatten(parts, n - 1) + parts[n - 1]
  }

  /** The sum of the first `n` elements. */
  function Sum(xs: seq<nat>, n: nat): nat
    requires n <= |xs|
  {
    if n == 0 then 0 else Sum(xs, n - 1) + xs[n - 1]
  }

  lemma {:induction false} FlattenLength<T>(parts: seq<seq<T>>, lens: seq<nat>, n: nat)
    requires n <= |parts| == |lens| && forall i: nat | i < n :: |parts[i]| == lens[i]
    ensures |Flatten(parts, n)| == Sum(lens, n)
  {
    if n > 0 {
      FlattenLength(parts, lens, n - 1);
    }
  }

  /** Part `b` of a concatenation occupies the slice that starts at the sum of the lengths
      before it. */
  lemma {:induction false} FlattenSlice<T>(parts: seq<seq<T>>, lens: seq<nat>, n: nat, b: nat)
    requires n <= |parts| == |lens| && forall i: nat | i < n :: |parts[i]| == lens[i]
    requires b < n
    ensures Sum(lens, b) + |parts[b]| <= |Flatten(parts, n)|
    ensures Flatten(parts, n)[Sum(lens, b)..Sum(lens, b) + |parts[b]|] == parts[b]
  {
    FlattenLength(parts, lens, n - 1);
    if b < n - 1 {
      FlattenSlice(parts, lens, n - 1, b);
      var at := Sum(lens, b);
      assert Flatten(parts, n)[at..at + |parts[b]|] == Flatten(parts, n - 1)[at..at + |parts[b]|];
    }
  }

  /** The first `n` parts up to and including the last good one, or nothing when one is bad. */
  function FlattenGood<T>(good: seq<bool>, parts: seq<seq<T>>, n: nat): (r: Option<seq<T>>)
    requires n <= |good| == |parts|
    ensures r.Some? <==> forall i: nat | i < n :: good[i]
    ensures r.Some? ==> r.value == Flatten(parts, n)
  {
    if n == 0 then Some([])
    else
      var before := FlattenGood(good, parts, n - 1);
      if before.Some? && good[n - 1] then Some(before.value + parts[n - 1]) else None
  }
}
