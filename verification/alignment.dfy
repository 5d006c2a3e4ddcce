/** Matching a function's ops before and after a pass: equally labelled blocks first, then what is left over. */
module Alignments {
  import opened Wrappers
  import opened Matching

  /** An op, by identity. */
  type Op = nat

  datatype Block = Block(name: Option<string>, ops: seq<Op>)

  /** Deleted input ops and the created output ops in their place. */
  type Replacement = (seq<Op>, seq<Op>)

  datatype Alignment = Alignment(pairs: seq<(Op, Op)>, created: seq<Op>, deleted: seq<Op>, replaced: seq<Replacement>)

  function Ins(pairs: seq<(Op, Op)>): seq<Op> {
    seq(|pairs|, p requires 0 <= p < |pairs| => pairs[p].0)
  }

  function Outs(pairs: seq<(Op, Op)>): seq<Op> {
    seq(|pairs|, p requires 0 <= p < |pairs| => pairs[p].1)
  }

  lemma PairsConcat(u: seq<(Op, Op)>, v: seq<(Op, Op)>)
    ensures Ins(u + v) == Ins(u) + Ins(v) && Outs(u + v) == Outs(u) + Outs(v)
  {
  }

  /** The ops of the first `n` blocks, in order. */
  function AllOps(blocks: seq<Block>, n: nat): seq<Op>
    requires n <= |blocks|
  {
    if n == 0 then [] else AllOps(blocks, n - 1) + blocks[n - 1].ops
  }

  /** The ops whose flag is `want`. */
  function Pick(ops: seq<Op>, flags: seq<bool>, want: bool): seq<Op>
    requires |ops| == |flags|
  {
    if ops == [] then []
    else
      var n := |ops| - 1;
      Pick(ops[..n], flags[..n], want) + if flags[n] == want then [ops[n]] else []
  }

  lemma {:induction false} PickSplits(ops: seq<Op>, flags: seq<bool>)
    requires |ops| == |flags|
    ensures multiset(Pick(ops, flags, true)) + multiset(Pick(ops, flags, false)) == multiset(ops)
  {
    if ops != [] {
      var n := |ops| - 1;
      PickSplits(ops[..n], flags[..n]);
      assert ops == ops[..n] + [ops[n]];
    }
  }

  /** Raising one more flag, past every raised one, picks one more op. */
  lemma {:induction false} PickRaised(ops: seq<Op>, flags: seq<bool>, i: nat)
    requires |ops| == |flags| && i < |ops| && forall k | i <= k < |flags| :: !flags[k]
    ensures Pick(ops, flags[i := true], true) == Pick(ops, flags, true) + [ops[i]]
  {
    var n := |ops| - 1;
    var raised := flags[i := true];
    if i < n {
      assert raised[..n] == flags[..n][i := true];
      PickRaised(ops[..n], flags[..n], i);
    } else {
      assert raised[..n] == flags[..n];
    }
  }

  function NoFlags(n: nat): (flags: seq<bool>)
    ensures |flags| == n && forall k | 0 <= k < n :: !flags[k]
  {
    seq(n, _ => false)
  }

  lemma {:induction false} PickNone(ops: seq<Op>, flags: seq<bool>)
    requires |ops| == |flags| && forall k | 0 <= k < |flags| :: !flags[k]
    ensures Pick(ops, flags, true) == []
  {
    if ops != [] {
      PickNone(ops[..|ops| - 1], flags[..|ops| - 1]);
    }
  }

  // ---- subsequences ----

  /** Places in a sequence of `n`, rising. */
  ghost predicate Rising(ps: seq<nat>, n: nat) {
    && (forall i | 0 <= i < |ps| :: ps[i] < n)
    && (forall i, j | 0 <= i < j < |ps| :: ps[i] < ps[j])
  }

  ghost predicate TakenAt(part: seq<Op>, ops: seq<Op>, ps: seq<nat>) {
    |part| == |ps| && Rising(ps, |ops|) && forall i: nat | i < |ps| :: ps[i] < |ops| && part[i] == ops[ps[i]]
  }

  /** Some of the ops, in the same order. */
  ghost predicate Subsequence(part: seq<Op>, ops: seq<Op>) {
    exists ps :: TakenAt(part, ops, ps)
  }

  lemma SubsequencesAppend(part: seq<Op>, ops: seq<Op>, more: seq<Op>, others: seq<Op>)
    requires Subsequence(part, ops) && Subsequence(more, others)
    ensures Subsequence(part + more, ops + others)
  {
    var ps :| TakenAt(part, ops, ps);
    var qs :| TakenAt(more, others, qs);
    var shifted: seq<nat> := seq(|qs|, i requires 0 <= i < |qs| => |ops| + qs[i]);
    assert TakenAt(part + more, ops + others, ps + shifted);
  }

  lemma SubsequenceOfItself(ops: seq<Op>)
    ensures Subsequence(ops, ops) && Subsequence([], ops)
  {
    var all: seq<nat> := seq(|ops|, i requires 0 <= i < |ops| => i);
    assert TakenAt(ops, ops, all);
    assert TakenAt([], ops, []);
  }

  lemma SubsequenceOfPart(part: seq<Op>, middle: seq<Op>, ops: seq<Op>)
    requires Subsequence(part, middle) && Subsequence(middle, ops)
    ensures Subsequence(part, ops)
  {
    var ps :| TakenAt(part, middle, ps);
    var qs :| TakenAt(middle, ops, qs);
    assert TakenAt(part, ops, seq(|ps|, i requires 0 <= i < |ps| => qs[ps[i]]));
  }

  lemma {:induction false} PickIsSubsequence(ops: seq<Op>, flags: seq<bool>, want: bool)
    requires |ops| == |flags|
    ensures Subsequence(Pick(ops, flags, want), ops)
  {
    if ops == [] {
      SubsequenceOfItself(ops);
    } else {
      var n := |ops| - 1;
      PickIsSubsequence(ops[..n], flags[..n], want);
      SubsequenceOfItself([ops[n]]);
      SubsequencesAppend(Pick(ops[..n], flags[..n], want), ops[..n], if flags[n] == want then [ops[n]] else [], [ops[n]]);
      assert ops == ops[..n] + [ops[n]];
    }
  }

  datatype BlockMatch = BlockMatch(pairs: seq<(Op, Op)>, used: seq<bool>, outMatched: seq<bool>)

  /** What matching one pair of blocks yields: as flags on both sides, as pairs of ops of equal
      key, and as the gaps between matched ops. */
  ghost predicate MatchesBlocks(m: BlockMatch, inOps: seq<Op>, outOps: seq<Op>, key: Op -> string) {
    && |m.used| == |inOps| && |m.outMatched| == |outOps|
    && Ins(m.pairs) == Pick(inOps, m.used, true)
    && Outs(m.pairs) == Pick(outOps, m.outMatched, true)
    && (forall p | p in m.pairs :: key(p.0) == key(p.1))
  }

  /** Positions inside both blocks, strictly increasing on both sides. */
  ghost predicate Positions(inOps: seq<Op>, outOps: seq<Op>, matched: Pairs) {
    && Increasing(matched, 0, 0)
    && forall q | 0 <= q < |matched| :: matched[q].0 < |inOps| && matched[q].1 < |outOps|
  }

  /** The first position past matched pair `p - 1`, on both sides. */
  function After(matched: Pairs, p: nat): (nat, nat)
    requires p <= |matched|
  {
    if p == 0 then (0, 0) else (matched[p - 1].0 + 1, matched[p - 1].1 + 1)
  }

  lemma AfterAdvances(inOps: seq<Op>, outOps: seq<Op>, matched: Pairs, p: nat)
    requires p < |matched| && Positions(inOps, outOps, matched)
    ensures After(matched, p).0 <= matched[p].0 && After(matched, p).1 <= matched[p].1
  {
    if p > 0 {
      assert matched[p - 1].0 < matched[p].0;
    }
  }

  lemma AfterInside(inOps: seq<Op>, outOps: seq<Op>, matched: Pairs, p: nat)
    requires p <= |matched| && Positions(inOps, outOps, matched)
    ensures After(matched, p).0 <= |inOps| && After(matched, p).1 <= |outOps|
  {
  }

  /** The ops strictly between matched pair `p - 1` and matched pair `p`, on both sides. */
  function Gap(inOps: seq<Op>, outOps: seq<Op>, matched: Pairs, p: nat): Replacement
    requires p <= |matched| && Positions(inOps, outOps, matched)
  {
    var (i, o) := After(matched, p);
    AfterInside(inOps, outOps, matched, p);
    if p < |matched| then
      AfterAdvances(inOps, outOps, matched, p);
      (inOps[i..matched[p].0], outOps[o..matched[p].1])
    else (inOps[i..], outOps[o..])
  }

  /** The first `p` gaps. */
  function Gaps(inOps: seq<Op>, outOps: seq<Op>, matched: Pairs, p: nat): (gaps: seq<Replacement>)
    requires p <= |matched| + 1 && Positions(inOps, outOps, matched)
    ensures |gaps| == p
  {
    if p == 0 then [] else Gaps(inOps, outOps, matched, p - 1) + [Gap(inOps, outOps, matched, p - 1)]
  }

  /** The flags and pairs after the first `p` matched positions. */
  function Taken(inOps: seq<Op>, outOps: seq<Op>, matched: Pairs, p: nat): (m: BlockMatch)
    requires p <= |matched| && Positions(inOps, outOps, matched)
    ensures |m.used| == |inOps| && |m.outMatched| == |outOps| && |m.pairs| == p
  {
    if p == 0 then BlockMatch([], NoFlags(|inOps|), NoFlags(|outOps|))
    else
      var before := Taken(inOps, outOps, matched, p - 1);
      var (i, o) := matched[p - 1];
      BlockMatch(before.pairs + [(inOps[i], outOps[o])], before.used[i := true], before.outMatched[o := true])
  }

  /** No flag is raised past the last matched position. */
  lemma {:induction false} TakenStops(inOps: seq<Op>, outOps: seq<Op>, matched: Pairs, p: nat)
    requires p <= |matched| && Positions(inOps, outOps, matched)
    ensures forall k: nat | After(matched, p).0 <= k < |inOps| :: !Taken(inOps, outOps, matched, p).used[k]
    ensures forall k: nat | After(matched, p).1 <= k < |outOps| :: !Taken(inOps, outOps, matched, p).outMatched[k]
  {
    var m := Taken(inOps, outOps, matched, p);
    if p == 0 {
      assert m.used == NoFlags(|inOps|) && m.outMatched == NoFlags(|outOps|);
    } else {
      var before := Taken(inOps, outOps, matched, p - 1);
      TakenStops(inOps, outOps, matched, p - 1);
      AfterAdvances(inOps, outOps, matched, p - 1);
      forall k: nat | After(matched, p).0 <= k < |inOps|
        ensures !m.used[k]
      {
        assert !before.used[k];
      }
      forall k: nat | After(matched, p).1 <= k < |outOps|
        ensures !m.outMatched[k]
      {
        assert !before.outMatched[k];
      }
    }
  }

  /** The raised flags pick exactly the pairs' ops, in order. */
  lemma {:induction false} TakenPicks(inOps: seq<Op>, outOps: seq<Op>, matched: Pairs, p: nat)
    requires p <= |matched| && Positions(inOps, outOps, matched)
    ensures var m := Taken(inOps, outOps, matched, p);
      Ins(m.pairs) == Pick(inOps, m.used, true) && Outs(m.pairs) == Pick(outOps, m.outMatched, true)
  {
    if p == 0 {
      PickNone(inOps, NoFlags(|inOps|));
      PickNone(outOps, NoFlags(|outOps|));
    } else {
      var before := Taken(inOps, outOps, matched, p - 1);
      var (i, o) := matched[p - 1];
      TakenPicks(inOps, outOps, matched, p - 1);
      TakenStops(inOps, outOps, matched, p - 1);
      PickRaised(inOps, before.used, i);
      PickRaised(outOps, before.outMatched, o);
      PairsConcat(before.pairs, [(inOps[i], outOps[o])]);
    }
  }

  lemma {:induction false} TakenPairs(inOps: seq<Op>, outOps: seq<Op>, matched: Pairs, p: nat)
    requires p <= |matched| && Positions(inOps, outOps, matched)
    ensures var m := Taken(inOps, outOps, matched, p);
      forall q: nat | q < p :: m.pairs[q] == (inOps[matched[q].0], outOps[matched[q].1])
  {
    if p > 0 {
      TakenPairs(inOps, outOps, matched, p - 1);
    }
  }

  lemma TakenKeys(inOps: seq<Op>, outOps: seq<Op>, matched: Pairs, key: Op -> string)
    requires Common(Keys(inOps, key), Keys(outOps, key), matched, 0, 0)
    ensures Positions(inOps, outOps, matched)
    ensures forall p | p in Taken(inOps, outOps, matched, |matched|).pairs :: key(p.0) == key(p.1)
  {
    var m := Taken(inOps, outOps, matched, |matched|);
    TakenPairs(inOps, outOps, matched, |matched|);
    forall p | p in m.pairs
      ensures key(p.0) == key(p.1)
    {
      var q :| 0 <= q < |m.pairs| && m.pairs[q] == p;
      assert Keys(inOps, key)[matched[q].0] == Keys(outOps, key)[matched[q].1];
    }
  }

  /** Walks the matched positions in order, raising flags and cutting gaps. */
  method TakeMatches(inOps: seq<Op>, outOps: seq<Op>, matched: Pairs, key: Op -> string)
    returns (m: BlockMatch, gaps: seq<Replacement>)
    requires Common(Keys(inOps, key), Keys(outOps, key), matched, 0, 0)
    ensures MatchesBlocks(m, inOps, outOps, key)
    ensures Positions(inOps, outOps, matched) && gaps == Gaps(inOps, outOps, matched, |matched| + 1)
    ensures |m.pairs| == |matched|
    ensures forall q: nat | q < |matched| :: m.pairs[q] == (inOps[matched[q].0], outOps[matched[q].1])
  {
    TakenKeys(inOps, outOps, matched, key);
    m := BlockMatch([], NoFlags(|inOps|), NoFlags(|outOps|));
    gaps := [];
    for p := 0 to |matched|
      invariant m == Taken(inOps, outOps, matched, p)
      invariant gaps == Gaps(inOps, outOps, matched, p)
    {
      var (i, o) := matched[p];
      gaps := gaps + [Gap(inOps, outOps, matched, p)];
      m := BlockMatch(m.pairs + [(inOps[i], outOps[o])], m.used[i := true], m.outMatched[o := true]);
    }
    TakenPicks(inOps, outOps, matched, |matched|);
    TakenPairs(inOps, outOps, matched, |matched|);
    gaps := gaps + [Gap(inOps, outOps, matched, |matched|)];
  }

  function Keys(ops: seq<Op>, key: Op -> string): seq<string> {
    seq(|ops|, i requires 0 <= i < |ops| => key(ops[i]))
  }

  // ---- phase one: blocks of the same label ----

  /** From place `lo` on, `pairs` pairs the ops of two blocks at `matched`: a common subsequence of
      their keys, and a longest one below the limit. */
  ghost predicate RunAt(pairs: seq<(Op, Op)>, inOps: seq<Op>, outOps: seq<Op>, key: Op -> string, lo: nat, matched: Pairs) {
    && Common(Keys(inOps, key), Keys(outOps, key), matched, 0, 0)
    && lo + |matched| <= |pairs|
    && (forall q: nat | q < |matched| :: pairs[lo + q] == (inOps[matched[q].0], outOps[matched[q].1]))
    && (|inOps| * |outOps| <= LCS_LIMIT ==>
          forall other: Pairs | Common(Keys(inOps, key), Keys(outOps, key), other, 0, 0) :: |other| <= |matched|)
  }

  /** From place `at` on, `gaps` has the gaps between the ops matched at `matched`. */
  ghost predicate GapsAt(gaps: seq<Replacement>, inOps: seq<Op>, outOps: seq<Op>, at: nat, matched: Pairs) {
    && Positions(inOps, outOps, matched) && at + |matched| + 1 <= |gaps|
    && gaps[at..at + |matched| + 1] == Gaps(inOps, outOps, matched, |matched| + 1)
  }

  /** Two blocks are matched in one run of pairs, and the gaps are those of that same match. */
  ghost predicate PairedInPlace(pairs: seq<(Op, Op)>, gaps: seq<Replacement>, inOps: seq<Op>, outOps: seq<Op>, key: Op -> string) {
    exists lo: nat, at: nat, matched: Pairs :: RunAt(pairs, inOps, outOps, key, lo, matched) && GapsAt(gaps, inOps, outOps, at, matched)
  }

  lemma GapsStay(gaps: seq<Replacement>, more: seq<Replacement>, inOps: seq<Op>, outOps: seq<Op>, at: nat, matched: Pairs)
    requires GapsAt(gaps, inOps, outOps, at, matched)
    ensures GapsAt(gaps + more, inOps, outOps, at, matched) && GapsAt(more + gaps, inOps, outOps, |more| + at, matched)
  {
    var n := |matched| + 1;
    assert (gaps + more)[at..at + n] == gaps[at..at + n];
    assert (more + gaps)[|more| + at..|more| + at + n] == gaps[at..at + n];
  }

  lemma PairedStays(pairs: seq<(Op, Op)>, more: seq<(Op, Op)>, gaps: seq<Replacement>, moreGaps: seq<Replacement>, inOps: seq<Op>,
                    outOps: seq<Op>, key: Op -> string)
    requires PairedInPlace(pairs, gaps, inOps, outOps, key)
    ensures PairedInPlace(pairs + more, gaps + moreGaps, inOps, outOps, key)
    ensures PairedInPlace(more + pairs, moreGaps + gaps, inOps, outOps, key)
  {
    var lo: nat, at: nat, matched: Pairs :| RunAt(pairs, inOps, outOps, key, lo, matched) && GapsAt(gaps, inOps, outOps, at, matched);
    GapsStay(gaps, moreGaps, inOps, outOps, at, matched);
    assert RunAt(pairs + more, inOps, outOps, key, lo, matched);
    assert RunAt(more + pairs, inOps, outOps, key, |more| + lo, matched);
  }

  /** A gap between the ops of two blocks, in a match that `pairs` has. */
  ghost predicate IsGap(g: Replacement, pairs: seq<(Op, Op)>, inOps: seq<Op>, outOps: seq<Op>, key: Op -> string) {
    exists lo: nat, matched: Pairs ::
      RunAt(pairs, inOps, outOps, key, lo, matched) && Positions(inOps, outOps, matched) && g in Gaps(inOps, outOps, matched, |matched| + 1)
  }

  lemma GapStays(g: Replacement, pairs: seq<(Op, Op)>, more: seq<(Op, Op)>, inOps: seq<Op>, outOps: seq<Op>, key: Op -> string)
    requires IsGap(g, pairs, inOps, outOps, key)
    ensures IsGap(g, pairs + more, inOps, outOps, key) && IsGap(g, more + pairs, inOps, outOps, key)
  {
    var lo: nat, matched: Pairs :|
      RunAt(pairs, inOps, outOps, key, lo, matched) && Positions(inOps, outOps, matched) && g in Gaps(inOps, outOps, matched, |matched| + 1);
    assert RunAt(pairs + more, inOps, outOps, key, lo, matched);
    assert RunAt(more + pairs, inOps, outOps, key, |more| + lo, matched);
  }

  /** No later block has the label of block `i`. */
  ghost predicate LastOfLabel(blocks: seq<Block>, i: nat) {
    i < |blocks| && blocks[i].name.Some? && forall j | i < j < |blocks| :: blocks[j].name != blocks[i].name
  }

  /** The first `k` output blocks are matched in place with the last input block of their label. */
  ghost predicate LabelsMatched(pairs: seq<(Op, Op)>, gaps: seq<Replacement>, inBlocks: seq<Block>, outBlocks: seq<Block>, k: nat,
                                key: Op -> string)
    requires k <= |outBlocks|
  {
    forall i: nat, j: nat | j < k && LastOfLabel(inBlocks, i) && inBlocks[i].name == outBlocks[j].name ::
      PairedInPlace(pairs, gaps, inBlocks[i].ops, outBlocks[j].ops, key)
  }

  /** Every gap is one between matched ops of two blocks of a label. */
  ghost predicate OnlyGaps(pairs: seq<(Op, Op)>, gaps: seq<Replacement>, inBlocks: seq<Block>, outBlocks: seq<Block>, k: nat,
                           key: Op -> string)
    requires k <= |outBlocks|
  {
    forall g | g in gaps :: GapOfBlocks(g, pairs, inBlocks, outBlocks, k, key)
  }

  ghost predicate GapOfBlocks(g: Replacement, pairs: seq<(Op, Op)>, inBlocks: seq<Block>, outBlocks: seq<Block>, k: nat, key: Op -> string)
    requires k <= |outBlocks|
  {
    exists i: nat, j: nat :: j < k && LastOfLabel(inBlocks, i) && inBlocks[i].name == outBlocks[j].name
                             && IsGap(g, pairs, inBlocks[i].ops, outBlocks[j].ops, key)
  }

  lemma GapsOnlyStay(pairs: seq<(Op, Op)>, more: seq<(Op, Op)>, gaps: seq<Replacement>, inBlocks: seq<Block>, outBlocks: seq<Block>,
                     k: nat, n: nat, key: Op -> string)
    requires k <= n <= |outBlocks| && OnlyGaps(pairs, gaps, inBlocks, outBlocks, k, key)
    ensures OnlyGaps(pairs + more, gaps, inBlocks, outBlocks, n, key)
  {
    forall g | g in gaps
      ensures GapOfBlocks(g, pairs + more, inBlocks, outBlocks, n, key)
    {
      var i: nat, j: nat :| j < k && LastOfLabel(inBlocks, i) && inBlocks[i].name == outBlocks[j].name
                            && IsGap(g, pairs, inBlocks[i].ops, outBlocks[j].ops, key);
      GapStays(g, pairs, more, inBlocks[i].ops, outBlocks[j].ops, key);
      assert j < n;
    }
  }

  lemma LabelsStay(pairs: seq<(Op, Op)>, more: seq<(Op, Op)>, gaps: seq<Replacement>, moreGaps: seq<Replacement>, inBlocks: seq<Block>,
                   outBlocks: seq<Block>, k: nat, key: Op -> string)
    requires k <= |outBlocks| && LabelsMatched(pairs, gaps, inBlocks, outBlocks, k, key)
    ensures LabelsMatched(pairs + more, gaps + moreGaps, inBlocks, outBlocks, k, key)
  {
    forall i: nat, j: nat | j < k && LastOfLabel(inBlocks, i) && inBlocks[i].name == outBlocks[j].name
      ensures PairedInPlace(pairs + more, gaps + moreGaps, inBlocks[i].ops, outBlocks[j].ops, key)
    {
      PairedStays(pairs, more, gaps, moreGaps, inBlocks[i].ops, outBlocks[j].ops, key);
    }
  }

  type Used = seq<seq<bool>>

  ghost predicate Shaped(blocks: seq<Block>, used: Used) {
    |used| == |blocks| && forall i | 0 <= i < |blocks| :: |used[i]| == |blocks[i].ops|
  }

  /** The ops of the first `n` blocks whose flag is `want`. */
  function FlaggedOps(blocks: seq<Block>, used: Used, n: nat, want: bool): seq<Op>
    requires Shaped(blocks, used) && n <= |blocks|
  {
    if n == 0 then [] else FlaggedOps(blocks, used, n - 1, want) + Pick(blocks[n - 1].ops, used[n - 1], want)
  }

  /** The flags of the first `n` blocks, in order. */
  function AllFlags(used: Used, n: nat): seq<bool>
    requires n <= |used|
  {
    if n == 0 then [] else AllFlags(used, n - 1) + used[n - 1]
  }

  lemma {:induction false} PickConcat(a: seq<Op>, u: seq<bool>, b: seq<Op>, v: seq<bool>, want: bool)
    requires |a| == |u| && |b| == |v|
    ensures Pick(a + b, u + v, want) == Pick(a, u, want) + Pick(b, v, want)
  {
    if b == [] {
      assert a + b == a && u + v == u;
    } else {
      var n := |b| - 1;
      PickConcat(a, u, b[..n], v[..n], want);
      assert (a + b)[..|a| + n] == a + b[..n] && (u + v)[..|a| + n] == u + v[..n];
    }
  }

  lemma {:induction false} FlaggedIsPick(blocks: seq<Block>, used: Used, n: nat, want: bool)
    requires Shaped(blocks, used) && n <= |blocks|
    ensures |AllFlags(used, n)| == |AllOps(blocks, n)|
    ensures FlaggedOps(blocks, used, n, want) == Pick(AllOps(blocks, n), AllFlags(used, n), want)
  {
    if n > 0 {
      FlaggedIsPick(blocks, used, n - 1, want);
      PickConcat(AllOps(blocks, n - 1), AllFlags(used, n - 1), blocks[n - 1].ops, used[n - 1], want);
    }
  }

  lemma FlaggedSplit(blocks: seq<Block>, used: Used, n: nat)
    requires Shaped(blocks, used) && n <= |blocks|
    ensures multiset(FlaggedOps(blocks, used, n, true)) + multiset(FlaggedOps(blocks, used, n, false))
         == multiset(AllOps(blocks, n))
  {
    FlaggedIsPick(blocks, used, n, true);
    FlaggedIsPick(blocks, used, n, false);
    PickSplits(AllOps(blocks, n), AllFlags(used, n));
  }

  function OrFlags(u: seq<bool>, v: seq<bool>): seq<bool>
    requires |u| == |v|
  {
    seq(|u|, i requires 0 <= i < |u| => u[i] || v[i])
  }

  ghost predicate RowClear(used: Used, i: nat)
    requires i < |used|
  {
    forall k | 0 <= k < |used[i]| :: !used[i][k]
  }

  lemma {:induction false} FlaggedElsewhere(blocks: seq<Block>, used: Used, n: nat, i: nat, flags: seq<bool>)
    requires Shaped(blocks, used) && n <= i < |blocks| && |flags| == |blocks[i].ops|
    ensures Shaped(blocks, used[i := flags])
    ensures FlaggedOps(blocks, used[i := flags], n, true) == FlaggedOps(blocks, used, n, true)
  {
    if n > 0 {
      FlaggedElsewhere(blocks, used, n - 1, i, flags);
    }
  }

  lemma FlaggedBag(blocks: seq<Block>, used: Used, n: nat)
    requires Shaped(blocks, used) && 0 < n <= |blocks|
    ensures multiset(FlaggedOps(blocks, used, n, true))
         == multiset(FlaggedOps(blocks, used, n - 1, true)) + multiset(Pick(blocks[n - 1].ops, used[n - 1], true))
  {
  }

  lemma BagsMove(filled: multiset<Op>, before: multiset<Op>, picked: multiset<Op>, last: multiset<Op>)
    requires filled == before + picked
    ensures filled + last == before + last + picked
  {
  }

  /** Filling a clear row adds exactly its picked ops. */
  lemma {:induction false} FillRow(blocks: seq<Block>, used: Used, n: nat, i: nat, flags: seq<bool>)
    requires Shaped(blocks, used) && i < n <= |blocks| && |flags| == |blocks[i].ops|
    requires RowClear(used, i)
    ensures Shaped(blocks, used[i := flags])
    ensures multiset(FlaggedOps(blocks, used[i := flags], n, true))
         == multiset(FlaggedOps(blocks, used, n, true)) + multiset(Pick(blocks[i].ops, flags, true))
    decreases n, 1
  {
    if i == n - 1 {
      FillLast(blocks, used, n, flags, FlaggedOps(blocks, used, n - 1, true), Pick(blocks[i].ops, flags, true));
    } else {
      FillEarlier(blocks, used, n, i, flags);
    }
  }

  lemma {:induction false} FillLast(blocks: seq<Block>, used: Used, n: nat, flags: seq<bool>, front: seq<Op>, picked: seq<Op>)
    requires Shaped(blocks, used) && 0 < n <= |blocks| && |flags| == |blocks[n - 1].ops| && RowClear(used, n - 1)
    requires front == FlaggedOps(blocks, used, n - 1, true) && picked == Pick(blocks[n - 1].ops, flags, true)
    ensures Shaped(blocks, used[n - 1 := flags])
    ensures FlaggedOps(blocks, used[n - 1 := flags], n, true) == front + picked && FlaggedOps(blocks, used, n, true) == front
  {
    FlaggedElsewhere(blocks, used, n - 1, n - 1, flags);
    PickNone(blocks[n - 1].ops, used[n - 1]);
  }

  lemma {:induction false} FillEarlier(blocks: seq<Block>, used: Used, n: nat, i: nat, flags: seq<bool>)
    requires Shaped(blocks, used) && i < n - 1 && n <= |blocks| && |flags| == |blocks[i].ops|
    requires RowClear(used, i)
    ensures Shaped(blocks, used[i := flags])
    ensures multiset(FlaggedOps(blocks, used[i := flags], n, true))
         == multiset(FlaggedOps(blocks, used, n, true)) + multiset(Pick(blocks[i].ops, flags, true))
    decreases n, 0
  {
    FlaggedBag(blocks, used, n);
    FlaggedBag(blocks, used[i := flags], n);
    FillRow(blocks, used, n - 1, i, flags);
    BagsMove(multiset(FlaggedOps(blocks, used[i := flags], n - 1, true)), multiset(FlaggedOps(blocks, used, n - 1, true)),
             multiset(Pick(blocks[i].ops, flags, true)), multiset(Pick(blocks[n - 1].ops, used[n - 1], true)));
  }

  lemma OrWithClear(u: seq<bool>, v: seq<bool>)
    requires |u| == |v| && forall k | 0 <= k < |u| :: !u[k]
    ensures OrFlags(u, v) == v
  {
  }

  /** Where the last block of each label is. */
  ghost predicate IndexesLabels(blocks: seq<Block>, byLabel: map<string, nat>, n: nat) {
    && n <= |blocks|
    && (forall l | l in byLabel :: byLabel[l] < n && blocks[byLabel[l]].name == Some(l))
    && (forall i | 0 <= i < n && blocks[i].name.Some? :: blocks[i].name.value in byLabel && i <= byLabel[blocks[i].name.value])
  }

  method IndexLabels(blocks: seq<Block>) returns (byLabel: map<string, nat>)
    ensures IndexesLabels(blocks, byLabel, |blocks|)
  {
    byLabel := map[];
    for i := 0 to |blocks|
      invariant IndexesLabels(blocks, byLabel, i)
    {
      if blocks[i].name.Some? {
        byLabel := byLabel[blocks[i].name.value := i];
      }
    }
  }

  /** Output blocks carry distinct labels. */
  ghost predicate DistinctLabels(blocks: seq<Block>) {
    forall i, j | 0 <= i < j < |blocks| && blocks[i].name.Some? :: blocks[i].name != blocks[j].name
  }

  datatype Phase = Phase(pairs: seq<(Op, Op)>, used: Used, outLeft: seq<Op>, gaps: seq<Replacement>)

  /** What holds after the first `k` output blocks: their ops are matched or left, equal keys
      are paired, and only rows of labels seen so far are touched. */
  ghost predicate Consistent(s: Phase, inBlocks: seq<Block>, outBlocks: seq<Block>, k: nat, key: Op -> string) {
    && k <= |outBlocks| && Shaped(inBlocks, s.used)
    && multiset(Outs(s.pairs)) + multiset(s.outLeft) == multiset(AllOps(outBlocks, k))
    && Subsequence(s.outLeft, AllOps(outBlocks, k))
    && (forall p | p in s.pairs :: key(p.0) == key(p.1))
  }

  ghost predicate InputsAccounted(s: Phase, inBlocks: seq<Block>, outBlocks: seq<Block>, k: nat)
    requires Shaped(inBlocks, s.used) && k <= |outBlocks|
  {
    && multiset(Ins(s.pairs)) == multiset(FlaggedOps(inBlocks, s.used, |inBlocks|, true))
    && forall i: nat | i < |inBlocks| :: RowClear(s.used, i) || LabelSeen(inBlocks[i], outBlocks, k)
  }

  ghost predicate LabelSeen(block: Block, outBlocks: seq<Block>, k: nat)
    requires k <= |outBlocks|
  {
    block.name.Some? && exists j :: 0 <= j < k && outBlocks[j].name == block.name
  }

  method MatchOps(inOps: seq<Op>, outOps: seq<Op>, key: Op -> string) returns (m: BlockMatch, gaps: seq<Replacement>)
    ensures MatchesBlocks(m, inOps, outOps, key) && PairedInPlace(m.pairs, gaps, inOps, outOps, key)
    ensures forall g | g in gaps :: IsGap(g, m.pairs, inOps, outOps, key)
  {
    var matched := Match(Keys(inOps, key), Keys(outOps, key));
    m, gaps := TakeMatches(inOps, outOps, matched, key);
    assert RunAt(m.pairs, inOps, outOps, key, 0, matched);
    WholeRun(m.pairs, gaps, inOps, outOps, key, matched);
  }

  lemma WholeRun(pairs: seq<(Op, Op)>, gaps: seq<Replacement>, inOps: seq<Op>, outOps: seq<Op>, key: Op -> string, matched: Pairs)
    requires RunAt(pairs, inOps, outOps, key, 0, matched)
    requires Positions(inOps, outOps, matched) && gaps == Gaps(inOps, outOps, matched, |matched| + 1)
    ensures PairedInPlace(pairs, gaps, inOps, outOps, key)
    ensures forall g | g in gaps :: IsGap(g, pairs, inOps, outOps, key)
  {
    assert gaps[0..0 + |matched| + 1] == gaps;
    assert GapsAt(gaps, inOps, outOps, 0, matched);
  }

  /** What both sides' labels come to after `k` output blocks. */
  ghost predicate LabelsDone(s: Phase, inBlocks: seq<Block>, outBlocks: seq<Block>, k: nat, key: Op -> string)
    requires k <= |outBlocks|
  {
    LabelsMatched(s.pairs, s.gaps, inBlocks, outBlocks, k, key) && OnlyGaps(s.pairs, s.gaps, inBlocks, outBlocks, k, key)
  }

  /** One output block: its ops are left over when no input block has its label, else matched
      against that block. */
  method MatchBlock(s: Phase, inBlocks: seq<Block>, outBlocks: seq<Block>, k: nat, byLabel: map<string, nat>, key: Op -> string)
    returns (r: Phase)
    requires k < |outBlocks| && IndexesLabels(inBlocks, byLabel, |inBlocks|) && Consistent(s, inBlocks, outBlocks, k, key)
    ensures Consistent(r, inBlocks, outBlocks, k + 1, key)
    ensures DistinctLabels(outBlocks) && InputsAccounted(s, inBlocks, outBlocks, k) ==> InputsAccounted(r, inBlocks, outBlocks, k + 1)
    ensures LabelsDone(s, inBlocks, outBlocks, k, key) ==> LabelsDone(r, inBlocks, outBlocks, k + 1, key)
  {
    var out := outBlocks[k];
    if out.name.None? || out.name.value !in byLabel {
      r := s.(outLeft := s.outLeft + out.ops);
      StepMissed(s, r, inBlocks, outBlocks, k, byLabel, key);
      return;
    }
    var bi := byLabel[out.name.value];
    var inOps := inBlocks[bi].ops;
    var m, gaps := MatchOps(inOps, out.ops, key);
    var row := OrFlags(s.used[bi], m.used);
    r := Phase(s.pairs + m.pairs, s.used[bi := row], s.outLeft + Pick(out.ops, m.outMatched, false), s.gaps + gaps);
    StepOutputs(s, r, out.ops, m, key);
    PickIsSubsequence(out.ops, m.outMatched, false);
    SubsequencesAppend(s.outLeft, AllOps(outBlocks, k), Pick(out.ops, m.outMatched, false), out.ops);
    StepLabels(s, m.pairs, gaps, r, inBlocks, outBlocks, k, bi, byLabel, key);
    if DistinctLabels(outBlocks) && InputsAccounted(s, inBlocks, outBlocks, k) {
      StepInputs(s, r, inBlocks, outBlocks, k, bi, m, key);
    }
  }

  lemma StepLabels(s: Phase, more: seq<(Op, Op)>, gaps: seq<Replacement>, r: Phase, inBlocks: seq<Block>, outBlocks: seq<Block>, k: nat,
                   bi: nat, byLabel: map<string, nat>, key: Op -> string)
    requires k < |outBlocks| && IndexesLabels(inBlocks, byLabel, |inBlocks|)
    requires outBlocks[k].name.Some? && outBlocks[k].name.value in byLabel && bi == byLabel[outBlocks[k].name.value]
    requires PairedInPlace(more, gaps, inBlocks[bi].ops, outBlocks[k].ops, key)
    requires forall g | g in gaps :: IsGap(g, more, inBlocks[bi].ops, outBlocks[k].ops, key)
    requires r.pairs == s.pairs + more && r.gaps == s.gaps + gaps
    ensures LabelsDone(s, inBlocks, outBlocks, k, key) ==> LabelsDone(r, inBlocks, outBlocks, k + 1, key)
  {
    if LabelsDone(s, inBlocks, outBlocks, k, key) {
      StepMatched(s, more, gaps, r, inBlocks, outBlocks, k, bi, byLabel, key);
      StepGaps(s, more, gaps, r, inBlocks, outBlocks, k, bi, byLabel, key);
    }
  }

  lemma StepMatched(s: Phase, more: seq<(Op, Op)>, gaps: seq<Replacement>, r: Phase, inBlocks: seq<Block>, outBlocks: seq<Block>, k: nat,
                    bi: nat, byLabel: map<string, nat>, key: Op -> string)
    requires k < |outBlocks| && IndexesLabels(inBlocks, byLabel, |inBlocks|)
    requires outBlocks[k].name.Some? && outBlocks[k].name.value in byLabel && bi == byLabel[outBlocks[k].name.value]
    requires PairedInPlace(more, gaps, inBlocks[bi].ops, outBlocks[k].ops, key)
    requires r.pairs == s.pairs + more && r.gaps == s.gaps + gaps
    requires LabelsMatched(s.pairs, s.gaps, inBlocks, outBlocks, k, key)
    ensures LabelsMatched(r.pairs, r.gaps, inBlocks, outBlocks, k + 1, key)
  {
    PairedStays(more, s.pairs, gaps, s.gaps, inBlocks[bi].ops, outBlocks[k].ops, key);
    LabelsStay(s.pairs, more, s.gaps, gaps, inBlocks, outBlocks, k, key);
    assert forall i: nat | LastOfLabel(inBlocks, i) && inBlocks[i].name == outBlocks[k].name :: i == bi;
  }

  lemma StepGaps(s: Phase, more: seq<(Op, Op)>, gaps: seq<Replacement>, r: Phase, inBlocks: seq<Block>, outBlocks: seq<Block>, k: nat,
                 bi: nat, byLabel: map<string, nat>, key: Op -> string)
    requires k < |outBlocks| && IndexesLabels(inBlocks, byLabel, |inBlocks|)
    requires outBlocks[k].name.Some? && outBlocks[k].name.value in byLabel && bi == byLabel[outBlocks[k].name.value]
    requires forall g | g in gaps :: IsGap(g, more, inBlocks[bi].ops, outBlocks[k].ops, key)
    requires r.pairs == s.pairs + more && r.gaps == s.gaps + gaps
    requires OnlyGaps(s.pairs, s.gaps, inBlocks, outBlocks, k, key)
    ensures OnlyGaps(r.pairs, r.gaps, inBlocks, outBlocks, k + 1, key)
  {
    GapsOnlyStay(s.pairs, more, s.gaps, inBlocks, outBlocks, k, k + 1, key);
    assert LastOfLabel(inBlocks, bi);
    forall g | g in gaps
      ensures GapOfBlocks(g, r.pairs, inBlocks, outBlocks, k + 1, key)
    {
      GapStays(g, more, s.pairs, inBlocks[bi].ops, outBlocks[k].ops, key);
    }
  }

  lemma StepMissed(s: Phase, r: Phase, inBlocks: seq<Block>, outBlocks: seq<Block>, k: nat, byLabel: map<string, nat>, key: Op -> string)
    requires k < |outBlocks| && IndexesLabels(inBlocks, byLabel, |inBlocks|) && Consistent(s, inBlocks, outBlocks, k, key)
    requires outBlocks[k].name.None? || outBlocks[k].name.value !in byLabel
    requires r == s.(outLeft := s.outLeft + outBlocks[k].ops)
    ensures Consistent(r, inBlocks, outBlocks, k + 1, key)
    ensures InputsAccounted(s, inBlocks, outBlocks, k) ==> InputsAccounted(r, inBlocks, outBlocks, k + 1)
    ensures LabelsDone(s, inBlocks, outBlocks, k, key) ==> LabelsDone(r, inBlocks, outBlocks, k + 1, key)
  {
    assert AllOps(outBlocks, k + 1) == AllOps(outBlocks, k) + outBlocks[k].ops;
    SubsequenceOfItself(outBlocks[k].ops);
    SubsequencesAppend(s.outLeft, AllOps(outBlocks, k), outBlocks[k].ops, outBlocks[k].ops);
    SeenSoFar(inBlocks, outBlocks, k);
    if LabelsDone(s, inBlocks, outBlocks, k, key) {
      MissedLabels(s, inBlocks, outBlocks, k, byLabel, key);
    }
  }

  lemma MissedLabels(s: Phase, inBlocks: seq<Block>, outBlocks: seq<Block>, k: nat, byLabel: map<string, nat>, key: Op -> string)
    requires k < |outBlocks| && IndexesLabels(inBlocks, byLabel, |inBlocks|)
    requires outBlocks[k].name.None? || outBlocks[k].name.value !in byLabel
    requires LabelsDone(s, inBlocks, outBlocks, k, key)
    ensures LabelsDone(s, inBlocks, outBlocks, k + 1, key)
  {
    assert forall i: nat | LastOfLabel(inBlocks, i) :: inBlocks[i].name != outBlocks[k].name;
    assert s.pairs + [] == s.pairs;
    GapsOnlyStay(s.pairs, [], s.gaps, inBlocks, outBlocks, k, k + 1, key);
  }

  lemma SeenSoFar(inBlocks: seq<Block>, outBlocks: seq<Block>, k: nat)
    requires k < |outBlocks|
    ensures forall i | 0 <= i < |inBlocks| && LabelSeen(inBlocks[i], outBlocks, k) :: LabelSeen(inBlocks[i], outBlocks, k + 1)
  {
  }

  lemma StepOutputs(s: Phase, r: Phase, ops: seq<Op>, m: BlockMatch, key: Op -> string)
    requires |m.outMatched| == |ops| && Outs(m.pairs) == Pick(ops, m.outMatched, true)
    requires r.pairs == s.pairs + m.pairs && r.outLeft == s.outLeft + Pick(ops, m.outMatched, false)
    ensures multiset(Outs(r.pairs)) + multiset(r.outLeft)
         == multiset(Outs(s.pairs)) + multiset(s.outLeft) + multiset(ops)
  {
    PairsConcat(s.pairs, m.pairs);
    PickSplits(ops, m.outMatched);
  }

  lemma StepInputs(s: Phase, r: Phase, inBlocks: seq<Block>, outBlocks: seq<Block>, k: nat, bi: nat, m: BlockMatch, key: Op -> string)
    requires k < |outBlocks| && DistinctLabels(outBlocks) && Shaped(inBlocks, s.used)
    requires bi < |inBlocks| && inBlocks[bi].name == outBlocks[k].name && outBlocks[k].name.Some?
    requires |m.used| == |inBlocks[bi].ops| && Ins(m.pairs) == Pick(inBlocks[bi].ops, m.used, true)
    requires InputsAccounted(s, inBlocks, outBlocks, k)
    requires r.pairs == s.pairs + m.pairs && r.used == s.used[bi := OrFlags(s.used[bi], m.used)]
    ensures Shaped(inBlocks, r.used) && InputsAccounted(r, inBlocks, outBlocks, k + 1)
  {
    assert RowClear(s.used, bi);
    OrWithClear(s.used[bi], m.used);
    FillRow(inBlocks, s.used, |inBlocks|, bi, m.used);
    PairsConcat(s.pairs, m.pairs);
    SeenSoFar(inBlocks, outBlocks, k);
    assert LabelSeen(inBlocks[bi], outBlocks, k + 1);
    forall i: nat | i < |inBlocks|
      ensures RowClear(r.used, i) || LabelSeen(inBlocks[i], outBlocks, k + 1)
    {
      if i != bi && RowClear(s.used, i) {
        assert r.used[i] == s.used[i];
      }
    }
  }

  // ---- phase two: leftovers across the function ----

  ghost predicate Distinct(ops: seq<Op>) {
    forall i, j | 0 <= i < j < |ops| :: ops[i] != ops[j]
  }

  /** The ops not taken, in order. */
  function Untaken(ops: seq<Op>, taken: set<Op>): seq<Op> {
    if ops == [] then [] else (if ops[0] in taken then [] else [ops[0]]) + Untaken(ops[1..], taken)
  }

  /** The ops of key `k` not taken, in order. */
  function WithKey(ops: seq<Op>, key: Op -> string, k: string, taken: set<Op>): seq<Op> {
    if ops == [] then []
    else (if key(ops[0]) == k && ops[0] !in taken then [ops[0]] else []) + WithKey(ops[1..], key, k, taken)
  }

  lemma {:induction false} WithKeyMembers(ops: seq<Op>, key: Op -> string, k: string, taken: set<Op>)
    ensures forall x :: x in WithKey(ops, key, k, taken) <==> x in ops && key(x) == k && x !in taken
    ensures forall x :: x in Untaken(ops, taken) <==> x in ops && x !in taken
  {
    if ops != [] {
      WithKeyMembers(ops[1..], key, k, taken);
      assert ops == [ops[0]] + ops[1..];
    }
  }

  lemma {:induction false} TakenElsewhere(ops: seq<Op>, key: Op -> string, k: string, taken: set<Op>, x: Op)
    requires x !in ops
    ensures WithKey(ops, key, k, taken + {x}) == WithKey(ops, key, k, taken)
    ensures Untaken(ops, taken + {x}) == Untaken(ops, taken)
  {
    if ops != [] {
      TakenElsewhere(ops[1..], key, k, taken, x);
    }
  }

  lemma {:induction false} OtherKeys(ops: seq<Op>, key: Op -> string, k: string, taken: set<Op>, x: Op)
    requires key(x) != k
    ensures WithKey(ops, key, k, taken + {x}) == WithKey(ops, key, k, taken)
  {
    if ops != [] {
      OtherKeys(ops[1..], key, k, taken, x);
    }
  }

  /** Taking the first op of a key drops it from that key's queue. */
  lemma {:induction false} PopFront(ops: seq<Op>, key: Op -> string, k: string, taken: set<Op>)
    requires Distinct(ops) && WithKey(ops, key, k, taken) != []
    ensures var queue, x := WithKey(ops, key, k, taken), WithKey(ops, key, k, taken)[0];
      x in ops && x !in taken && WithKey(ops, key, k, taken + {x}) == queue[1..]
  {
    var x := WithKey(ops, key, k, taken)[0];
    if key(ops[0]) == k && ops[0] !in taken {
      assert x == ops[0] && x !in ops[1..];
      TakenElsewhere(ops[1..], key, k, taken, x);
    } else {
      PopFront(ops[1..], key, k, taken);
      assert x == WithKey(ops[1..], key, k, taken)[0] && x in ops[1..];
      assert x != ops[0];
    }
  }

  lemma {:induction false} TakeOne(ops: seq<Op>, key: Op -> string, k: string, taken: set<Op>, x: Op)
    requires Distinct(ops) && x in ops && x !in taken
    ensures multiset(Untaken(ops, taken)) == multiset(Untaken(ops, taken + {x})) + multiset{x}
  {
    if x == ops[0] {
      TakenElsewhere(ops[1..], key, k, taken, x);
    } else {
      TakeOne(ops[1..], key, k, taken, x);
    }
  }

  function Queue(queues: map<string, seq<Op>>, k: string): seq<Op> {
    if k in queues then queues[k] else []
  }

  lemma {:induction false} WithKeySnoc(ops: seq<Op>, op: Op, key: Op -> string, k: string)
    ensures WithKey(ops + [op], key, k, {}) == WithKey(ops, key, k, {}) + if key(op) == k then [op] else []
  {
    if ops == [] {
      assert ops + [op] == [op] && [op][1..] == [];
    } else {
      var more, tail := ops + [op], ops[1..];
      assert more[0] == ops[0] && more[1..] == tail + [op];
      WithKeySnoc(tail, op, key, k);
      var last := if key(op) == k then [op] else [];
      assert [ops[0]] + (WithKey(tail, key, k, {}) + last) == ([ops[0]] + WithKey(tail, key, k, {})) + last;
    }
  }

  method BuildQueues(ops: seq<Op>, key: Op -> string) returns (queues: map<string, seq<Op>>)
    ensures forall k :: Queue(queues, k) == WithKey(ops, key, k, {})
  {
    queues := map[];
    for i := 0 to |ops|
      invariant forall k :: Queue(queues, k) == WithKey(ops[..i], key, k, {})
    {
      var k := key(ops[i]);
      assert ops[..i + 1] == ops[..i] + [ops[i]];
      forall j
        ensures WithKey(ops[..i + 1], key, j, {}) == WithKey(ops[..i], key, j, {}) + if k == j then [ops[i]] else []
      {
        WithKeySnoc(ops[..i], ops[i], key, j);
      }
      ghost var before := queues;
      queues := queues[k := Queue(queues, k) + [ops[i]]];
      forall j
        ensures Queue(queues, j) == WithKey(ops[..i + 1], key, j, {})
      {
        assert Queue(before, j) == WithKey(ops[..i], key, j, {});
      }
    }
    assert ops[..|ops|] == ops;
  }

  datatype Leftover = Leftover(more: seq<(Op, Op)>, created: seq<Op>, queues: map<string, seq<Op>>, taken: set<Op>)

  /** After the first `n` leftover output ops: each was paired with the first input op of its key
      that was not taken yet, or created because that key had run out. */
  ghost predicate LeftoverState(s: Leftover, inLeft: seq<Op>, outLeft: seq<Op>, n: nat, key: Op -> string) {
    && n <= |outLeft|
    && QueuesRight(s.queues, inLeft, s.taken, key)
    && OutsAccounted(s, outLeft[..n])
    && InsTaken(s, inLeft)
    && (forall p | p in s.more :: key(p.0) == key(p.1))
    && RanOut(s.created, inLeft, s.taken, key)
    && InOrder(s, inLeft, outLeft[..n], key)
  }

  /** Pairs whose output op has key `k`, in order. */
  function PairsOf(pairs: seq<(Op, Op)>, key: Op -> string, k: string): seq<(Op, Op)> {
    if pairs == [] then []
    else
      var n := |pairs| - 1;
      PairsOf(pairs[..n], key, k) + if key(pairs[n].1) == k then [pairs[n]] else []
  }

  function SideBySide(ins: seq<Op>, outs: seq<Op>, n: nat): seq<(Op, Op)>
    requires n <= |ins| && n <= |outs|
  {
    seq(n, i requires 0 <= i < n => (ins[i], outs[i]))
  }

  function Smaller(x: nat, y: nat): nat {
    if x < y then x else y
  }

  /** The output ops of one key got the input ops of that key one by one, from the first on; the
      input ops that remain are queued, the output ops that remain were created. */
  ghost predicate KeyInOrder(s: Leftover, ins: seq<Op>, outs: seq<Op>, key: Op -> string, k: string) {
    var n := Smaller(|ins|, |outs|);
    && PairsOf(s.more, key, k) == SideBySide(ins, outs, n)
    && Queue(s.queues, k) == ins[n..] && WithKey(s.created, key, k, {}) == outs[n..]
  }

  ghost predicate InOrder(s: Leftover, inLeft: seq<Op>, outs: seq<Op>, key: Op -> string) {
    forall k :: KeyInOrder(s, WithKey(inLeft, key, k, {}), WithKey(outs, key, k, {}), key, k)
  }

  lemma PairsOfSnoc(pairs: seq<(Op, Op)>, p: (Op, Op), key: Op -> string, k: string)
    ensures PairsOf(pairs + [p], key, k) == PairsOf(pairs, key, k) + if key(p.1) == k then [p] else []
  {
    assert (pairs + [p])[..|pairs|] == pairs;
  }

  /** The next output op of the key takes the head of the queue. */
  lemma NextTaken(s: Leftover, r: Leftover, ins: seq<Op>, outs: seq<Op>, op: Op, key: Op -> string, k: string)
    requires KeyInOrder(s, ins, outs, key, k) && key(op) == k && Queue(s.queues, k) != []
    requires r.more == s.more + [(Queue(s.queues, k)[0], op)] && r.created == s.created && Queue(r.queues, k) == Queue(s.queues, k)[1..]
    ensures KeyInOrder(r, ins, outs + [op], key, k)
  {
    PairsOfSnoc(s.more, (Queue(s.queues, k)[0], op), key, k);
    assert SideBySide(ins, outs + [op], |outs| + 1) == SideBySide(ins, outs, |outs|) + [(ins[|outs|], op)];
  }

  /** With the queue empty it is created. */
  lemma NextCreated(s: Leftover, r: Leftover, ins: seq<Op>, outs: seq<Op>, op: Op, key: Op -> string, k: string)
    requires KeyInOrder(s, ins, outs, key, k) && key(op) == k && Queue(s.queues, k) == []
    requires r == s.(created := s.created + [op])
    ensures KeyInOrder(r, ins, outs + [op], key, k)
  {
    WithKeySnoc(s.created, op, key, k);
    assert SideBySide(ins, outs + [op], |ins|) == SideBySide(ins, outs, |ins|);
    assert (outs + [op])[|ins|..] == outs[|ins|..] + [op];
  }

  /** Ops of other keys change nothing. */
  lemma OtherKeyStays(s: Leftover, r: Leftover, ins: seq<Op>, outs: seq<Op>, op: Op, x: Op, key: Op -> string, k: string)
    requires KeyInOrder(s, ins, outs, key, k) && key(op) != k && Queue(r.queues, k) == Queue(s.queues, k)
    requires (r.more == s.more + [(x, op)] && r.created == s.created) || (r.more == s.more && r.created == s.created + [op])
    ensures KeyInOrder(r, ins, outs, key, k)
  {
    PairsOfSnoc(s.more, (x, op), key, k);
    WithKeySnoc(s.created, op, key, k);
  }

  /** What one output op does: it takes the head of its key's queue, or is created. */
  ghost predicate TookTurn(s: Leftover, r: Leftover, op: Op, key: Op -> string) {
    var queue := Queue(s.queues, key(op));
    if queue != [] then r.more == s.more + [(queue[0], op)] && r.created == s.created && r.queues == s.queues[key(op) := queue[1..]]
    else r == s.(created := s.created + [op])
  }

  lemma KeyStep(s: Leftover, r: Leftover, ins: seq<Op>, outs: seq<Op>, op: Op, key: Op -> string, k: string)
    requires KeyInOrder(s, ins, outs, key, k) && TookTurn(s, r, op, key)
    ensures KeyInOrder(r, ins, outs + if key(op) == k then [op] else [], key, k)
  {
    var queue := Queue(s.queues, key(op));
    if key(op) != k {
      assert outs + [] == outs;
      OtherKeyStays(s, r, ins, outs, op, if queue != [] then queue[0] else op, key, k);
    } else if queue != [] {
      NextTaken(s, r, ins, outs, op, key, k);
    } else {
      NextCreated(s, r, ins, outs, op, key, k);
    }
  }

  lemma StepInOrder(s: Leftover, r: Leftover, inLeft: seq<Op>, outs: seq<Op>, op: Op, key: Op -> string)
    requires InOrder(s, inLeft, outs, key) && TookTurn(s, r, op, key)
    ensures InOrder(r, inLeft, outs + [op], key)
  {
    forall k
      ensures KeyInOrder(r, WithKey(inLeft, key, k, {}), WithKey(outs + [op], key, k, {}), key, k)
    {
      WithKeySnoc(outs, op, key, k);
      KeyStep(s, r, WithKey(inLeft, key, k, {}), WithKey(outs, key, k, {}), op, key, k);
    }
  }

  ghost predicate QueuesRight(queues: map<string, seq<Op>>, inLeft: seq<Op>, taken: set<Op>, key: Op -> string) {
    forall k :: Queue(queues, k) == WithKey(inLeft, key, k, taken)
  }

  ghost predicate OutsAccounted(s: Leftover, outs: seq<Op>) {
    multiset(Outs(s.more)) + multiset(s.created) == multiset(outs)
  }

  ghost predicate InsTaken(s: Leftover, inLeft: seq<Op>) {
    multiset(Ins(s.more)) + multiset(Untaken(inLeft, s.taken)) == multiset(inLeft)
  }

  /** No untaken input op has the key of a created op. */
  ghost predicate RanOut(created: seq<Op>, inLeft: seq<Op>, taken: set<Op>, key: Op -> string) {
    forall c, d | c in created && d in inLeft && d !in taken :: key(c) != key(d)
  }

  lemma PopQueues(queues: map<string, seq<Op>>, inLeft: seq<Op>, taken: set<Op>, key: Op -> string, k: string)
    requires Distinct(inLeft) && QueuesRight(queues, inLeft, taken, key) && Queue(queues, k) != []
    ensures var queue := Queue(queues, k);
      QueuesRight(queues[k := queue[1..]], inLeft, taken + {queue[0]}, key)
  {
    var queue := Queue(queues, k);
    var x := queue[0];
    PopFront(inLeft, key, k, taken);
    WithKeyMembers(inLeft, key, k, taken);
    assert x in WithKey(inLeft, key, k, taken);
    forall j
      ensures Queue(queues[k := queue[1..]], j) == WithKey(inLeft, key, j, taken + {x})
    {
      if j != k {
        OtherKeys(inLeft, key, j, taken, x);
      }
    }
  }

  lemma PopAccounts(s: Leftover, inLeft: seq<Op>, outs: seq<Op>, op: Op, key: Op -> string, r: Leftover)
    requires Distinct(inLeft) && QueuesRight(s.queues, inLeft, s.taken, key) && Queue(s.queues, key(op)) != []
    requires OutsAccounted(s, outs) && InsTaken(s, inLeft)
    requires var x := Queue(s.queues, key(op))[0];
      r.more == s.more + [(x, op)] && r.created == s.created && r.taken == s.taken + {x}
    ensures OutsAccounted(r, outs + [op]) && InsTaken(r, inLeft)
    ensures key(Queue(s.queues, key(op))[0]) == key(op)
  {
    var x := Queue(s.queues, key(op))[0];
    assert key(x) == key(op) by {
      WithKeyMembers(inLeft, key, key(op), s.taken);
      assert x in WithKey(inLeft, key, key(op), s.taken);
    }
    PairsConcat(s.more, [(x, op)]);
    PopOuts(s, outs, x, op, r);
    assert Ins(r.more) == Ins(s.more) + [x];
    PopFront(inLeft, key, key(op), s.taken);
    TakeOne(inLeft, key, key(op), s.taken, x);
  }

  lemma PopOuts(s: Leftover, outs: seq<Op>, x: Op, op: Op, r: Leftover)
    requires OutsAccounted(s, outs) && Outs(r.more) == Outs(s.more) + [op] && r.created == s.created
    ensures OutsAccounted(r, outs + [op])
  {
  }

  lemma CreateAccounts(s: Leftover, inLeft: seq<Op>, outs: seq<Op>, op: Op, key: Op -> string)
    requires QueuesRight(s.queues, inLeft, s.taken, key) && Queue(s.queues, key(op)) == []
    requires OutsAccounted(s, outs) && RanOut(s.created, inLeft, s.taken, key)
    ensures OutsAccounted(s.(created := s.created + [op]), outs + [op])
    ensures RanOut(s.created + [op], inLeft, s.taken, key)
  {
    WithKeyMembers(inLeft, key, key(op), s.taken);
    assert WithKey(inLeft, key, key(op), s.taken) == [];
  }

  method MatchLeftovers(inLeft: seq<Op>, outLeft: seq<Op>, key: Op -> string) returns (s: Leftover)
    requires Distinct(inLeft)
    ensures LeftoverState(s, inLeft, outLeft, |outLeft|, key)
  {
    var queues := BuildQueues(inLeft, key);
    s := Leftover([], [], queues, {});
    UntakenAll(inLeft);
    for n := 0 to |outLeft|
      invariant LeftoverState(s, inLeft, outLeft, n, key)
    {
      s := MatchOne(s, inLeft, outLeft, n, key);
    }
  }

  method MatchOne(s: Leftover, ghost inLeft: seq<Op>, outLeft: seq<Op>, n: nat, key: Op -> string) returns (r: Leftover)
    requires n < |outLeft| && Distinct(inLeft) && LeftoverState(s, inLeft, outLeft, n, key)
    ensures LeftoverState(r, inLeft, outLeft, n + 1, key)
  {
    var op := outLeft[n];
    var queue := Queue(s.queues, key(op));
    assert outLeft[..n + 1] == outLeft[..n] + [op];
    if queue != [] {
      r := Leftover(s.more + [(queue[0], op)], s.created, s.queues[key(op) := queue[1..]], s.taken + {queue[0]});
      PopQueues(s.queues, inLeft, s.taken, key, key(op));
      PopAccounts(s, inLeft, outLeft[..n], op, key, r);
    } else {
      r := s.(created := s.created + [op]);
      CreateAccounts(s, inLeft, outLeft[..n], op, key);
    }
    StepInOrder(s, r, inLeft, outLeft[..n], op, key);
  }

  lemma {:induction false} UntakenAll(ops: seq<Op>)
    ensures Untaken(ops, {}) == ops
  {
    if ops != [] {
      UntakenAll(ops[1..]);
    }
  }

  // ---- the whole alignment ----

  lemma {:induction false} DistinctOnce(ops: seq<Op>)
    ensures Distinct(ops) <==> forall x :: multiset(ops)[x] <= 1
  {
    if ops != [] {
      var head, tail := ops[0], ops[1..];
      DistinctOnce(tail);
      assert ops == [head] + tail;
      DistinctTail(ops);
      assert multiset(ops)[head] == 1 + multiset(tail)[head];
      assert forall x :: multiset(tail)[x] <= multiset(ops)[x];
    }
  }

  lemma DistinctTail(ops: seq<Op>)
    requires ops != []
    ensures Distinct(ops) <==> Distinct(ops[1..]) && ops[0] !in ops[1..]
  {
    var tail := ops[1..];
    assert forall i | 0 < i < |ops| :: ops[i] == tail[i - 1];
    assert forall i | 0 <= i < |tail| :: tail[i] == ops[i + 1];
  }

  lemma LeftAreDistinct(blocks: seq<Block>, used: Used)
    requires Shaped(blocks, used) && Distinct(AllOps(blocks, |blocks|))
    ensures Distinct(FlaggedOps(blocks, used, |blocks|, false))
  {
    var left, all := FlaggedOps(blocks, used, |blocks|, false), AllOps(blocks, |blocks|);
    FlaggedSplit(blocks, used, |blocks|);
    DistinctOnce(all);
    forall x
      ensures multiset(left)[x] <= 1
    {
      assert multiset(left)[x] <= multiset(all)[x];
    }
    DistinctOnce(left);
  }

  /** The ops that are in `keep`, in order. */
  function Kept(ops: seq<Op>, keep: set<Op>): seq<Op> {
    if ops == [] then []
    else
      var n := |ops| - 1;
      Kept(ops[..n], keep) + if ops[n] in keep then [ops[n]] else []
  }

  /** Exactly the places of `ops` that hold something in `keep`. */
  ghost predicate HeldAt(ps: seq<nat>, ops: seq<Op>, keep: set<Op>) {
    forall p: nat | p < |ops| :: ops[p] in keep <==> p in ps
  }

  /** `part` is what `ops` has in `keep`: all of it, as often and in the same order. */
  ghost predicate Restricts(part: seq<Op>, ops: seq<Op>, keep: set<Op>) {
    exists ps :: TakenAt(part, ops, ps) && HeldAt(ps, ops, keep)
  }

  /** Filtering is that restriction. */
  lemma {:induction false} KeptRestricts(ops: seq<Op>, keep: set<Op>)
    ensures Restricts(Kept(ops, keep), ops, keep)
  {
    if ops == [] {
      assert TakenAt([], ops, []) && HeldAt([], ops, keep);
    } else {
      var n := |ops| - 1;
      KeptRestricts(ops[..n], keep);
      var ps :| TakenAt(Kept(ops[..n], keep), ops[..n], ps) && HeldAt(ps, ops[..n], keep);
      KeptOneMore(Kept(ops[..n], keep), ops, n, ps, keep);
    }
  }

  lemma KeptOneMore(part: seq<Op>, ops: seq<Op>, n: nat, ps: seq<nat>, keep: set<Op>)
    requires n + 1 == |ops| && TakenAt(part, ops[..n], ps) && HeldAt(ps, ops[..n], keep)
    ensures Restricts(part + if ops[n] in keep then [ops[n]] else [], ops, keep)
  {
    assert forall p: nat | p < n :: ops[..n][p] == ops[p];
    var more := ps + if ops[n] in keep then [n] else [];
    assert TakenAt(part + if ops[n] in keep then [ops[n]] else [], ops, more);
    forall p: nat | p < |ops|
      ensures ops[p] in keep <==> p in more
    {
      assert p == n ==> p !in ps;
    }
  }

  ghost predicate Meets(ops: seq<Op>, keep: set<Op>) {
    exists x :: x in ops && x in keep
  }

  lemma RestrictionIsEmpty(part: seq<Op>, ops: seq<Op>, keep: set<Op>)
    requires Restricts(part, ops, keep)
    ensures part == [] <==> !Meets(ops, keep)
  {
    var ps :| TakenAt(part, ops, ps) && HeldAt(ps, ops, keep);
    if Meets(ops, keep) {
      var x :| x in ops && x in keep;
      var p: nat :| p < |ops| && ops[p] == x;
      assert p in ps;
    }
    if part != [] {
      assert ops[ps[0]] in ops && ops[ps[0]] in keep;
    }
  }

  ghost predicate ReplacesGap(r: Replacement, g: Replacement, deleted: set<Op>, created: set<Op>) {
    Restricts(r.0, g.0, deleted) && Restricts(r.1, g.1, created)
  }

  ghost predicate LostAndGained(g: Replacement, deleted: set<Op>, created: set<Op>) {
    Meets(g.0, deleted) && Meets(g.1, created)
  }

  /** One replacement for each gap that lost and gained something, in order: what it lost, and what
      it gained. */
  ghost predicate RightReplacements(replaced: seq<Replacement>, gaps: seq<Replacement>, deleted: set<Op>, created: set<Op>) {
    exists qs :: ReplacedAt(replaced, gaps, qs, deleted, created)
  }

  ghost predicate ReplacedAt(replaced: seq<Replacement>, gaps: seq<Replacement>, qs: seq<nat>, deleted: set<Op>, created: set<Op>) {
    && Rising(qs, |gaps|) && |replaced| == |qs|
    && (forall i | 0 <= i < |qs| :: ReplacesGap(replaced[i], gaps[qs[i]], deleted, created))
    && (forall q: nat | q < |gaps| :: LostAndGained(gaps[q], deleted, created) <==> q in qs)
  }

  lemma NextGap(replaced: seq<Replacement>, gaps: seq<Replacement>, qs: seq<nat>, i: nat, r: Replacement, deleted: set<Op>,
                created: set<Op>)
    requires i < |gaps| && ReplacedAt(replaced, gaps[..i], qs, deleted, created) && ReplacesGap(r, gaps[i], deleted, created)
    ensures r.0 != [] && r.1 != [] ==> ReplacedAt(replaced + [r], gaps[..i + 1], qs + [i], deleted, created)
    ensures r.0 == [] || r.1 == [] ==> ReplacedAt(replaced, gaps[..i + 1], qs, deleted, created)
  {
    RestrictionIsEmpty(r.0, gaps[i].0, deleted);
    RestrictionIsEmpty(r.1, gaps[i].1, created);
    assert forall q: nat | q < i :: gaps[..i + 1][q] == gaps[..i][q];
  }

  function Members(ops: seq<Op>): set<Op> {
    set x | x in ops
  }

  method Replacements(gaps: seq<Replacement>, deleted: set<Op>, created: set<Op>) returns (replaced: seq<Replacement>)
    ensures RightReplacements(replaced, gaps, deleted, created)
  {
    ghost var qs: seq<nat> := [];
    replaced := [];
    for i := 0 to |gaps|
      invariant ReplacedAt(replaced, gaps[..i], qs, deleted, created)
    {
      var (ins, outs) := gaps[i];
      var r := (Kept(ins, deleted), Kept(outs, created));
      KeptRestricts(ins, deleted);
      KeptRestricts(outs, created);
      NextGap(replaced, gaps, qs, i, r, deleted, created);
      if r.0 != [] && r.1 != [] {
        replaced := replaced + [r];
        qs := qs + [i];
      }
    }
    assert gaps[..|gaps|] == gaps;
    assert ReplacedAt(replaced, gaps, qs, deleted, created);
  }

  method MatchLabelled(inBlocks: seq<Block>, outBlocks: seq<Block>, key: Op -> string) returns (s: Phase)
    ensures Consistent(s, inBlocks, outBlocks, |outBlocks|, key)
    ensures DistinctLabels(outBlocks) ==> InputsAccounted(s, inBlocks, outBlocks, |outBlocks|)
    ensures LabelsDone(s, inBlocks, outBlocks, |outBlocks|, key)
  {
    var byLabel := IndexLabels(inBlocks);
    var used: Used := [];
    for i := 0 to |inBlocks|
      invariant |used| == i && forall k | 0 <= k < i :: used[k] == NoFlags(|inBlocks[k].ops|)
    {
      used := used + [NoFlags(|inBlocks[i].ops|)];
    }
    s := Phase([], used, [], []);
    NothingUsed(inBlocks, used, |inBlocks|);
    SubsequenceOfItself([]);
    for k := 0 to |outBlocks|
      invariant Consistent(s, inBlocks, outBlocks, k, key)
      invariant DistinctLabels(outBlocks) ==> InputsAccounted(s, inBlocks, outBlocks, k)
      invariant LabelsDone(s, inBlocks, outBlocks, k, key)
    {
      s := MatchBlock(s, inBlocks, outBlocks, k, byLabel, key);
    }
  }

  lemma {:induction false} NothingUsed(blocks: seq<Block>, used: Used, n: nat)
    requires Shaped(blocks, used) && n <= |blocks| && forall i: nat | i < |used| :: RowClear(used, i)
    ensures FlaggedOps(blocks, used, n, true) == []
  {
    if n > 0 {
      NothingUsed(blocks, used, n - 1);
      assert RowClear(used, n - 1);
      PickNone(blocks[n - 1].ops, used[n - 1]);
    }
  }

  /** Aligning a function with what a pass made of it. Blocks of one label are matched in place, by
      a longest common subsequence of keys where it is affordable. Pairs and created ops partition the output
      ops, of equal keys; with distinct output labels pairs and deleted ops partition the input
      ops (so no input op is paired twice); and no created op has the key of a deleted one. The
      replacements are what every single gap between matches lost and gained. */
  method Align(inBlocks: seq<Block>, outBlocks: seq<Block>, key: Op -> string)
    returns (a: Alignment, ghost s: Phase, ghost l: Leftover)
    requires Distinct(AllOps(inBlocks, |inBlocks|))
    ensures multiset(Outs(a.pairs)) + multiset(a.created) == multiset(AllOps(outBlocks, |outBlocks|))
    ensures DistinctLabels(outBlocks) ==>
              multiset(Ins(a.pairs)) + multiset(a.deleted) == multiset(AllOps(inBlocks, |inBlocks|)) && Distinct(Ins(a.pairs))
    ensures forall p | p in a.pairs :: key(p.0) == key(p.1)
    ensures LabelsMatched(a.pairs, s.gaps, inBlocks, outBlocks, |outBlocks|, key)
    ensures OnlyGaps(a.pairs, s.gaps, inBlocks, outBlocks, |outBlocks|, key)
    ensures forall c, d | c in a.created && d in a.deleted :: key(c) != key(d)
    ensures RightReplacements(a.replaced, s.gaps, Members(a.deleted), Members(a.created))
    ensures Consistent(s, inBlocks, outBlocks, |outBlocks|, key) && a.pairs == s.pairs + l.more && a.created == l.created
    ensures LeftoverState(l, FlaggedOps(inBlocks, s.used, |inBlocks|, false), s.outLeft, |s.outLeft|, key)
    ensures Subsequence(a.deleted, AllOps(inBlocks, |inBlocks|))
  {
    var labelled := MatchLabelled(inBlocks, outBlocks, key);
    var inLeft := FlaggedOps(inBlocks, labelled.used, |inBlocks|, false);
    LeftAreDistinct(inBlocks, labelled.used);
    var leftover := MatchLeftovers(inLeft, labelled.outLeft, key);
    s, l := labelled, leftover;
    var deleted := Untaken(inLeft, leftover.taken);
    var replaced := Replacements(labelled.gaps, Members(deleted), Members(leftover.created));
    a := Alignment(labelled.pairs + leftover.more, leftover.created, deleted, replaced);
    assert s.outLeft[..|s.outLeft|] == s.outLeft;
    PairsConcat(s.pairs, l.more);
    AlignedLabels(s, l.more, inBlocks, outBlocks, key);
    UntakenMembers(inLeft, l.taken);
    DeletedInOrder(inBlocks, s.used, l.taken);
    if DistinctLabels(outBlocks) {
      FlaggedSplit(inBlocks, s.used, |inBlocks|);
      PairedOnce(Ins(a.pairs), deleted, AllOps(inBlocks, |inBlocks|));
    }
  }

  lemma AlignedLabels(s: Phase, more: seq<(Op, Op)>, inBlocks: seq<Block>, outBlocks: seq<Block>, key: Op -> string)
    requires LabelsDone(s, inBlocks, outBlocks, |outBlocks|, key)
    ensures LabelsMatched(s.pairs + more, s.gaps, inBlocks, outBlocks, |outBlocks|, key)
    ensures OnlyGaps(s.pairs + more, s.gaps, inBlocks, outBlocks, |outBlocks|, key)
  {
    assert s.gaps + [] == s.gaps;
    LabelsStay(s.pairs, more, s.gaps, [], inBlocks, outBlocks, |outBlocks|, key);
    GapsOnlyStay(s.pairs, more, s.gaps, inBlocks, outBlocks, |outBlocks|, |outBlocks|, key);
  }

  lemma {:induction false} FlaggedInOrder(blocks: seq<Block>, used: Used, n: nat, want: bool)
    requires Shaped(blocks, used) && n <= |blocks|
    ensures Subsequence(FlaggedOps(blocks, used, n, want), AllOps(blocks, n))
  {
    if n == 0 {
      SubsequenceOfItself([]);
    } else {
      FlaggedInOrder(blocks, used, n - 1, want);
      PickIsSubsequence(blocks[n - 1].ops, used[n - 1], want);
      SubsequencesAppend(FlaggedOps(blocks, used, n - 1, want), AllOps(blocks, n - 1),
                         Pick(blocks[n - 1].ops, used[n - 1], want), blocks[n - 1].ops);
    }
  }

  lemma {:induction false} UntakenInOrder(ops: seq<Op>, taken: set<Op>)
    ensures Subsequence(Untaken(ops, taken), ops)
  {
    if ops == [] {
      SubsequenceOfItself([]);
    } else {
      UntakenInOrder(ops[1..], taken);
      SubsequenceOfItself([ops[0]]);
      SubsequencesAppend(if ops[0] in taken then [] else [ops[0]], [ops[0]], Untaken(ops[1..], taken), ops[1..]);
      assert ops == [ops[0]] + ops[1..];
    }
  }

  lemma DeletedInOrder(blocks: seq<Block>, used: Used, taken: set<Op>)
    requires Shaped(blocks, used)
    ensures Subsequence(Untaken(FlaggedOps(blocks, used, |blocks|, false), taken), AllOps(blocks, |blocks|))
  {
    var left := FlaggedOps(blocks, used, |blocks|, false);
    FlaggedInOrder(blocks, used, |blocks|, false);
    UntakenInOrder(left, taken);
    SubsequenceOfPart(Untaken(left, taken), left, AllOps(blocks, |blocks|));
  }

  lemma UntakenMembers(ops: seq<Op>, taken: set<Op>)
    ensures forall x | x in Untaken(ops, taken) :: x in ops && x !in taken
  {
    WithKeyMembers(ops, _ => "", "", taken);
  }

  lemma PairedOnce(ins: seq<Op>, rest: seq<Op>, all: seq<Op>)
    requires multiset(ins) + multiset(rest) == multiset(all) && Distinct(all)
    ensures Distinct(ins)
  {
    DistinctOnce(all);
    forall x
      ensures multiset(ins)[x] <= 1
    {
      assert multiset(ins)[x] <= multiset(all)[x];
    }
    DistinctOnce(ins);
  }
}
