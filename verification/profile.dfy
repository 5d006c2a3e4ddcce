/** The profile of ops: named measurements, of which costs add up and counts of runs do not. */
module Profiles {
  import opened Wrappers

  type Op = nat
  type Profile = map<string, real>

  /** The profile attribute of every op that has one. */
  type State = map<Op, Profile>

  const EXECUTIONS := "executions"
  const COUNT_SUFFIX := ".executions"

  predicate IsCount(metric: string) {
    metric == EXECUTIONS || (|metric| >= |COUNT_SUFFIX| && metric[|metric| - |COUNT_SUFFIX|..] == COUNT_SUFFIX)
  }

  /** The counts are the executions, of the op itself or of something that a prefix names. */
  lemma CountsAre(metric: string)
    ensures IsCount(metric) <==> metric == "executions" || exists prefix: string :: metric == prefix + ".executions"
  {
    if IsCount(metric) && metric != EXECUTIONS {
      assert metric == metric[..|metric| - |COUNT_SUFFIX|] + ".executions";
    }
  }

  function Max(x: real, y: real): real {
    if x < y then y else x
  }

  function Read(profile: Profile, metric: string): real {
    if metric in profile then profile[metric] else 0.0
  }

  function ProfileOf(s: State, op: Op): Profile {
    if op in s then s[op] else map[]
  }

  /** What `op` shows for `metric`: zero when it was never measured. */
  function Reading(s: State, op: Op, metric: string): real {
    Read(ProfileOf(s, op), metric)
  }

  // ---- adding one profile to one op ----

  function Combine(metric: string, here: real, value: real, share: real): real {
    if IsCount(metric) then Max(here, value) else here + value * share
  }

  function Merge(profile: Profile, from: Profile, share: real): Profile {
    map m | m in profile.Keys + from.Keys ::
      if m in from then Combine(m, Read(profile, m), from[m], share) else profile[m]
  }

  /** The state after `from` was added to `op`: an empty profile leaves no attribute behind. */
  function Added(s: State, op: Op, from: Profile, share: real): State {
    if from == map[] then s else s[op := Merge(ProfileOf(s, op), from, share)]
  }

  function Sum(profile: Profile, from: Profile): Profile {
    map m | m in profile.Keys + from.Keys :: Read(profile, m) + Read(from, m)
  }

  function Instanced(s: State, op: Op, from: Profile): State {
    if from == map[] then s
    else s[op := Sum(ProfileOf(s, op), from)]
  }

  /** The larger of what `op` shows for a count and what `from` measured, if it did. */
  function Counted(s: State, op: Op, from: Profile, metric: string): real {
    if metric in from then Max(Reading(s, op, metric), from[metric]) else Reading(s, op, metric)
  }

  /** What adding `from` does to every reading: costs grow by their share, counts to the larger
      (of a profile that measures them), and every other op keeps its profile. */
  lemma AddedReads(s: State, op: Op, from: Profile, share: real, other: Op, metric: string)
    ensures other != op ==> ProfileOf(Added(s, op, from, share), other) == ProfileOf(s, other)
    ensures !IsCount(metric) ==>
              Reading(Added(s, op, from, share), op, metric) == Reading(s, op, metric) + Read(from, metric) * share
    ensures IsCount(metric) ==> Reading(Added(s, op, from, share), op, metric) == Counted(s, op, from, metric)
  {
  }

  // ---- totals over ops ----

  /** The sum of `metric` over `ops`. */
  function Total(s: State, ops: seq<Op>, metric: string): real {
    if ops == [] then 0.0 else Reading(s, ops[0], metric) + Total(s, ops[1..], metric)
  }

  ghost predicate Distinct(ops: seq<Op>) {
    forall i, j | 0 <= i < j < |ops| :: ops[i] != ops[j]
  }

  lemma {:induction false} TotalUnchanged(s: State, t: State, ops: seq<Op>, metric: string)
    requires forall op | op in ops :: ProfileOf(s, op) == ProfileOf(t, op)
    ensures Total(s, ops, metric) == Total(t, ops, metric)
  {
    if ops != [] {
      assert ops[0] in ops;
      TotalUnchanged(s, t, ops[1..], metric);
    }
  }

  /** Adding to one op raises the total of each cost by what was added, no matter which op. */
  lemma {:induction false} AddedTotal(s: State, ops: seq<Op>, op: Op, from: Profile, share: real, metric: string)
    requires Distinct(ops) && op in ops && !IsCount(metric)
    ensures Total(Added(s, op, from, share), ops, metric) == Total(s, ops, metric) + Read(from, metric) * share
  {
    var t := Added(s, op, from, share);
    AddedReads(s, op, from, share, op, metric);
    if ops[0] == op {
      forall other | other in ops[1..]
        ensures ProfileOf(t, other) == ProfileOf(s, other)
      {
        AddedReads(s, op, from, share, other, metric);
      }
      TotalUnchanged(t, s, ops[1..], metric);
    } else {
      AddedReads(s, op, from, share, ops[0], metric);
      AddedTotal(s, ops[1..], op, from, share, metric);
    }
  }

  lemma {:induction false} TotalSplits(s: State, u: seq<Op>, v: seq<Op>, metric: string)
    ensures Total(s, u + v, metric) == Total(s, u, metric) + Total(s, v, metric)
  {
    if u == [] {
      assert u + v == v;
    } else {
      assert (u + v)[1..] == u[1..] + v;
      TotalSplits(s, u[1..], v, metric);
    }
  }

  /** The total does not depend on the order of the ops. */
  lemma {:induction false} TotalOfMultiset(s: State, u: seq<Op>, v: seq<Op>, metric: string)
    requires multiset(u) == multiset(v)
    ensures Total(s, u, metric) == Total(s, v, metric)
  {
    if u == [] {
      assert |v| == |multiset(v)| == 0;
    } else {
      assert u[0] in multiset(v);
      var i :| 0 <= i < |v| && v[i] == u[0];
      RemovedFromBoth(u, v, i);
      assert v == v[..i] + ([v[i]] + v[i + 1..]);
      TotalOfMultiset(s, u[1..], v[..i] + v[i + 1..], metric);
      TotalSplits(s, v[..i], v[i + 1..], metric);
      TotalSplits(s, v[..i], [v[i]] + v[i + 1..], metric);
    }
  }

  lemma RemovedFromBoth(u: seq<Op>, v: seq<Op>, i: nat)
    requires multiset(u) == multiset(v) && u != [] && i < |v| && v[i] == u[0]
    ensures multiset(u[1..]) == multiset(v[..i] + v[i + 1..])
  {
    assert u == [u[0]] + u[1..] && v == v[..i] + [v[i]] + v[i + 1..];
    assert multiset(u[1..]) == multiset(u) - multiset{u[0]};
    assert multiset(v[..i] + v[i + 1..]) == multiset(v) - multiset{v[i]};
  }

  // ---- spreading over targets ----

  function SpreadOver(s: State, targets: seq<Op>, from: Profile, share: real): State {
    if targets == [] then s
    else Added(SpreadOver(s, targets[..|targets| - 1], from, share), targets[|targets| - 1], from, share)
  }

  /** The state after spreading: with no targets nothing happens. */
  function Spread(s: State, targets: seq<Op>, from: Profile): State {
    if targets == [] then s else SpreadOver(s, targets, from, 1.0 / |targets| as real)
  }

  /** `n` times `x`. */
  function Times(n: nat, x: real): real {
    if n == 0 then 0.0 else Times(n - 1, x) + x
  }

  lemma {:induction false} TimesMultiplies(n: nat, x: real)
    ensures Times(n, x) == n as real * x
  {
    if n > 0 {
      TimesMultiplies(n - 1, x);
      var before := (n - 1) as real;
      assert n as real == before + 1.0 && (before + 1.0) * x == before * x + x;
    }
  }

  lemma {:induction false} SpreadOverTotal(s: State, ops: seq<Op>, targets: seq<Op>, from: Profile, share: real, metric: string, gain: real)
    requires Distinct(ops) && (forall t | t in targets :: t in ops) && !IsCount(metric)
    requires gain == Read(from, metric) * share
    ensures Total(SpreadOver(s, targets, from, share), ops, metric) == Total(s, ops, metric) + Times(|targets|, gain)
  {
    if targets != [] {
      var n := |targets| - 1;
      SpreadOverTotal(s, ops, targets[..n], from, share, metric, gain);
      AddedTotal(SpreadOver(s, targets[..n], from, share), ops, targets[n], from, share, metric);
    }
  }

  lemma SharesMakeTheWhole(n: nat, x: real, share: real, gain: real)
    requires n > 0 && share == 1.0 / n as real && gain == x * share
    ensures Times(n, gain) == x
  {
    var d := n as real;
    TimesMultiplies(n, gain);
    assert d * (x * share) == x * (d * share);
    assert d * share == 1.0;
  }

  /** Spreading conserves every cost: the targets together gain exactly what was spread, whatever
      the targets (repeated ones included). */
  lemma SpreadConserves(s: State, ops: seq<Op>, targets: seq<Op>, from: Profile, metric: string)
    requires Distinct(ops) && (forall t | t in targets :: t in ops) && targets != [] && !IsCount(metric)
    ensures Total(Spread(s, targets, from), ops, metric) == Total(s, ops, metric) + Read(from, metric)
  {
    var share := 1.0 / |targets| as real;
    var gain := Read(from, metric) * share;
    SpreadOverTotal(s, ops, targets, from, share, metric, gain);
    SharesMakeTheWhole(|targets|, Read(from, metric), share, gain);
  }

  /** Counts are copied, not split: a target ends with the larger of its own and the spread one;
      every other op is left alone. */
  lemma {:induction false} SpreadCounts(s: State, targets: seq<Op>, from: Profile, share: real, op: Op, metric: string)
    requires IsCount(metric)
    ensures op !in targets ==> ProfileOf(SpreadOver(s, targets, from, share), op) == ProfileOf(s, op)
    ensures op in targets ==> Reading(SpreadOver(s, targets, from, share), op, metric) == Counted(s, op, from, metric)
  {
    if targets != [] {
      var n := |targets| - 1;
      var before := SpreadOver(s, targets[..n], from, share);
      SpreadCounts(s, targets[..n], from, share, op, metric);
      AddedReads(before, targets[n], from, share, op, metric);
      assert op in targets <==> op in targets[..n] || op == targets[n];
    }
  }

  // ---- handing profiles over pair by pair ----

  /** The state after the first `n` pairs `(input, output)` handed their output's profile over. */
  function Transferred(s: State, pairs: seq<(Op, Op)>, n: nat): State
    requires n <= |pairs|
  {
    if n == 0 then s
    else
      var before := Transferred(s, pairs, n - 1);
      Added(before, pairs[n - 1].0, ProfileOf(before, pairs[n - 1].1), 1.0)
  }

  ghost predicate InputsIn(pairs: seq<(Op, Op)>, ins: seq<Op>) {
    forall p | p in pairs :: p.0 in ins && p.1 !in ins
  }

  function Outputs(pairs: seq<(Op, Op)>): seq<Op> {
    seq(|pairs|, p requires 0 <= p < |pairs| => pairs[p].1)
  }

  lemma {:induction false} OthersKeep(s: State, pairs: seq<(Op, Op)>, n: nat, ins: seq<Op>, op: Op)
    requires n <= |pairs| && InputsIn(pairs, ins) && op !in ins
    ensures ProfileOf(Transferred(s, pairs, n), op) == ProfileOf(s, op)
  {
    if n > 0 {
      OthersKeep(s, pairs, n - 1, ins, op);
      assert pairs[n - 1] in pairs;
    }
  }

  /** Transfer conserves every cost: the input ops gain exactly what their partners hold. */
  lemma {:induction false} TransferConserves(s: State, pairs: seq<(Op, Op)>, n: nat, ins: seq<Op>, metric: string)
    requires n <= |pairs| && Distinct(ins) && InputsIn(pairs, ins) && !IsCount(metric)
    ensures Total(Transferred(s, pairs, n), ins, metric) == Total(s, ins, metric) + Total(s, Outputs(pairs)[..n], metric)
  {
    if n > 0 {
      var (i, o) := pairs[n - 1];
      var before := Transferred(s, pairs, n - 1);
      assert pairs[n - 1] in pairs;
      TransferConserves(s, pairs, n - 1, ins, metric);
      OthersKeep(s, pairs, n - 1, ins, o);
      AddedTotal(before, ins, i, ProfileOf(before, o), 1.0, metric);
      assert Outputs(pairs)[..n] == Outputs(pairs)[..n - 1] + [o];
      TotalSplits(s, Outputs(pairs)[..n - 1], [o], metric);
    }
  }

  /** With an alignment's partition of the output ops: what the pass's input gains, and what stays
      with the ops the pass created, is all there was. */
  lemma AlignedTransferConserves(s: State, pairs: seq<(Op, Op)>, created: seq<Op>, outs: seq<Op>, ins: seq<Op>, metric: string)
    requires Distinct(ins) && InputsIn(pairs, ins) && !IsCount(metric)
    requires multiset(Outputs(pairs)) + multiset(created) == multiset(outs)
    ensures Total(Transferred(s, pairs, |pairs|), ins, metric) + Total(s, created, metric)
         == Total(s, ins, metric) + Total(s, outs, metric)
  {
    TransferConserves(s, pairs, |pairs|, ins, metric);
    assert Outputs(pairs)[..|pairs|] == Outputs(pairs);
    assert multiset(Outputs(pairs) + created) == multiset(outs);
    TotalOfMultiset(s, Outputs(pairs) + created, outs, metric);
    TotalSplits(s, Outputs(pairs), created, metric);
  }

  /** A count becomes the largest of the input op's own and its partners': it bounds them all and
      is one of them. */
  lemma {:induction false} TransferCounts(s: State, pairs: seq<(Op, Op)>, n: nat, ins: seq<Op>, op: Op, metric: string)
    requires n <= |pairs| && InputsIn(pairs, ins) && op in ins && IsCount(metric)
    ensures var count := Reading(Transferred(s, pairs, n), op, metric);
      && count >= Reading(s, op, metric)
      && (forall q: nat | q < n && pairs[q].0 == op && metric in ProfileOf(s, pairs[q].1) :: count >= Reading(s, pairs[q].1, metric))
      && (count == Reading(s, op, metric)
          || exists q: nat :: q < n && pairs[q].0 == op && metric in ProfileOf(s, pairs[q].1) && count == Reading(s, pairs[q].1, metric))
  {
    if n > 0 {
      var (i, o) := pairs[n - 1];
      assert pairs[n - 1] in pairs;
      TransferCounts(s, pairs, n - 1, ins, op, metric);
      OthersKeep(s, pairs, n - 1, ins, o);
      var before := Transferred(s, pairs, n - 1);
      AddedReads(before, i, ProfileOf(before, o), 1.0, op, metric);
    }
  }

  // ---- copying onto a function of the same shape ----

  function Zip(ins: seq<Op>, outs: seq<Op>): (pairs: seq<(Op, Op)>) {
    seq(if |ins| < |outs| then |ins| else |outs|, k requires 0 <= k < |ins| && k < |outs| => (ins[k], outs[k]))
  }

  /** Copying between functions of the same shape conserves every cost. */
  lemma CopyConserves(s: State, ins: seq<Op>, outs: seq<Op>, metric: string)
    requires |ins| == |outs| && Distinct(ins) && (forall o | o in outs :: o !in ins) && !IsCount(metric)
    ensures Total(Transferred(s, Zip(ins, outs), |ins|), ins, metric) == Total(s, ins, metric) + Total(s, outs, metric)
  {
    assert Outputs(Zip(ins, outs))[..|ins|] == outs;
    TransferConserves(s, Zip(ins, outs), |ins|, ins, metric);
  }

  // ---- evening out executions ----

  function Larger(x: Option<real>, y: Option<real>): Option<real> {
    if x.None? then y else if y.None? then x else Some(Max(x.value, y.value))
  }

  function Measured(s: State, op: Op): Option<real> {
    if op in s && EXECUTIONS in s[op] then Some(s[op][EXECUTIONS]) else None
  }

  /** The largest execution count of the first `n` ops, if any has one. */
  function Runs(s: State, ops: seq<Op>, n: nat): Option<real>
    requires n <= |ops|
  {
    if n == 0 then None else Larger(Runs(s, ops, n - 1), Measured(s, ops[n - 1]))
  }

  /** The first `n` ops all given `runs` executions. */
  function GivenRuns(s: State, ops: seq<Op>, runs: real, n: nat): State
    requires n <= |ops|
  {
    if n == 0 then s
    else
      var before := GivenRuns(s, ops, runs, n - 1);
      before[ops[n - 1] := ProfileOf(before, ops[n - 1])[EXECUTIONS := runs]]
  }

  function EvenBlock(s: State, ops: seq<Op>): State {
    var runs := Runs(s, ops, |ops|);
    if runs.None? then s else GivenRuns(s, ops, runs.value, |ops|)
  }

  /** The state after the first `n` blocks were evened out. */
  function EvenedOut(s: State, blocks: seq<seq<Op>>, n: nat): State
    requires n <= |blocks|
  {
    if n == 0 then s else EvenBlock(EvenedOut(s, blocks, n - 1), blocks[n - 1])
  }

  lemma {:induction false} GivenRunsReads(s: State, ops: seq<Op>, runs: real, n: nat, op: Op)
    requires n <= |ops|
    ensures op !in ops[..n] ==> (op in GivenRuns(s, ops, runs, n) <==> op in s)
                                && ProfileOf(GivenRuns(s, ops, runs, n), op) == ProfileOf(s, op)
    ensures op in ops[..n] ==> op in GivenRuns(s, ops, runs, n)
                               && ProfileOf(GivenRuns(s, ops, runs, n), op) == ProfileOf(s, op)[EXECUTIONS := runs]
  {
    if n > 0 {
      GivenRunsReads(s, ops, runs, n - 1, op);
      assert ops[..n] == ops[..n - 1] + [ops[n - 1]];
    }
  }

  /** `Runs` is the largest count measured in the block. */
  lemma {:induction false} RunsIsLargest(s: State, ops: seq<Op>, n: nat)
    requires n <= |ops|
    ensures Runs(s, ops, n).None? <==> forall i: nat | i < n :: Measured(s, ops[i]).None?
    ensures Runs(s, ops, n).Some? ==>
              && (exists i: nat :: i < n && Measured(s, ops[i]) == Runs(s, ops, n))
              && (forall i: nat | i < n && Measured(s, ops[i]).Some? :: Measured(s, ops[i]).value <= Runs(s, ops, n).value)
  {
    if n > 0 {
      RunsIsLargest(s, ops, n - 1);
    }
  }

  ghost predicate DisjointBlocks(blocks: seq<seq<Op>>) {
    forall i, j | 0 <= i < j < |blocks| :: forall x | x in blocks[i] :: x !in blocks[j]
  }

  lemma EvenBlockElsewhere(s: State, ops: seq<Op>, op: Op)
    requires op !in ops
    ensures (op in EvenBlock(s, ops) <==> op in s) && ProfileOf(EvenBlock(s, ops), op) == ProfileOf(s, op)
  {
    assert ops[..|ops|] == ops;
    var runs := Runs(s, ops, |ops|);
    if runs.Some? {
      GivenRunsReads(s, ops, runs.value, |ops|, op);
    }
  }

  /** Ops outside the first `n` blocks are left alone. */
  lemma {:induction false} EvenedElsewhere(s: State, blocks: seq<seq<Op>>, n: nat, op: Op)
    requires n <= |blocks| && forall b: nat | b < n :: op !in blocks[b]
    ensures (op in EvenedOut(s, blocks, n) <==> op in s) && ProfileOf(EvenedOut(s, blocks, n), op) == ProfileOf(s, op)
  {
    if n > 0 {
      EvenedElsewhere(s, blocks, n - 1, op);
      EvenBlockElsewhere(EvenedOut(s, blocks, n - 1), blocks[n - 1], op);
    }
  }

  lemma {:induction false} RunsDependOnOps(s: State, t: State, ops: seq<Op>, n: nat)
    requires n <= |ops| && forall i: nat | i < n :: Measured(s, ops[i]) == Measured(t, ops[i])
    ensures Runs(s, ops, n) == Runs(t, ops, n)
  {
    if n > 0 {
      RunsDependOnOps(s, t, ops, n - 1);
    }
  }

  /** Evening out: in each block with a measured op, every op ends with the largest count its block
      had before; in other blocks nothing changes. */
  lemma {:induction false} EvenedOutIsUniform(s: State, blocks: seq<seq<Op>>, n: nat, b: nat, i: nat)
    requires b < n <= |blocks| && i < |blocks[b]| && DisjointBlocks(blocks)
    ensures var block, op, t := blocks[b], blocks[b][i], EvenedOut(s, blocks, n);
      var runs := Runs(s, block, |block|);
      if runs.None? then ProfileOf(t, op) == ProfileOf(s, op) && (op in t <==> op in s)
      else op in t && t[op] == ProfileOf(s, op)[EXECUTIONS := runs.value]
  {
    var block, op := blocks[b], blocks[b][i];
    var before := EvenedOut(s, blocks, n - 1);
    if b == n - 1 {
      forall k: nat | k < |block|
        ensures Measured(before, block[k]) == Measured(s, block[k]) && ProfileOf(before, block[k]) == ProfileOf(s, block[k])
      {
        assert forall c: nat | c < b :: block[k] !in blocks[c];
        EvenedElsewhere(s, blocks, n - 1, block[k]);
      }
      assert forall c: nat | c < b :: op !in blocks[c];
      EvenedElsewhere(s, blocks, n - 1, op);
      RunsDependOnOps(before, s, block, |block|);
      var runs := Runs(s, block, |block|);
      if runs.Some? {
        assert block[..|block|] == block;
        GivenRunsReads(before, block, runs.value, |block|, op);
      }
    } else {
      EvenedOutIsUniform(s, blocks, n - 1, b, i);
      assert op in blocks[b] && op !in blocks[n - 1];
      EvenBlockElsewhere(before, blocks[n - 1], op);
    }
  }

  /** Evening out changes no measurement but the execution count. */
  lemma {:induction false} EvenedOutKeepsCosts(s: State, blocks: seq<seq<Op>>, n: nat, op: Op, metric: string)
    requires n <= |blocks| && metric != EXECUTIONS
    ensures Reading(EvenedOut(s, blocks, n), op, metric) == Reading(s, op, metric)
  {
    if n > 0 {
      var before := EvenedOut(s, blocks, n - 1);
      EvenedOutKeepsCosts(s, blocks, n - 1, op, metric);
      var block := blocks[n - 1];
      assert block[..|block|] == block;
      var runs := Runs(before, block, |block|);
      if runs.Some? {
        GivenRunsReads(before, block, runs.value, |block|, op);
      }
    }
  }

  lemma RunsAfter(s: State, blocks: seq<seq<Op>>, b: nat)
    requires b < |blocks| && DisjointBlocks(blocks)
    ensures var block, t := blocks[b], EvenedOut(s, blocks, |blocks|);
      Runs(t, block, |block|) == Runs(s, block, |block|)
  {
    var block, t := blocks[b], EvenedOut(s, blocks, |blocks|);
    RunsIsLargest(s, block, |block|);
    RunsIsLargest(t, block, |block|);
    forall i: nat | i < |block|
      ensures Runs(s, block, |block|).Some? ==> Measured(t, block[i]) == Runs(s, block, |block|)
      ensures Runs(s, block, |block|).None? ==> Measured(t, block[i]) == Measured(s, block[i])
    {
      EvenedOutIsUniform(s, blocks, |blocks|, b, i);
    }
  }

  /** Evening out twice is evening out once. */
  lemma EvenedOutIsIdempotent(s: State, blocks: seq<seq<Op>>)
    requires DisjointBlocks(blocks)
    ensures EvenedOut(EvenedOut(s, blocks, |blocks|), blocks, |blocks|) == EvenedOut(s, blocks, |blocks|)
  {
    var t := EvenedOut(s, blocks, |blocks|);
    var u := EvenedOut(t, blocks, |blocks|);
    forall op
      ensures (op in u <==> op in t) && ProfileOf(u, op) == ProfileOf(t, op)
    {
      if b, i: nat :| 0 <= b < |blocks| && i < |blocks[b]| && blocks[b][i] == op {
        RunsAfter(s, blocks, b);
        EvenedOutIsUniform(s, blocks, |blocks|, b, i);
        EvenedOutIsUniform(t, blocks, |blocks|, b, i);
      } else {
        EvenedElsewhere(t, blocks, |blocks|, op);
      }
    }
    assert forall op | op in t :: u[op] == ProfileOf(u, op) && t[op] == ProfileOf(t, op);
  }

  // ---- the operations, in place ----

  /** Part of the way from `start` to `goal`: the metrics of `left` are still to come. */
  ghost predicate Underway(start: Profile, goal: Profile, left: set<string>, profile: Profile) {
    && left <= goal.Keys
    && (forall m | m in profile :: m in goal && profile[m] == if m in left then Read(start, m) else goal[m])
    && (forall m | m in goal && m !in left :: m in profile)
    && (forall m | m in left :: m in profile <==> m in start)
  }

  lemma OneMetricMore(start: Profile, goal: Profile, left: set<string>, profile: Profile, m: string)
    requires Underway(start, goal, left, profile) && m in left
    ensures Read(profile, m) == Read(start, m)
    ensures Underway(start, goal, left - {m}, profile[m := goal[m]])
  {
  }

  /** Adds every metric of `from` to `start`, in whatever order they come. */
  method MergeInto(start: Profile, from: Profile, share: real) returns (profile: Profile)
    ensures profile == Merge(start, from, share)
  {
    ghost var goal := Merge(start, from, share);
    profile := start;
    var left := from.Keys;
    while left != {}
      invariant left <= from.Keys && Underway(start, goal, left, profile)
    {
      var m :| m in left;
      OneMetricMore(start, goal, left, profile, m);
      profile := profile[m := Combine(m, Read(profile, m), from[m], share)];
      left := left - {m};
    }
  }

  method SumInto(start: Profile, from: Profile) returns (profile: Profile)
    ensures profile == Sum(start, from)
  {
    ghost var goal := Sum(start, from);
    profile := start;
    var left := from.Keys;
    while left != {}
      invariant left <= from.Keys && Underway(start, goal, left, profile)
    {
      var m :| m in left;
      OneMetricMore(start, goal, left, profile, m);
      profile := profile[m := Read(profile, m) + from[m]];
      left := left - {m};
    }
  }

  /** The op attributes of a context. */
  class Context {
    var at: State

    method Add(op: Op, metric: string, value: real)
      modifies this
      ensures at == old(at)[op := Merge(ProfileOf(old(at), op), map[metric := value], 1.0)]
    {
      var profile := ProfileOf(at, op);
      var slot := Read(profile, metric);
      slot := if IsCount(metric) then Max(slot, value) else slot + value;
      profile := profile[metric := slot];
      assert profile == Merge(ProfileOf(at, op), map[metric := value], 1.0);
      at := at[op := profile];
    }

    method AddAll(op: Op, from: Profile, share: real)
      modifies this
      ensures at == Added(old(at), op, from, share)
    {
      if from == map[] {
        return;
      }
      var profile := MergeInto(ProfileOf(at, op), from, share);
      at := at[op := profile];
    }

    method AddInstance(op: Op, from: Profile)
      modifies this
      ensures at == Instanced(old(at), op, from)
      ensures forall m :: Reading(at, op, m) == Reading(old(at), op, m) + Read(from, m)
    {
      if from == map[] {
        return;
      }
      var profile := SumInto(ProfileOf(at, op), from);
      at := at[op := profile];
    }

    method SpreadProfile(targets: seq<Op>, from: Profile)
      modifies this
      ensures at == Spread(old(at), targets, from)
    {
      if targets == [] {
        return;
      }
      var share := 1.0 / |targets| as real;
      for t := 0 to |targets|
        invariant at == SpreadOver(old(at), targets[..t], from, share)
      {
        assert targets[..t + 1][..t] == targets[..t];
        AddAll(targets[t], from, share);
      }
      assert targets[..|targets|] == targets;
    }

    method Transfer(pairs: seq<(Op, Op)>)
      modifies this
      ensures at == Transferred(old(at), pairs, |pairs|)
    {
      for p := 0 to |pairs|
        invariant at == Transferred(old(at), pairs, p)
      {
        var (input, output) := pairs[p];
        if output in at {
          AddAll(input, at[output], 1.0);
        }
      }
    }

    method Copy(ins: seq<Op>, outs: seq<Op>)
      modifies this
      ensures at == Transferred(old(at), Zip(ins, outs), |Zip(ins, outs)|)
    {
      Transfer(Zip(ins, outs));
    }

    method EvenOutExecutions(blocks: seq<seq<Op>>)
      modifies this
      ensures at == EvenedOut(old(at), blocks, |blocks|)
    {
      for b := 0 to |blocks|
        invariant at == EvenedOut(old(at), blocks, b)
      {
        var ops := blocks[b];
        var runs: Option<real> := None;
        for i := 0 to |ops|
          invariant runs == Runs(at, ops, i)
        {
          runs := Larger(runs, Measured(at, ops[i]));
        }
        if runs.Some? {
          ghost var before := at;
          for i := 0 to |ops|
            invariant at == GivenRuns(before, ops, runs.value, i)
          {
            at := at[ops[i] := ProfileOf(at, ops[i])[EXECUTIONS := runs.value]];
          }
        }
      }
    }
  }
}
