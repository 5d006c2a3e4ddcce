/** What a walk leaves at every snapshot, and why each function stopped. */
module WalkSteps {
  import opened Wrappers
  import opened Profiles
  import opened Walks

  // ---- what one step hands over ----

  /** `op` shows in `t` what it did in `s` and what `from` measured on top: costs add up, counts
      become the larger. */
  ghost predicate Gains(s: State, t: State, op: Op, from: Profile) {
    forall m :: Gain(s, t, op, from, m)
  }

  ghost predicate Gain(s: State, t: State, op: Op, from: Profile, m: string) {
    Reading(t, op, m) == if IsCount(m) then Counted(s, op, from, m) else Reading(s, op, m) + Read(from, m)
  }

  /** A function that did not change: every op gains what its counterpart shows. */
  ghost predicate Copied(input: Func, output: Func, s: State, t: State) {
    Profiles.Distinct(input.Ops()) && |input.Ops()| == |output.Ops()| ==>
      forall k: nat | k < |input.Ops()| :: Gains(s, t, input.Ops()[k], ProfileOf(t, output.Ops()[k]))
  }

  /** What a backward pass is given: the output as it is, and the input with what belongs to the
      function as a whole. */
  ghost predicate Prepared(input: Func, output: Func, s: State, t: State, given: State) {
    && Walks.Agree(given, t, OpsOf(output))
    && Gains(s, given, input.op, ProfileOf(t, output.op))
    && forall op | op in OpsOf(input) && op != input.op :: Same(given, s, op)
  }

  /** The largest execution count that an op of the block has. */
  ghost predicate LargestRuns(s: State, block: seq<Op>, runs: real) {
    && (exists i: nat :: i < |block| && Measured(s, block[i]) == Some(runs))
    && (forall i: nat | i < |block| && Measured(s, block[i]).Some? :: Measured(s, block[i]).value <= runs)
  }

  /** All ops of a block that has a count end with its largest; nothing else changes. */
  ghost predicate Evened(left: State, t: State, input: Func) {
    DisjointBlocks(input.blocks) ==>
      && (forall op, m | op in OpsOf(input) && m != EXECUTIONS :: Reading(t, op, m) == Reading(left, op, m))
      && (forall b: nat, i: nat | b < |input.blocks| && i < |input.blocks[b]| :: EvenedAt(left, t, input.blocks[b], i))
  }

  ghost predicate EvenedAt(left: State, t: State, block: seq<Op>, i: nat)
    requires i < |block|
  {
    && (forall runs | LargestRuns(left, block, runs) :: Measured(t, block[i]) == Some(runs))
    && ((forall j: nat | j < |block| :: Measured(left, block[j]).None?) ==> Measured(t, block[i]).None?)
  }

  /** A function that a pass changed: its backward pass succeeded on what it was given, and what it
      left was evened out. */
  ghost predicate PassedBack(passes: Passes, pass: string, input: Func, output: Func, s: State, t: State) {
    pass in passes && exists given: State, left: State ::
      Prepared(input, output, s, t, given) && passes[pass](input, output, given) == (left, None) && Evened(left, t, input)
  }

  /** What the step from snapshot `i + 1` to `i` leaves: `s` is what was there before the walk. */
  ghost predicate StepHolds(trace: seq<Snapshot>, passes: Passes, a: string, i: nat, s: State, t: State) {
    && Has(trace, i, a) && Has(trace, i + 1, a)
    && var input, output := FuncAt(trace, i, a), FuncAt(trace, i + 1, a);
       if input.text == output.text then Copied(input, output, s, t)
       else PassedBack(passes, trace[i + 1].name, input, output, s, t)
  }

  // ---- steps leave that ----

  lemma {:induction false} CopyGives(s: State, ins: seq<Op>, outs: seq<Op>, n: nat)
    requires |ins| == |outs| && n <= |ins| && Profiles.Distinct(ins) && forall o | o in outs :: o !in ins
    ensures var t := Transferred(s, Zip(ins, outs), n);
      && (forall k: nat | k < n :: Gains(s, t, ins[k], ProfileOf(s, outs[k])))
      && (forall k: nat | n <= k < |ins| :: ProfileOf(t, ins[k]) == ProfileOf(s, ins[k]))
      && (forall o | o in outs :: ProfileOf(t, o) == ProfileOf(s, o))
  {
    if n > 0 {
      var before, t := Transferred(s, Zip(ins, outs), n - 1), Transferred(s, Zip(ins, outs), n);
      CopyGives(s, ins, outs, n - 1);
      assert outs[n - 1] in outs && t == Added(before, ins[n - 1], ProfileOf(s, outs[n - 1]), 1.0);
      AddedGains(before, ins[n - 1], ProfileOf(s, outs[n - 1]));
      forall k: nat | k < n
        ensures Gains(s, t, ins[k], ProfileOf(s, outs[k]))
      {
        if k < n - 1 {
          GainsStay(s, before, t, ins[k], ProfileOf(s, outs[k]));
        } else {
          GainsFrom(s, before, t, ins[k], ProfileOf(s, outs[k]));
        }
      }
    }
  }

  lemma AddedGains(s: State, op: Op, from: Profile)
    ensures Gains(s, Added(s, op, from, 1.0), op, from)
    ensures forall other | other != op :: ProfileOf(Added(s, op, from, 1.0), other) == ProfileOf(s, other)
  {
    forall m
      ensures Gain(s, Added(s, op, from, 1.0), op, from, m)
    {
      AddedReads(s, op, from, 1.0, op, m);
    }
  }

  lemma GainsStay(s: State, t: State, u: State, op: Op, from: Profile)
    requires Gains(s, t, op, from) && ProfileOf(u, op) == ProfileOf(t, op)
    ensures Gains(s, u, op, from)
  {
    forall m
      ensures Gain(s, u, op, from, m)
    {
      assert Gain(s, t, op, from, m);
    }
  }

  lemma GainsFrom(s: State, r: State, t: State, op: Op, from: Profile)
    requires Gains(r, t, op, from) && ProfileOf(r, op) == ProfileOf(s, op)
    ensures Gains(s, t, op, from)
  {
    forall m
      ensures Gain(s, t, op, from, m)
    {
      assert Gain(r, t, op, from, m);
    }
  }

  lemma EvensOut(left: State, input: Func)
    ensures Evened(left, EvenedOut(left, input.blocks, |input.blocks|), input)
  {
    var t, blocks := EvenedOut(left, input.blocks, |input.blocks|), input.blocks;
    if DisjointBlocks(blocks) {
      forall op, m | op in OpsOf(input) && m != EXECUTIONS
        ensures Reading(t, op, m) == Reading(left, op, m)
      {
        EvenedOutKeepsCosts(left, blocks, |blocks|, op, m);
      }
      forall b: nat, i: nat | b < |blocks| && i < |blocks[b]|
        ensures EvenedAt(left, t, blocks[b], i)
      {
        EvenedOutIsUniform(left, blocks, |blocks|, b, i);
        RunsIsLargest(left, blocks[b], |blocks[b]|);
      }
    }
  }

  /** One step that does not fail leaves its hand-over. */
  lemma StepLeaves(passes: Passes, pass: string, input: Func, output: Func, s: State)
    requires WellFormedFunc(input) && (pass in passes ==> Local(passes[pass])) && OpsOf(input) !! OpsOf(output)
    requires FuncStep(passes, pass, input, output, s).1.None?
    ensures var t := FuncStep(passes, pass, input, output, s).0;
      if input.text == output.text then Copied(input, output, s, t) else PassedBack(passes, pass, input, output, s, t)
  {
    var t := FuncStep(passes, pass, input, output, s).0;
    forall op | op in OpsOf(output)
      ensures Same(t, s, op)
    {
      StepWrites(passes, pass, input, output, s, op);
    }
    if input.text == output.text {
      CopyLeaves(input, output, s);
    } else {
      PassLeaves(passes, pass, input, output, s, t);
    }
  }

  lemma CopyLeaves(input: Func, output: Func, s: State)
    requires OpsOf(input) !! OpsOf(output)
    ensures Copied(input, output, s, Transferred(s, Zip(input.Ops(), output.Ops()), |Zip(input.Ops(), output.Ops())|))
  {
    var ins, outs := input.Ops(), output.Ops();
    if Profiles.Distinct(ins) && |ins| == |outs| {
      forall o | o in outs
        ensures o !in ins
      {
        assert o in OpsOf(output);
      }
      CopyGives(s, ins, outs, |ins|);
      assert forall k: nat | k < |ins| :: outs[k] in outs;
    }
  }

  lemma PassLeaves(passes: Passes, pass: string, input: Func, output: Func, s: State, t: State)
    requires input.text != output.text && pass in passes && OpsOf(input) !! OpsOf(output)
    requires FuncStep(passes, pass, input, output, s) == (t, None) && forall op | op in OpsOf(output) :: Same(t, s, op)
    ensures PassedBack(passes, pass, input, output, s, t)
  {
    var given := OwnHandedOver(input, output, s);
    var (left, error) := passes[pass](input, output, given);
    GivenIsPrepared(input, output, s, t);
    EvensOut(left, input);
  }

  lemma GivenIsPrepared(input: Func, output: Func, s: State, t: State)
    requires OpsOf(input) !! OpsOf(output) && forall op | op in OpsOf(output) :: Same(t, s, op)
    ensures Prepared(input, output, s, t, OwnHandedOver(input, output, s))
  {
    assert output.op in output.Ops() && input.op in input.Ops();
    assert output.op in OpsOf(output) && input.op in OpsOf(input);
    AddedGains(s, input.op, ProfileOf(s, output.op));
    AddedIsLocal(s, s, input.op, ProfileOf(s, output.op), {input.op});
    assert OwnHandedOver(input, output, s) == Added(s, input.op, ProfileOf(s, output.op), 1.0);
  }

  // ---- the hand-over seen from elsewhere ----

  lemma GainsAgree(s: State, t: State, op: Op, from: Profile, r: State, u: State)
    requires Gains(s, t, op, from) && ProfileOf(r, op) == ProfileOf(s, op) && ProfileOf(u, op) == ProfileOf(t, op)
    ensures Gains(r, u, op, from)
  {
    GainsFrom(r, s, t, op, from);
    GainsStay(r, t, u, op, from);
  }

  lemma CopiedAgree(input: Func, output: Func, s: State, t: State, r: State, u: State)
    requires Copied(input, output, s, t) && Walks.Agree(s, r, OpsOf(input)) && Walks.Agree(t, u, OpsOf(input) + OpsOf(output))
    ensures Copied(input, output, r, u)
  {
    var ins, outs := input.Ops(), output.Ops();
    if Profiles.Distinct(ins) && |ins| == |outs| {
      forall k: nat | k < |ins|
        ensures Gains(r, u, ins[k], ProfileOf(u, outs[k]))
      {
        assert ins[k] in OpsOf(input) && outs[k] in OpsOf(output);
        GainsAgree(s, t, ins[k], ProfileOf(t, outs[k]), r, u);
      }
    }
  }

  lemma PreparedAgree(input: Func, output: Func, s: State, t: State, given: State, r: State, u: State)
    requires Prepared(input, output, s, t, given) && Walks.Agree(s, r, OpsOf(input)) && Walks.Agree(t, u, OpsOf(output))
    ensures Prepared(input, output, r, u, given)
  {
    assert input.op in input.Ops() && output.op in output.Ops();
    assert input.op in OpsOf(input) && output.op in OpsOf(output);
    GainsAgree(s, given, input.op, ProfileOf(t, output.op), r, given);
  }

  lemma EvenedAgree(left: State, t: State, input: Func, u: State)
    requires Evened(left, t, input) && Walks.Agree(t, u, OpsOf(input)) && WellFormedFunc(input)
    ensures Evened(left, u, input)
  {
    if DisjointBlocks(input.blocks) {
      forall b: nat, i: nat | b < |input.blocks| && i < |input.blocks[b]|
        ensures EvenedAt(left, u, input.blocks[b], i)
      {
        assert EvenedAt(left, t, input.blocks[b], i);
        assert input.blocks[b][i] in input.blocks[b] && input.blocks[b][i] in OpsOf(input);
        MeasuredAgree(t, u, OpsOf(input), input.blocks[b][i]);
      }
    }
  }

  lemma MeasuredAgree(t: State, u: State, ops: set<Op>, op: Op)
    requires Walks.Agree(t, u, ops) && op in ops
    ensures Measured(t, op) == Measured(u, op)
  {
    assert op in t ==> ProfileOf(t, op) == t[op] && ProfileOf(u, op) == u[op];
  }

  /** Only what is at the two functions' ops matters. */
  lemma StepAgrees(trace: seq<Snapshot>, passes: Passes, a: string, i: nat, s: State, t: State, r: State, u: State)
    requires StepHolds(trace, passes, a, i, s, t) && WellFormedFunc(FuncAt(trace, i, a))
    requires Walks.Agree(s, r, OpsOf(FuncAt(trace, i, a)))
    requires Walks.Agree(t, u, OpsOf(FuncAt(trace, i, a)) + OpsOf(FuncAt(trace, i + 1, a)))
    ensures StepHolds(trace, passes, a, i, r, u)
  {
    var input, output, pass := FuncAt(trace, i, a), FuncAt(trace, i + 1, a), trace[i + 1].name;
    if input.text == output.text {
      CopiedAgree(input, output, s, t, r, u);
    } else {
      var given: State, left: State :|
        Prepared(input, output, s, t, given) && passes[pass](input, output, given) == (left, None) && Evened(left, t, input);
      PreparedAgree(input, output, s, t, given, r, u);
      EvenedAgree(left, t, input, u);
    }
  }

  // ---- why a function stopped ----

  /** The stop of `a` says where it got to and what was in its way there. */
  ghost predicate StopHolds(trace: seq<Snapshot>, passes: Passes, a: string, stop: Stop, s: State, t: State) {
    var r := stop.reached;
    && Has(trace, r, a)
    && (stop.reason != StartReached ==> r > 0 && stop.pass == Some(trace[r].name))
    && match stop.reason
       case StartReached => r == 0 && stop.pass == None
       case DoesNotParse => trace[r - 1].funcs.None?
       case Created => trace[r - 1].funcs.Some? && !Has(trace, r - 1, a)
       case NoBackwardPass => Changed(trace, a, r) && trace[r].name !in passes
       case Failed(error) => Changed(trace, a, r) && trace[r].name in passes && PassFailed(trace, passes, a, r, error, s, t)
  }

  /** The pass that made snapshot `r` changed the function. */
  ghost predicate Changed(trace: seq<Snapshot>, a: string, r: nat) {
    r > 0 && Has(trace, r - 1, a) && Has(trace, r, a) && FuncAt(trace, r - 1, a).text != FuncAt(trace, r, a).text
  }

  ghost predicate PassFailed(trace: seq<Snapshot>, passes: Passes, a: string, r: nat, error: string, s: State, t: State)
    requires Changed(trace, a, r) && trace[r].name in passes
  {
    var input, output := FuncAt(trace, r - 1, a), FuncAt(trace, r, a);
    exists given: State :: Prepared(input, output, s, t, given) && passes[trace[r].name](input, output, given).1 == Some(error)
  }

  lemma FailedStepStops(trace: seq<Snapshot>, passes: Passes, a: string, r: nat, s: State)
    requires Proper(trace, passes) && r > 0 && Has(trace, r - 1, a) && Has(trace, r, a)
    requires FuncStep(passes, trace[r].name, FuncAt(trace, r - 1, a), FuncAt(trace, r, a), s).1.Some?
    ensures var (t, failure) := FuncStep(passes, trace[r].name, FuncAt(trace, r - 1, a), FuncAt(trace, r, a), s);
      StopHolds(trace, passes, a, Stop(r, Some(trace[r].name), failure.value), s, t)
  {
    var input, output, pass := FuncAt(trace, r - 1, a), FuncAt(trace, r, a), trace[r].name;
    var (t, failure) := FuncStep(passes, pass, input, output, s);
    OwnOpsApart(trace, passes, a, r);
    forall op | op in OpsOf(output)
      ensures Same(t, s, op)
    {
      assert FuncInSnapshot(trace, r - 1, a);
      StepWrites(passes, pass, input, output, s, op);
    }
    if pass in passes {
      GivenIsPrepared(input, output, s, t);
    }
  }

  lemma OwnOpsApart(trace: seq<Snapshot>, passes: Passes, a: string, r: nat)
    requires Proper(trace, passes) && r > 0 && Has(trace, r - 1, a) && Has(trace, r, a)
    ensures OpsOf(FuncAt(trace, r - 1, a)) !! OpsOf(FuncAt(trace, r, a))
  {
    assert FuncInSnapshot(trace, r - 1, a) && FuncInSnapshot(trace, r, a) && SnapshotsApart(trace, r - 1, r);
  }

  // ---- the whole way back ----

  /** A walk back from `index` writes nothing at `index` or later. */
  lemma {:induction false} AloneWritesEarlier(trace: seq<Snapshot>, passes: Passes, a: string, index: nat, s: State, j: nat, op: Op)
    requires Proper(trace, passes) && Has(trace, index, a) && index <= j < |trace| && op in trace[j].ops
    ensures Same(Alone(trace, passes, a, index, s).0, s, op)
    decreases index
  {
    if index > 0 && Has(trace, index - 1, a) {
      var input, output, pass := FuncAt(trace, index - 1, a), FuncAt(trace, index, a), trace[index].name;
      assert FuncInSnapshot(trace, index - 1, a) && SnapshotsApart(trace, index - 1, j);
      StepWrites(passes, pass, input, output, s, op);
      var (after, failure) := FuncStep(passes, pass, input, output, s);
      if failure.None? {
        AloneWritesEarlier(trace, passes, a, index - 1, after, j, op);
      }
    }
  }

  /** Alone, every step down to where the function stops leaves its hand-over to the end, and the
      stop says what was in the way. */
  lemma {:induction false} AloneHolds(trace: seq<Snapshot>, passes: Passes, a: string, index: nat, s: State, i: nat)
    requires Proper(trace, passes) && Has(trace, index, a)
    ensures var (t, stop) := Alone(trace, passes, a, index, s);
      && StopHolds(trace, passes, a, stop, s, t) && stop.reached <= index
      && (stop.reached <= i < index ==> StepHolds(trace, passes, a, i, s, t))
    decreases index
  {
    if index > 0 && Has(trace, index - 1, a) {
      var input, output, pass := FuncAt(trace, index - 1, a), FuncAt(trace, index, a), trace[index].name;
      var (after, failure) := FuncStep(passes, pass, input, output, s);
      if failure.Some? {
        FailedStepStops(trace, passes, a, index, s);
      } else {
        AloneHolds(trace, passes, a, index - 1, after, i);
        AloneStepsOn(trace, passes, a, index, s, i, after);
      }
    }
  }

  lemma AloneStepsOn(trace: seq<Snapshot>, passes: Passes, a: string, index: nat, s: State, i: nat, after: State)
    requires Proper(trace, passes) && index > 0 && Has(trace, index, a) && Has(trace, index - 1, a)
    requires FuncStep(passes, trace[index].name, FuncAt(trace, index - 1, a), FuncAt(trace, index, a), s) == (after, None)
    requires var (t, stop) := Alone(trace, passes, a, index - 1, after);
      && StopHolds(trace, passes, a, stop, after, t) && stop.reached <= index - 1
      && (stop.reached <= i < index - 1 ==> StepHolds(trace, passes, a, i, after, t))
    ensures var (t, stop) := Alone(trace, passes, a, index, s);
      && StopHolds(trace, passes, a, stop, s, t)
      && (stop.reached <= i < index ==> StepHolds(trace, passes, a, i, s, t))
  {
    var (t, stop) := Alone(trace, passes, a, index - 1, after);
    EarlierStopHolds(trace, passes, a, index, s, after, t, stop);
    if stop.reached <= i < index - 1 {
      EarlierOpsSame(trace, passes, a, index, s, after, i);
      assert FuncInSnapshot(trace, i, a);
      StepAgrees(trace, passes, a, i, after, t, s, t);
    } else if i == index - 1 {
      LastStepHolds(trace, passes, a, index, s, after, t);
    }
  }

  /** A step writes nothing at earlier snapshots. */
  lemma EarlierOpsSame(trace: seq<Snapshot>, passes: Passes, a: string, index: nat, s: State, after: State, i: nat)
    requires Proper(trace, passes) && index > 0 && Has(trace, index, a) && Has(trace, index - 1, a) && i < index - 1 && Has(trace, i, a)
    requires FuncStep(passes, trace[index].name, FuncAt(trace, index - 1, a), FuncAt(trace, index, a), s).0 == after
    ensures Walks.Agree(after, s, OpsOf(FuncAt(trace, i, a)))
  {
    assert FuncInSnapshot(trace, index - 1, a) && FuncInSnapshot(trace, i, a) && SnapshotsApart(trace, i, index - 1);
    forall op | op in OpsOf(FuncAt(trace, i, a))
      ensures Same(after, s, op)
    {
      StepWrites(passes, trace[index].name, FuncAt(trace, index - 1, a), FuncAt(trace, index, a), s, op);
    }
  }

  lemma LastStepHolds(trace: seq<Snapshot>, passes: Passes, a: string, index: nat, s: State, after: State, t: State)
    requires Proper(trace, passes) && index > 0 && Has(trace, index, a) && Has(trace, index - 1, a)
    requires FuncStep(passes, trace[index].name, FuncAt(trace, index - 1, a), FuncAt(trace, index, a), s) == (after, None)
    requires t == Alone(trace, passes, a, index - 1, after).0
    ensures StepHolds(trace, passes, a, index - 1, s, t)
  {
    var input, output := FuncAt(trace, index - 1, a), FuncAt(trace, index, a);
    assert FuncInSnapshot(trace, index - 1, a) && FuncInSnapshot(trace, index, a);
    OwnOpsApart(trace, passes, a, index);
    StepLeaves(passes, trace[index].name, input, output, s);
    forall op | op in OpsOf(input) + OpsOf(output)
      ensures Same(t, after, op)
    {
      AloneWritesEarlier(trace, passes, a, index - 1, after, if op in OpsOf(input) then index - 1 else index, op);
    }
    StepAgrees(trace, passes, a, index - 1, s, after, s, t);
  }

  lemma EarlierStopHolds(trace: seq<Snapshot>, passes: Passes, a: string, index: nat, s: State, after: State, t: State, stop: Stop)
    requires Proper(trace, passes) && index > 0 && Has(trace, index, a) && Has(trace, index - 1, a)
    requires FuncStep(passes, trace[index].name, FuncAt(trace, index - 1, a), FuncAt(trace, index, a), s).0 == after
    requires StopHolds(trace, passes, a, stop, after, t) && stop.reached <= index - 1
    ensures StopHolds(trace, passes, a, stop, s, t)
  {
    if stop.reason.Failed? {
      var r := stop.reached;
      EarlierOpsSame(trace, passes, a, index, s, after, r - 1);
      StopAgrees(trace, passes, a, stop, after, t, s, t);
    }
  }

  lemma StopAgrees(trace: seq<Snapshot>, passes: Passes, a: string, stop: Stop, s: State, t: State, r: State, u: State)
    requires StopHolds(trace, passes, a, stop, s, t)
    requires stop.reached > 0 && Has(trace, stop.reached - 1, a) ==> Walks.Agree(s, r, OpsOf(FuncAt(trace, stop.reached - 1, a)))
    requires Walks.Agree(t, u, OpsOf(FuncAt(trace, stop.reached, a)))
    ensures StopHolds(trace, passes, a, stop, r, u)
  {
    if stop.reason.Failed? {
      var n := stop.reached;
      var input, output := FuncAt(trace, n - 1, a), FuncAt(trace, n, a);
      var given: State :|
        Prepared(input, output, s, t, given) && passes[trace[n].name](input, output, given).1 == Some(stop.reason.error);
      PreparedAgree(input, output, s, t, given, r, u);
    }
  }

  // ---- the whole walk ----

  /** What a walk leaves of a function that had a profile: the last snapshot has what was measured,
      each step down to its stop has its hand-over, and the stop says what was in the way. */
  ghost predicate FunctionWalked(trace: seq<Snapshot>, passes: Passes, a: string, start: State, stop: Stop, end: State)
    requires trace != []
  {
    && Has(trace, |trace| - 1, a) && Walks.Agree(end, start, OpsOf(FuncAt(trace, |trace| - 1, a)))
    && StopHolds(trace, passes, a, stop, start, end)
    && forall i: nat | stop.reached <= i < |trace| - 1 :: StepHolds(trace, passes, a, i, start, end)
  }

  ghost predicate EveryStepHolds(trace: seq<Snapshot>, passes: Passes, start: State, walk: Walk, end: State)
    requires trace != []
  {
    forall a | a in walk.stops :: FunctionWalked(trace, passes, a, start, walk.stops[a], end)
  }

  /** That holds of every walk. */
  lemma WalkHolds(trace: seq<Snapshot>, passes: Passes, start: State, walk: Walk, end: State)
    requires Proper(trace, passes) && trace != [] && trace[|trace| - 1].funcs.Some? && WalkedRight(trace, passes, start, walk, end)
    ensures EveryStepHolds(trace, passes, start, walk, end)
  {
    forall a | a in walk.stops
      ensures FunctionWalked(trace, passes, a, start, walk.stops[a], end)
    {
      StopArrived(trace, passes, start, walk, end, a);
      FunctionHolds(trace, passes, a, start, walk.stops[a], end);
    }
  }

  lemma StopArrived(trace: seq<Snapshot>, passes: Passes, start: State, walk: Walk, end: State, a: string)
    requires trace != [] && trace[|trace| - 1].funcs.Some? && WalkedRight(trace, passes, start, walk, end) && a in walk.stops
    ensures Has(trace, |trace| - 1, a)
    ensures Arrived(trace, a, walk.stops[a], end, Alone(trace, passes, a, |trace| - 1, start))
  {
  }

  lemma LastStays(trace: seq<Snapshot>, passes: Passes, a: string, start: State, stop: Stop, end: State)
    requires Proper(trace, passes) && trace != [] && Has(trace, |trace| - 1, a)
    requires Arrived(trace, a, stop, end, Alone(trace, passes, a, |trace| - 1, start))
    ensures Walks.Agree(end, start, OpsOf(FuncAt(trace, |trace| - 1, a)))
  {
    var last := |trace| - 1;
    OwnOpsHave(trace, a, last, last);
    assert FuncInSnapshot(trace, last, a);
    forall op | op in OpsOf(FuncAt(trace, last, a))
      ensures Same(end, start, op)
    {
      AloneWritesEarlier(trace, passes, a, last, start, last, op);
    }
  }

  lemma FunctionHolds(trace: seq<Snapshot>, passes: Passes, a: string, start: State, stop: Stop, end: State)
    requires Proper(trace, passes) && trace != [] && Has(trace, |trace| - 1, a)
    requires Arrived(trace, a, stop, end, Alone(trace, passes, a, |trace| - 1, start))
    ensures FunctionWalked(trace, passes, a, start, stop, end)
  {
    var last := |trace| - 1;
    var t := Alone(trace, passes, a, last, start).0;
    AloneHolds(trace, passes, a, last, start, last);
    LastStays(trace, passes, a, start, stop, end);
    OwnOpsHave(trace, a, stop.reached, last);
    StopAgrees(trace, passes, a, stop, start, t, start, end);
    forall i: nat | stop.reached <= i < last
      ensures StepHolds(trace, passes, a, i, start, end)
    {
      AloneHolds(trace, passes, a, last, start, i);
      OwnOpsHave(trace, a, i, last);
      OwnOpsHave(trace, a, i + 1, last);
      assert FuncInSnapshot(trace, i, a);
      StepAgrees(trace, passes, a, i, start, t, start, end);
    }
  }

  // ---- functions no pass changed ----

  /** From snapshot `i` on the function stayed as it is, and before the walk only its last form had a
      profile. */
  ghost predicate Unchanged(trace: seq<Snapshot>, a: string, i: nat, s: State) {
    forall j: nat | i <= j < |trace| - 1 :: UnchangedAt(trace, a, j, s)
  }

  ghost predicate UnchangedAt(trace: seq<Snapshot>, a: string, j: nat, s: State) {
    && Has(trace, j, a) && Has(trace, j + 1, a)
    && var input, output := FuncAt(trace, j, a), FuncAt(trace, j + 1, a);
       && input.text == output.text && Profiles.Distinct(input.Ops()) && |input.Ops()| == |output.Ops()|
       && forall op | op in OpsOf(input) :: op !in s
  }

  /** A measurement as it is handed back: a count is not below zero. */
  function HandedBack(m: string, value: real): real {
    if IsCount(m) then Max(0.0, value) else value
  }

  /** As far back as a function is unchanged, each of its ops ends with what was measured of its
      counterpart in the last snapshot. */
  lemma {:induction false} UnchangedComesBack(trace: seq<Snapshot>, passes: Passes, start: State, walk: Walk, end: State, a: string, i: nat,
      k: nat, m: string)
    requires trace != [] && EveryStepHolds(trace, passes, start, walk, end) && a in walk.stops
    requires walk.stops[a].reached <= i < |trace| && Has(trace, i, a) && Unchanged(trace, a, i, start)
    requires k < |FuncAt(trace, i, a).Ops()|
    ensures var last := FuncAt(trace, |trace| - 1, a);
      && k < |last.Ops()|
      && Reading(end, FuncAt(trace, i, a).Ops()[k], m)
         == if i == |trace| - 1 then Reading(start, last.Ops()[k], m) else HandedBack(m, Reading(start, last.Ops()[k], m))
    decreases |trace| - i
  {
    if i == |trace| - 1 {
      assert FuncAt(trace, i, a).Ops()[k] in OpsOf(FuncAt(trace, i, a));
    } else {
      assert UnchangedAt(trace, a, i, start) && StepHolds(trace, passes, a, i, start, end);
      var ins, outs := FuncAt(trace, i, a).Ops(), FuncAt(trace, i + 1, a).Ops();
      UnchangedComesBack(trace, passes, start, walk, end, a, i + 1, k, m);
      assert ins[k] in OpsOf(FuncAt(trace, i, a)) && Gain(start, end, ins[k], ProfileOf(end, outs[k]), m);
    }
  }
}
