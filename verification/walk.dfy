/** The backward walk over a trace, function by function. */
module Walks {
  import opened Wrappers
  import opened Profiles

  /** A top-level function of a snapshot: the op itself, the ops under it, and its blocks. */
  datatype Func = Func(text: string, op: Op, inner: seq<Op>, blocks: seq<seq<Op>>) {
    function Ops(): seq<Op> {
      [op] + inner
    }
  }

  /** A snapshot's label, all its ops, and its functions when its text parses. */
  datatype Snapshot = Snapshot(name: string, ops: set<Op>, funcs: Option<map<string, Func>>)

  /** A backward pass, given the function before and after the forward pass: the profiles it
      leaves, and the error it stopped with, if any. */
  type Pass = (Func, Func, State) -> (State, Option<string>)
  type Passes = map<string, Pass>

  datatype Reason = DoesNotParse | Created | NoBackwardPass | Failed(error: string) | StartReached
  datatype Stop = Stop(reached: nat, pass: Option<string>, reason: Reason)
  datatype Walk = Walk(snapshots: map<nat, map<Op, Profile>>, stops: map<string, Stop>)
  datatype WalkError = NoSnapshots | LastDoesNotParse | NotMeasured(error: string)

  function OpsOf(f: Func): set<Op> {
    set op | op in f.Ops()
  }

  // ---- what locality means ----

  ghost predicate Agree(s: State, t: State, ops: set<Op>) {
    forall op | op in ops :: (op in s <==> op in t) && ProfileOf(s, op) == ProfileOf(t, op)
  }

  ghost predicate Same(s: State, t: State, op: Op) {
    (op in s <==> op in t) && ProfileOf(s, op) == ProfileOf(t, op)
  }

  /** Outside `ops` nothing differs. */
  ghost predicate Only(ops: set<Op>, s: State, t: State) {
    forall op | op !in ops :: Same(t, s, op)
  }

  ghost predicate WritesInput(pass: Pass, i: Func, o: Func, s: State) {
    Only(OpsOf(i), s, pass(i, o, s).0)
  }

  ghost predicate ReadsBoth(pass: Pass, i: Func, o: Func, s: State, t: State) {
    Agree(s, t, OpsOf(i) + OpsOf(o)) ==>
      pass(i, o, s).1 == pass(i, o, t).1 && Agree(pass(i, o, s).0, pass(i, o, t).0, OpsOf(i))
  }

  /** What a backward pass may do: read the two functions, write the input's ops. */
  ghost predicate Local(pass: Pass) {
    && (forall i, o, s :: WritesInput(pass, i, o, s))
    && (forall i, o, s, t :: ReadsBoth(pass, i, o, s, t))
  }

  ghost predicate WellFormedFunc(f: Func) {
    forall b, op | 0 <= b < |f.blocks| && op in f.blocks[b] :: op in f.Ops()
  }

  // ---- one function, one pass ----

  /** What belongs to the function as a whole, handed over. */
  function OwnHandedOver(input: Func, output: Func, s: State): State {
    if output.op in s then Added(s, input.op, s[output.op], 1.0) else s
  }

  /** One function going back through one pass. */
  function FuncStep(passes: Passes, pass: string, input: Func, output: Func, s: State): (State, Option<Reason>) {
    if input.text == output.text then
      (Transferred(s, Zip(input.Ops(), output.Ops()), |Zip(input.Ops(), output.Ops())|), None)
    else if pass !in passes then (s, Some(NoBackwardPass))
    else
      var (after, error) := passes[pass](input, output, OwnHandedOver(input, output, s));
      if error.Some? then (after, Some(Failed(error.value)))
      else (EvenedOut(after, input.blocks, |input.blocks|), None)
  }

  lemma AddedIsLocal(s: State, t: State, op: Op, from: Profile, ops: set<Op>)
    requires Agree(s, t, ops) && op in ops
    ensures Agree(Added(s, op, from, 1.0), Added(t, op, from, 1.0), ops)
    ensures forall other | other != op :: Same(Added(s, op, from, 1.0), s, other)
  {
  }

  lemma {:induction false} TransferIsLocal(s: State, t: State, pairs: seq<(Op, Op)>, n: nat, ops: set<Op>)
    requires n <= |pairs| && Agree(s, t, ops) && forall p | p in pairs :: p.0 in ops && p.1 in ops
    ensures Agree(Transferred(s, pairs, n), Transferred(t, pairs, n), ops)
  {
    if n > 0 {
      TransferIsLocal(s, t, pairs, n - 1, ops);
      assert pairs[n - 1] in pairs;
      AddedIsLocal(Transferred(s, pairs, n - 1), Transferred(t, pairs, n - 1), pairs[n - 1].0,
                   ProfileOf(Transferred(s, pairs, n - 1), pairs[n - 1].1), ops);
    }
  }

  lemma {:induction false} TransferWrites(s: State, pairs: seq<(Op, Op)>, n: nat, op: Op)
    requires n <= |pairs| && forall p | p in pairs :: p.0 != op
    ensures Same(Transferred(s, pairs, n), s, op)
  {
    if n > 0 {
      TransferWrites(s, pairs, n - 1, op);
      assert pairs[n - 1] in pairs;
    }
  }

  lemma {:induction false} EvenedIsLocal(s: State, t: State, blocks: seq<seq<Op>>, n: nat, ops: set<Op>)
    requires n <= |blocks| && Agree(s, t, ops) && forall b, op | 0 <= b < |blocks| && op in blocks[b] :: op in ops
    ensures Agree(EvenedOut(s, blocks, n), EvenedOut(t, blocks, n), ops)
  {
    if n > 0 {
      var s1, t1, block := EvenedOut(s, blocks, n - 1), EvenedOut(t, blocks, n - 1), blocks[n - 1];
      EvenedIsLocal(s, t, blocks, n - 1, ops);
      assert forall i | 0 <= i < |block| :: block[i] in block;
      assert forall i: nat | i < |block| :: Measured(s1, block[i]) == Measured(t1, block[i]);
      RunsDependOnOps(s1, t1, block, |block|);
      var runs := Runs(s1, block, |block|);
      if runs.Some? {
        forall op | op in ops
          ensures Same(EvenBlock(s1, block), EvenBlock(t1, block), op)
        {
          GivenRunsReads(s1, block, runs.value, |block|, op);
          GivenRunsReads(t1, block, runs.value, |block|, op);
        }
      }
    }
  }

  /** A step writes nothing but its input function's ops, whether it succeeds or fails. */
  lemma StepWrites(passes: Passes, pass: string, input: Func, output: Func, s: State, op: Op)
    requires WellFormedFunc(input) && (pass in passes ==> Local(passes[pass])) && op !in OpsOf(input)
    ensures Same(FuncStep(passes, pass, input, output, s).0, s, op)
  {
    if input.text == output.text {
      var pairs := Zip(input.Ops(), output.Ops());
      assert forall p | p in pairs :: p.0 in input.Ops();
      TransferWrites(s, pairs, |pairs|, op);
    } else if pass in passes {
      var own := OwnHandedOver(input, output, s);
      var (after, error) := passes[pass](input, output, own);
      assert WritesInput(passes[pass], input, output, own) && input.op in input.Ops();
      if error.None? {
        EvenedElsewhere(after, input.blocks, |input.blocks|, op);
      }
    }
  }

  /** A step depends on nothing but the profiles of its two functions. */
  lemma StepIsLocal(passes: Passes, pass: string, input: Func, output: Func, s: State, t: State)
    requires WellFormedFunc(input) && (pass in passes ==> Local(passes[pass]))
    requires Agree(s, t, OpsOf(input) + OpsOf(output))
    ensures FuncStep(passes, pass, input, output, s).1 == FuncStep(passes, pass, input, output, t).1
    ensures Agree(FuncStep(passes, pass, input, output, s).0, FuncStep(passes, pass, input, output, t).0, OpsOf(input))
  {
    var both := OpsOf(input) + OpsOf(output);
    if input.text == output.text {
      var pairs := Zip(input.Ops(), output.Ops());
      TransferIsLocal(s, t, pairs, |pairs|, both);
    } else if pass in passes {
      assert input.op in input.Ops() && output.op in output.Ops();
      var s1, t1 := OwnHandedOver(input, output, s), OwnHandedOver(input, output, t);
      if output.op in s {
        AddedIsLocal(s, t, input.op, s[output.op], both);
      }
      assert Agree(s1, t1, both);
      var s2, t2 := passes[pass](input, output, s1).0, passes[pass](input, output, t1).0;
      assert ReadsBoth(passes[pass], input, output, s1, t1);
      EvenedIsLocal(s2, t2, input.blocks, |input.blocks|, OpsOf(input));
    }
  }

  // ---- one function, the whole way back ----

  predicate Has(trace: seq<Snapshot>, index: nat, symbol: string) {
    index < |trace| && trace[index].funcs.Some? && symbol in trace[index].funcs.value
  }

  function FuncAt(trace: seq<Snapshot>, index: nat, symbol: string): Func
    requires Has(trace, index, symbol)
  {
    trace[index].funcs.value[symbol]
  }

  /** The ops of the function at snapshots `0..index`. */
  function OwnOps(trace: seq<Snapshot>, symbol: string, index: nat): set<Op> {
    (if index == 0 then {} else OwnOps(trace, symbol, index - 1))
    + if Has(trace, index, symbol) then OpsOf(FuncAt(trace, index, symbol)) else {}
  }

  lemma {:induction false} OwnOpsHave(trace: seq<Snapshot>, symbol: string, i: nat, index: nat)
    requires i <= index && Has(trace, i, symbol)
    ensures OpsOf(FuncAt(trace, i, symbol)) <= OwnOps(trace, symbol, index)
  {
    if i < index {
      OwnOpsHave(trace, symbol, i, index - 1);
    }
  }

  lemma {:induction false} OwnOpsAre(trace: seq<Snapshot>, symbol: string, index: nat, op: Op)
    requires op in OwnOps(trace, symbol, index)
    ensures exists i: nat :: i <= index && Has(trace, i, symbol) && op in OpsOf(FuncAt(trace, i, symbol))
  {
    if !(Has(trace, index, symbol) && op in OpsOf(FuncAt(trace, index, symbol))) {
      OwnOpsAre(trace, symbol, index - 1, op);
    }
  }

  /** The reference: the one function walked back from snapshot `index` on its own. */
  function Alone(trace: seq<Snapshot>, passes: Passes, symbol: string, index: nat, s: State): (State, Stop)
    requires Has(trace, index, symbol)
    decreases index
  {
    if index == 0 then (s, Stop(0, None, StartReached))
    else if trace[index - 1].funcs.None? then (s, Stop(index, Some(trace[index].name), DoesNotParse))
    else if !Has(trace, index - 1, symbol) then (s, Stop(index, Some(trace[index].name), Created))
    else
      var (after, failure) :=
        FuncStep(passes, trace[index].name, FuncAt(trace, index - 1, symbol), FuncAt(trace, index, symbol), s);
      if failure.Some? then (after, Stop(index, Some(trace[index].name), failure.value))
      else Alone(trace, passes, symbol, index - 1, after)
  }

  ghost predicate SnapshotsApart(trace: seq<Snapshot>, i: nat, j: nat) {
    i < j < |trace| ==> trace[i].ops !! trace[j].ops
  }

  ghost predicate FuncsApart(trace: seq<Snapshot>, i: nat, a: string, b: string) {
    Has(trace, i, a) && Has(trace, i, b) && a != b ==> OpsOf(FuncAt(trace, i, a)) !! OpsOf(FuncAt(trace, i, b))
  }

  ghost predicate FuncInSnapshot(trace: seq<Snapshot>, i: nat, a: string) {
    Has(trace, i, a) ==> WellFormedFunc(FuncAt(trace, i, a)) && OpsOf(FuncAt(trace, i, a)) <= trace[i].ops
  }

  /** Parsing gives each snapshot ops of its own, and each function ops of its own; passes are
      local. */
  ghost predicate Proper(trace: seq<Snapshot>, passes: Passes) {
    && (forall i, a :: FuncInSnapshot(trace, i, a))
    && (forall i, j :: SnapshotsApart(trace, i, j))
    && (forall i, a, b :: FuncsApart(trace, i, a, b))
    && (forall p | p in passes :: Local(passes[p]))
  }

  /** A function's way back depends on its own ops' profiles only. */
  lemma {:induction false} AloneIsLocal(trace: seq<Snapshot>, passes: Passes, symbol: string, index: nat, s: State, t: State, ops: set<Op>)
    requires Proper(trace, passes) && Has(trace, index, symbol)
    requires OwnOps(trace, symbol, index) <= ops && Agree(s, t, ops)
    ensures Alone(trace, passes, symbol, index, s).1 == Alone(trace, passes, symbol, index, t).1
    ensures Agree(Alone(trace, passes, symbol, index, s).0, Alone(trace, passes, symbol, index, t).0, ops)
  {
    if index > 0 && Has(trace, index - 1, symbol) {
      var input, output, pass := FuncAt(trace, index - 1, symbol), FuncAt(trace, index, symbol), trace[index].name;
      assert FuncInSnapshot(trace, index - 1, symbol);
      OwnOpsHave(trace, symbol, index - 1, index);
      OwnOpsHave(trace, symbol, index, index);
      StepIsLocal(passes, pass, input, output, s, t);
      var s1, t1 := FuncStep(passes, pass, input, output, s), FuncStep(passes, pass, input, output, t);
      forall op | op in ops
        ensures Same(s1.0, t1.0, op)
      {
        if op !in OpsOf(input) {
          StepWrites(passes, pass, input, output, s, op);
          StepWrites(passes, pass, input, output, t, op);
        }
      }
      if s1.1.None? {
        AloneIsLocal(trace, passes, symbol, index - 1, s1.0, t1.0, ops);
      }
    }
  }

  lemma SymbolsApart(trace: seq<Snapshot>, passes: Passes, i: nat, a: string, b: string, last: nat)
    requires Proper(trace, passes) && Has(trace, i, a) && a != b
    ensures OpsOf(FuncAt(trace, i, a)) !! OwnOps(trace, b, last)
  {
    forall op | op in OwnOps(trace, b, last)
      ensures op !in OpsOf(FuncAt(trace, i, a))
    {
      OwnOpsAre(trace, b, last, op);
      var j: nat :| j <= last && Has(trace, j, b) && op in OpsOf(FuncAt(trace, j, b));
      assert FuncInSnapshot(trace, i, a) && FuncInSnapshot(trace, j, b);
      assert FuncsApart(trace, i, a, b) && SnapshotsApart(trace, i, j) && SnapshotsApart(trace, j, i);
    }
  }

  // ---- the walk ----

  function Collect(s: State, ops: set<Op>): map<Op, Profile> {
    map op | op in ops && op in s :: s[op]
  }

  /** The functions with a profile on any op. */
  function Profiled(funcs: map<string, Func>, s: State): set<string> {
    set symbol | symbol in funcs && exists op | op in funcs[symbol].Ops() :: op in s
  }

  /** `symbol`, still to go from `index`, will end as it does alone from the last snapshot. */
  ghost predicate OnTrack(trace: seq<Snapshot>, passes: Passes, symbol: string, index: nat, s: State, goal: (State, Stop))
    requires |trace| > 0
  {
    && Has(trace, index, symbol)
    && Alone(trace, passes, symbol, index, s).1 == goal.1
    && Agree(Alone(trace, passes, symbol, index, s).0, goal.0, OwnOps(trace, symbol, |trace| - 1))
  }

  ghost predicate Arrived(trace: seq<Snapshot>, symbol: string, stop: Stop, s: State, goal: (State, Stop))
    requires |trace| > 0
  {
    stop == goal.1 && Agree(s, goal.0, OwnOps(trace, symbol, |trace| - 1))
  }

  type Goals = map<string, (State, Stop)>

  /** Where a function is: still live at a snapshot, or stopped. */
  datatype Place = Live(index: nat) | Ended(stop: Stop)

  ghost predicate Placed(trace: seq<Snapshot>, passes: Passes, a: string, place: Place, s: State, goal: (State, Stop))
    requires |trace| > 0
  {
    match place
    case Live(index) => OnTrack(trace, passes, a, index, s, goal)
    case Ended(stop) => Arrived(trace, a, stop, s, goal)
  }

  ghost predicate AllPlaced(trace: seq<Snapshot>, passes: Passes, goals: Goals, places: map<string, Place>, s: State) {
    |trace| > 0 && places.Keys == goals.Keys && forall a | a in places :: Placed(trace, passes, a, places[a], s, goals[a])
  }

  /** Inside the pass that made snapshot `index`: `left` are still there, `moved` went back. */
  function Places(index: nat, left: set<string>, moved: set<string>, stops: map<string, Stop>): map<string, Place> {
    map a | a in left + moved + stops.Keys ::
      if a in stops then Ended(stops[a]) else if a in left then Live(index) else Live(if index == 0 then 0 else index - 1)
  }

  /** The functions that started with a profile are live, moved or stopped, and each will end, or
      has ended, as it does alone. */
  ghost predicate Standing(trace: seq<Snapshot>, passes: Passes, goals: Goals, index: nat,
                           left: set<string>, moved: set<string>, stops: map<string, Stop>, s: State) {
    && left !! moved && left + moved !! stops.Keys
    && AllPlaced(trace, passes, goals, Places(index, left, moved, stops), s)
  }

  lemma TrackStays(trace: seq<Snapshot>, passes: Passes, a: string, index: nat, s: State, t: State, goal: (State, Stop))
    requires Proper(trace, passes) && |trace| > 0 && OnTrack(trace, passes, a, index, s, goal)
    requires Agree(s, t, OwnOps(trace, a, |trace| - 1))
    ensures OnTrack(trace, passes, a, index, t, goal)
  {
    OwnOpsGrow(trace, a, index, |trace| - 1);
    AloneIsLocal(trace, passes, a, index, s, t, OwnOps(trace, a, |trace| - 1));
  }

  lemma {:induction false} OwnOpsGrow(trace: seq<Snapshot>, a: string, i: nat, j: nat)
    requires i <= j
    ensures OwnOps(trace, a, i) <= OwnOps(trace, a, j)
  {
    if i < j {
      OwnOpsGrow(trace, a, i, j - 1);
    }
  }

  /** When one function's turn changed only its own ops, the others are where they were. */
  lemma OneMoves(trace: seq<Snapshot>, passes: Passes, goals: Goals, places: map<string, Place>, symbol: string, i: nat,
                 place: Place, s: State, t: State)
    requires Proper(trace, passes) && AllPlaced(trace, passes, goals, places, s) && symbol in places
    requires t == s || (Has(trace, i, symbol) && Only(OpsOf(FuncAt(trace, i, symbol)), s, t))
    requires Placed(trace, passes, symbol, place, t, goals[symbol])
    ensures AllPlaced(trace, passes, goals, places[symbol := place], t)
  {
    forall a | a in places && a != symbol
      ensures Placed(trace, passes, a, places[a], t, goals[a])
    {
      OtherStays(trace, passes, a, places[a], symbol, i, s, t, goals[a]);
    }
  }

  lemma OtherStays(trace: seq<Snapshot>, passes: Passes, a: string, place: Place, symbol: string, i: nat, s: State, t: State, goal: (State, Stop))
    requires Proper(trace, passes) && |trace| > 0 && Placed(trace, passes, a, place, s, goal) && a != symbol
    requires t == s || (Has(trace, i, symbol) && Only(OpsOf(FuncAt(trace, i, symbol)), s, t))
    ensures Placed(trace, passes, a, place, t, goal)
  {
    if t != s {
      SymbolsApart(trace, passes, i, symbol, a, |trace| - 1);
      assert Agree(s, t, OwnOps(trace, a, |trace| - 1));
      if place.Live? {
        TrackStays(trace, passes, a, place.index, s, t, goal);
      }
    }
  }

  lemma PlacesMove(index: nat, left: set<string>, moved: set<string>, stops: map<string, Stop>, symbol: string)
    requires index > 0 && symbol in left && left !! moved && left + moved !! stops.Keys
    ensures left - {symbol} !! moved + {symbol} && (left - {symbol}) + (moved + {symbol}) !! stops.Keys
    ensures Places(index, left - {symbol}, moved + {symbol}, stops) == Places(index, left, moved, stops)[symbol := Live(index - 1)]
  {
  }

  lemma PlacesEnd(index: nat, left: set<string>, moved: set<string>, stops: map<string, Stop>, symbol: string, stop: Stop)
    requires index > 0 && symbol in left && left !! moved && left + moved !! stops.Keys
    ensures Places(index, left - {symbol}, moved, stops[symbol := stop]) == Places(index, left, moved, stops)[symbol := Ended(stop)]
  {
  }

  lemma PlacedNow(index: nat, left: set<string>, moved: set<string>, stops: map<string, Stop>, symbol: string)
    requires index > 0 && symbol in left && left !! moved && left + moved !! stops.Keys
    ensures symbol in Places(index, left, moved, stops) && Places(index, left, moved, stops)[symbol] == Live(index)
  {
  }

  /** A function that moved one snapshot back, or stopped, leaves everything standing. */
  lemma MovedStands(trace: seq<Snapshot>, passes: Passes, goals: Goals, index: nat, symbol: string,
                    left: set<string>, moved: set<string>, stops: map<string, Stop>, s: State, t: State)
    requires Proper(trace, passes) && index > 0 && symbol in left && Standing(trace, passes, goals, index, left, moved, stops, s)
    requires t == s || (Has(trace, index - 1, symbol) && Only(OpsOf(FuncAt(trace, index - 1, symbol)), s, t))
    requires symbol in goals && Placed(trace, passes, symbol, Live(index - 1), t, goals[symbol])
    ensures Standing(trace, passes, goals, index, left - {symbol}, moved + {symbol}, stops, t)
  {
    PlacedNow(index, left, moved, stops, symbol);
    PlacesMove(index, left, moved, stops, symbol);
    OneMoves(trace, passes, goals, Places(index, left, moved, stops), symbol, index - 1, Live(index - 1), s, t);
  }

  lemma StoppedStands(trace: seq<Snapshot>, passes: Passes, goals: Goals, index: nat, symbol: string,
                      left: set<string>, moved: set<string>, stops: map<string, Stop>, s: State, t: State, stop: Stop)
    requires Proper(trace, passes) && index > 0 && symbol in left && Standing(trace, passes, goals, index, left, moved, stops, s)
    requires t == s || (Has(trace, index - 1, symbol) && Only(OpsOf(FuncAt(trace, index - 1, symbol)), s, t))
    requires symbol in goals && Placed(trace, passes, symbol, Ended(stop), t, goals[symbol])
    ensures Standing(trace, passes, goals, index, left - {symbol}, moved, stops[symbol := stop], t)
  {
    PlacedNow(index, left, moved, stops, symbol);
    PlacesEnd(index, left, moved, stops, symbol, stop);
    OneMoves(trace, passes, goals, Places(index, left, moved, stops), symbol, index - 1, Ended(stop), s, t);
  }

  /** What a live function's turn must do, from its own reference's point of view. */
  lemma TurnKeeps(trace: seq<Snapshot>, passes: Passes, goals: Goals, index: nat, symbol: string,
                  left: set<string>, moved: set<string>, stops: map<string, Stop>, s: State, t: State, stop: Option<Stop>)
    requires index > 0 && symbol in left && Standing(trace, passes, goals, index, left, moved, stops, s)
    requires Has(trace, index, symbol)
    requires stop.None? ==> Has(trace, index - 1, symbol)
                            && Alone(trace, passes, symbol, index, s) == Alone(trace, passes, symbol, index - 1, t)
    requires stop.Some? ==> Alone(trace, passes, symbol, index, s) == (t, stop.value)
    ensures symbol in goals
    ensures Placed(trace, passes, symbol, if stop.None? then Live(index - 1) else Ended(stop.value), t, goals[symbol])
  {
    PlacedNow(index, left, moved, stops, symbol);
    assert Placed(trace, passes, symbol, Places(index, left, moved, stops)[symbol], s, goals[symbol]);
  }

  lemma LiveIsThere(trace: seq<Snapshot>, passes: Passes, goals: Goals, index: nat, symbol: string,
                    left: set<string>, moved: set<string>, stops: map<string, Stop>, s: State)
    requires symbol in left && Standing(trace, passes, goals, index, left, moved, stops, s)
    ensures Has(trace, index, symbol)
  {
    var places := Places(index, left, moved, stops);
    assert Placed(trace, passes, symbol, places[symbol], s, goals[symbol]);
  }

  /** With none left at `index`, the pass is done. */
  lemma PassDone(trace: seq<Snapshot>, passes: Passes, goals: Goals, index: nat, before: nat, moved: set<string>,
                 stops: map<string, Stop>, s: State)
    requires index == before + 1 && Standing(trace, passes, goals, index, {}, moved, stops, s)
    ensures Standing(trace, passes, goals, before, moved, {}, stops, s)
  {
    assert Places(index, {}, moved, stops) == Places(before, moved, {}, stops);
  }

  /** Live functions that can go no further stop where they are. */
  lemma AllStop(trace: seq<Snapshot>, passes: Passes, goals: Goals, index: nat, live: set<string>,
                stops: map<string, Stop>, s: State, stop: Stop)
    requires Standing(trace, passes, goals, index, live, {}, stops, s)
    requires forall a | a in live :: Has(trace, index, a) && Alone(trace, passes, a, index, s) == (s, stop)
    ensures Standing(trace, passes, goals, index, {}, {}, stops + map a | a in live :: stop, s)
  {
    var places, after := Places(index, live, {}, stops), Places(index, {}, {}, stops + map a | a in live :: stop);
    forall a | a in after
      ensures Placed(trace, passes, a, after[a], s, goals[a])
    {
      assert Placed(trace, passes, a, places[a], s, goals[a]);
    }
  }

  /** One live function's turn at the pass that made snapshot `index`. */
  method Turn(ctx: Context, trace: seq<Snapshot>, passes: Passes, symbol: string, index: nat) returns (stop: Option<Stop>)
    requires Proper(trace, passes) && index > 0 && Has(trace, index, symbol) && trace[index - 1].funcs.Some?
    modifies ctx
    ensures stop.None? ==> Has(trace, index - 1, symbol)
    ensures stop.None? ==> Alone(trace, passes, symbol, index, old(ctx.at)) == Alone(trace, passes, symbol, index - 1, ctx.at)
    ensures stop.Some? ==> stop.value.reached == index && Alone(trace, passes, symbol, index, old(ctx.at)) == (ctx.at, stop.value)
    ensures if Has(trace, index - 1, symbol)
            then Only(OpsOf(FuncAt(trace, index - 1, symbol)), old(ctx.at), ctx.at)
            else ctx.at == old(ctx.at)
  {
    var pass := trace[index].name;
    if !Has(trace, index - 1, symbol) {
      return Some(Stop(index, Some(pass), Created));
    }
    var input, output := FuncAt(trace, index - 1, symbol), FuncAt(trace, index, symbol);
    assert FuncInSnapshot(trace, index - 1, symbol);
    forall op | op !in OpsOf(input)
      ensures Same(FuncStep(passes, pass, input, output, ctx.at).0, ctx.at, op)
    {
      StepWrites(passes, pass, input, output, ctx.at, op);
    }
    stop := None;
    if input.text == output.text {
      ctx.Copy(input.Ops(), output.Ops());
      return;
    }
    if pass !in passes {
      return Some(Stop(index, Some(pass), NoBackwardPass));
    }
    if output.op in ctx.at {
      ctx.AddAll(input.op, ctx.at[output.op], 1.0);
    }
    var (after, error) := passes[pass](input, output, ctx.at);
    ctx.at := after;
    if error.Some? {
      return Some(Stop(index, Some(pass), Failed(error.value)));
    }
    ctx.EvenOutExecutions(input.blocks);
  }

  /** No function stopped before snapshot `index`. */
  predicate StoppedFrom(stops: map<string, Stop>, index: nat) {
    forall a | a in stops :: index <= stops[a].reached
  }

  lemma TurnWrites(trace: seq<Snapshot>, passes: Passes, symbol: string, index: nat, s: State, t: State)
    requires Proper(trace, passes) && 0 < index < |trace|
    requires if Has(trace, index - 1, symbol) then Only(OpsOf(FuncAt(trace, index - 1, symbol)), s, t) else t == s
    ensures Only(trace[index - 1].ops, s, t)
  {
    assert FuncInSnapshot(trace, index - 1, symbol);
  }

  /** One of the live functions still left takes its turn. */
  method NextTurn(ctx: Context, trace: seq<Snapshot>, passes: Passes, index: nat, symbol: string, ghost left: set<string>,
                  moved: set<string>, stops: map<string, Stop>, ghost goals: Goals)
    returns (newMoved: set<string>, newStops: map<string, Stop>)
    requires Proper(trace, passes) && 0 < index < |trace| && trace[index - 1].funcs.Some? && symbol in left
    requires Standing(trace, passes, goals, index, left, moved, stops, ctx.at) && StoppedFrom(stops, index)
    modifies ctx
    ensures Standing(trace, passes, goals, index, left - {symbol}, newMoved, newStops, ctx.at) && StoppedFrom(newStops, index)
    ensures Only(trace[index - 1].ops, old(ctx.at), ctx.at)
  {
    ghost var before := ctx.at;
    LiveIsThere(trace, passes, goals, index, symbol, left, moved, stops, before);
    var stop := Turn(ctx, trace, passes, symbol, index);
    TurnKeeps(trace, passes, goals, index, symbol, left, moved, stops, before, ctx.at, stop);
    TurnWrites(trace, passes, symbol, index, before, ctx.at);
    newMoved, newStops := moved, stops;
    if stop.Some? {
      StoppedStands(trace, passes, goals, index, symbol, left, moved, stops, before, ctx.at, stop.value);
      newStops := stops[symbol := stop.value];
    } else {
      MovedStands(trace, passes, goals, index, symbol, left, moved, stops, before, ctx.at);
      newMoved := moved + {symbol};
    }
  }

  lemma OnlyTwice(ops: set<Op>, s: State, t: State, u: State)
    requires Only(ops, s, t) && Only(ops, t, u)
    ensures Only(ops, s, u)
  {
  }

  /** Every live function's turn, in any order. */
  method GoBack(ctx: Context, trace: seq<Snapshot>, passes: Passes, index: nat, before: nat, live: set<string>,
                stops: map<string, Stop>, ghost goals: Goals)
    returns (moved: set<string>, newStops: map<string, Stop>)
    requires Proper(trace, passes) && index == before + 1 < |trace| && trace[before].funcs.Some?
    requires Standing(trace, passes, goals, index, live, {}, stops, ctx.at) && StoppedFrom(stops, index)
    modifies ctx
    ensures Standing(trace, passes, goals, before, moved, {}, newStops, ctx.at) && StoppedFrom(newStops, index)
    ensures Only(trace[before].ops, old(ctx.at), ctx.at)
  {
    ghost var was, written := ctx.at, trace[before].ops;
    var left := live;
    moved, newStops := {}, stops;
    while left != {}
      invariant Standing(trace, passes, goals, index, left, moved, newStops, ctx.at) && StoppedFrom(newStops, index)
      invariant Only(written, was, ctx.at)
    {
      var symbol :| symbol in left;
      ghost var start := ctx.at;
      moved, newStops := NextTurn(ctx, trace, passes, index, symbol, left, moved, newStops, goals);
      OnlyTwice(written, was, start, ctx.at);
      left := left - {symbol};
    }
    PassDone(trace, passes, goals, index, before, moved, newStops, ctx.at);
  }

  /** What the ops of snapshots `index..` hold. */
  function CollectedFrom(trace: seq<Snapshot>, index: nat, s: State): map<nat, map<Op, Profile>> {
    map i: nat | index <= i < |trace| :: Collect(s, trace[i].ops)
  }

  /** A pass writes nothing to later snapshots, so what was recorded of them is what they still hold. */
  lemma CollectedStays(trace: seq<Snapshot>, passes: Passes, index: nat, before: nat, s: State, t: State)
    requires Proper(trace, passes) && index == before + 1 < |trace| && Only(trace[before].ops, s, t)
    ensures CollectedFrom(trace, index, s)[before := Collect(t, trace[before].ops)] == CollectedFrom(trace, before, t)
  {
    forall i: nat | index <= i < |trace|
      ensures Collect(s, trace[i].ops) == Collect(t, trace[i].ops)
    {
      assert SnapshotsApart(trace, before, i);
      assert forall op | op in trace[i].ops :: Same(t, s, op);
      assert forall op | op in trace[i].ops && op in s :: s[op] == ProfileOf(s, op) && t[op] == ProfileOf(t, op);
    }
  }

  /** Some function does not stop above snapshot `index`. */
  predicate SomeReach(stops: map<string, Stop>, index: nat) {
    exists a | a in stops :: stops[a].reached <= index
  }

  /** The snapshot where a walk at `index` ends: it goes back as long as a function does not stop
      before that and what is before parses. */
  function Reached(trace: seq<Snapshot>, stops: map<string, Stop>, index: nat): (r: nat)
    requires index < |trace|
    ensures r <= index
  {
    if index == 0 || trace[index - 1].funcs.None? || !SomeReach(stops, index) then index
    else Reached(trace, stops, index - 1)
  }

  function StopsOf(goals: Goals): map<string, Stop> {
    map a | a in goals :: goals[a].1
  }

  /** Alone, a function stops no later than where it starts. */
  lemma {:induction false} AloneGoesBack(trace: seq<Snapshot>, passes: Passes, symbol: string, index: nat, s: State)
    requires Has(trace, index, symbol)
    ensures Alone(trace, passes, symbol, index, s).1.reached <= index
    decreases index
  {
    if index > 0 && Has(trace, index - 1, symbol) {
      var input, output := FuncAt(trace, index - 1, symbol), FuncAt(trace, index, symbol);
      AloneGoesBack(trace, passes, symbol, index - 1, FuncStep(passes, trace[index].name, input, output, s).0);
    }
  }

  /** A live function will not stop above where it is. */
  lemma LiveReaches(trace: seq<Snapshot>, passes: Passes, goals: Goals, index: nat, live: set<string>, stops: map<string, Stop>, s: State)
    requires Standing(trace, passes, goals, index, live, {}, stops, s) && live != {}
    ensures SomeReach(StopsOf(goals), index)
  {
    var a :| a in live;
    assert a in Places(index, live, {}, stops) && Places(index, live, {}, stops)[a] == Live(index);
    assert OnTrack(trace, passes, a, index, s, goals[a]);
    AloneGoesBack(trace, passes, a, index, s);
    assert StopsOf(goals)[a].reached <= index;
  }

  /** With none live, all have stopped above. */
  lemma NoneReach(trace: seq<Snapshot>, passes: Passes, goals: Goals, index: nat, stops: map<string, Stop>, s: State)
    requires Standing(trace, passes, goals, index, {}, {}, stops, s) && StoppedFrom(stops, index + 1)
    ensures !SomeReach(StopsOf(goals), index)
  {
    AllArrived(trace, passes, goals, index, stops, s);
    assert forall a | a in StopsOf(goals) :: a in stops && StopsOf(goals)[a] == stops[a];
  }

  /** Between passes: the walk has come to snapshot `index`, with what it recorded on the way. */
  ghost predicate Midway(trace: seq<Snapshot>, passes: Passes, goals: Goals, index: nat, live: set<string>, walk: Walk, s: State) {
    && index < |trace| && Standing(trace, passes, goals, index, live, {}, walk.stops, s)
    && walk.snapshots == CollectedFrom(trace, index, s)
    && Reached(trace, StopsOf(goals), |trace| - 1) == Reached(trace, StopsOf(goals), index)
  }

  lemma RouteGoesOn(trace: seq<Snapshot>, stops: map<string, Stop>, index: nat, before: nat)
    requires index == before + 1 < |trace| && trace[before].funcs.Some? && SomeReach(stops, index)
    ensures Reached(trace, stops, index) == Reached(trace, stops, before)
  {
  }

  /** The loop over the passes, from the last. */
  method WalkPasses(ctx: Context, trace: seq<Snapshot>, passes: Passes, started: set<string>, ghost goals: Goals)
    returns (walk: Walk, ghost reached: nat)
    requires Proper(trace, passes) && trace != []
    requires Standing(trace, passes, goals, |trace| - 1, started, {}, map[], ctx.at)
    modifies ctx
    ensures Midway(trace, passes, goals, reached, {}, walk, ctx.at) && reached == Reached(trace, StopsOf(goals), |trace| - 1)
  {
    var index, live := |trace| - 1, started;
    walk := Walk(map[index := Collect(ctx.at, trace[index].ops)], map[]);
    assert walk.snapshots == CollectedFrom(trace, index, ctx.at);
    while index > 0 && live != {} && trace[index - 1].funcs.Some?
      invariant 0 <= index < |trace|
      invariant Midway(trace, passes, goals, index, live, walk, ctx.at) && StoppedFrom(walk.stops, index + 1)
    {
      index, live, walk := OnePass(ctx, trace, passes, index, live, walk, goals);
    }
    walk := StopAll(ctx, trace, passes, goals, index, live, walk);
    reached := index;
  }

  method OnePass(ctx: Context, trace: seq<Snapshot>, passes: Passes, index: nat, live: set<string>, walk: Walk, ghost goals: Goals)
    returns (before: nat, moved: set<string>, newWalk: Walk)
    requires Proper(trace, passes) && 0 < index < |trace| && trace[index - 1].funcs.Some? && live != {}
    requires Midway(trace, passes, goals, index, live, walk, ctx.at) && StoppedFrom(walk.stops, index + 1)
    modifies ctx
    ensures before == index - 1 && Midway(trace, passes, goals, before, moved, newWalk, ctx.at) && StoppedFrom(newWalk.stops, index)
  {
    ghost var start := ctx.at;
    before := index - 1;
    LiveReaches(trace, passes, goals, index, live, walk.stops, start);
    var stops: map<string, Stop>;
    moved, stops := GoBack(ctx, trace, passes, index, before, live, walk.stops, goals);
    CollectedStays(trace, passes, index, before, start, ctx.at);
    RouteGoesOn(trace, StopsOf(goals), index, before);
    newWalk := Walk(walk.snapshots[before := Collect(ctx.at, trace[before].ops)], stops);
  }

  /** What is still live when the loop ends: it reached the start, or what was before does not parse. */
  method StopAll(ctx: Context, trace: seq<Snapshot>, passes: Passes, ghost goals: Goals, index: nat, live: set<string>, walk: Walk)
    returns (newWalk: Walk)
    requires Midway(trace, passes, goals, index, live, walk, ctx.at) && StoppedFrom(walk.stops, index + 1)
    requires index == 0 || live == {} || trace[index - 1].funcs.None?
    ensures Midway(trace, passes, goals, index, {}, newWalk, ctx.at) && index == Reached(trace, StopsOf(goals), |trace| - 1)
  {
    var stop := if index == 0 then Stop(0, None, StartReached) else Stop(index, Some(trace[index].name), DoesNotParse);
    forall a | a in live
      ensures Has(trace, index, a) && Alone(trace, passes, a, index, ctx.at) == (ctx.at, stop)
    {
      LiveIsThere(trace, passes, goals, index, a, live, {}, walk.stops, ctx.at);
    }
    AllStop(trace, passes, goals, index, live, walk.stops, ctx.at, stop);
    if live == {} {
      NoneReach(trace, passes, goals, index, walk.stops, ctx.at);
    }
    newWalk := walk.(stops := walk.stops + map a | a in live :: stop);
  }

  /** What each function comes to alone. */
  function GoalsOf(trace: seq<Snapshot>, passes: Passes, started: set<string>, s: State): (goals: Goals)
    requires trace != [] && forall a | a in started :: Has(trace, |trace| - 1, a)
    ensures goals.Keys == started
  {
    map a | a in started :: Alone(trace, passes, a, |trace| - 1, s)
  }

  /** Where the functions stand before the first pass. */
  lemma AllStandAtTheStart(trace: seq<Snapshot>, passes: Passes, started: set<string>, s: State)
    requires trace != [] && forall a | a in started :: Has(trace, |trace| - 1, a)
    ensures Standing(trace, passes, GoalsOf(trace, passes, started, s), |trace| - 1, started, {}, map[], s)
  {
  }

  lemma AllArrived(trace: seq<Snapshot>, passes: Passes, goals: Goals, index: nat, stops: map<string, Stop>, s: State)
    requires Standing(trace, passes, goals, index, {}, {}, stops, s)
    ensures stops.Keys == goals.Keys && forall a | a in stops :: Arrived(trace, a, stops[a], s, goals[a])
  {
    var places := Places(index, {}, {}, stops);
    forall a | a in stops
      ensures a in goals && Arrived(trace, a, stops[a], s, goals[a])
    {
      assert places[a] == Ended(stops[a]) && Placed(trace, passes, a, places[a], s, goals[a]);
    }
  }

  function Kept(snapshots: map<nat, map<Op, Profile>>): map<nat, map<Op, Profile>> {
    map i | i in snapshots && snapshots[i] != map[] :: snapshots[i]
  }

  /** What a walk from the profiles `start` must come to: every function profiled at the start
      stops exactly once, where and why it would stop walked alone, and its ops at every snapshot
      end with the profiles they would have alone; and every snapshot the walk came to is recorded
      with what its ops end with, but for snapshots without profiles. */
  ghost predicate WalkedRight(trace: seq<Snapshot>, passes: Passes, start: State, walk: Walk, end: State)
    requires trace != [] && trace[|trace| - 1].funcs.Some?
  {
    var last := |trace| - 1;
    && (forall a :: a in walk.stops <==> a in trace[last].funcs.value && HasProfile(trace[last].funcs.value[a], start))
    && (forall a | a in walk.stops :: Arrived(trace, a, walk.stops[a], end, Alone(trace, passes, a, last, start)))
    && (forall i: nat :: i in walk.snapshots <==> Reached(trace, walk.stops, last) <= i <= last && AnyProfile(trace[i].ops, end))
    && (forall i: nat | i in walk.snapshots && i < |trace| :: Records(walk.snapshots[i], trace[i].ops, end))
  }

  /** The function, or an op under it, has a profile. */
  ghost predicate HasProfile(f: Func, s: State) {
    f.op in s || exists op | op in f.inner :: op in s
  }

  ghost predicate AnyProfile(ops: set<Op>, s: State) {
    exists op | op in ops :: op in s
  }

  /** The profiles of all the ops that have one. */
  ghost predicate Records(profiles: map<Op, Profile>, ops: set<Op>, s: State) {
    forall op :: (op in profiles <==> op in ops && op in s) && (op in profiles ==> profiles[op] == s[op])
  }

  lemma CollectRecords(s: State, ops: set<Op>)
    ensures Records(Collect(s, ops), ops, s) && (Collect(s, ops) == map[] <==> !AnyProfile(ops, s))
  {
    if AnyProfile(ops, s) {
      var op :| op in ops && op in s;
      assert op in Collect(s, ops);
    }
  }

  lemma ProfiledAre(funcs: map<string, Func>, s: State)
    ensures forall a :: a in Profiled(funcs, s) <==> a in funcs && HasProfile(funcs[a], s)
  {
    forall a | a in funcs
      ensures a in Profiled(funcs, s) <==> HasProfile(funcs[a], s)
    {
      assert forall op :: op in funcs[a].Ops() <==> op == funcs[a].op || op in funcs[a].inner;
    }
  }

  lemma KeptRecords(trace: seq<Snapshot>, index: nat, s: State)
    ensures var kept := Kept(CollectedFrom(trace, index, s));
      && (forall i: nat :: i in kept <==> index <= i < |trace| && AnyProfile(trace[i].ops, s))
      && (forall i: nat | i in kept && i < |trace| :: Records(kept[i], trace[i].ops, s))
  {
    forall i: nat | i < |trace|
      ensures Records(Collect(s, trace[i].ops), trace[i].ops, s)
      ensures Collect(s, trace[i].ops) == map[] <==> !AnyProfile(trace[i].ops, s)
    {
      CollectRecords(s, trace[i].ops);
    }
  }

  lemma StopsAre(trace: seq<Snapshot>, goals: Goals, stops: map<string, Stop>, end: State)
    requires trace != [] && stops.Keys == goals.Keys && forall a | a in stops :: Arrived(trace, a, stops[a], end, goals[a])
    ensures stops == StopsOf(goals)
  {
  }

  lemma EndsRight(trace: seq<Snapshot>, passes: Passes, started: set<string>, start: State, goals: Goals, walk: Walk, end: State)
    requires trace != [] && trace[|trace| - 1].funcs.Some? && started == Profiled(trace[|trace| - 1].funcs.value, start)
    requires goals == GoalsOf(trace, passes, started, start) && walk.stops.Keys == goals.Keys
    requires forall a | a in walk.stops :: Arrived(trace, a, walk.stops[a], end, goals[a])
    requires walk.snapshots == CollectedFrom(trace, Reached(trace, walk.stops, |trace| - 1), end)
    ensures WalkedRight(trace, passes, start, Walk(Kept(walk.snapshots), walk.stops), end)
  {
    ProfiledAre(trace[|trace| - 1].funcs.value, start);
    KeptRecords(trace, Reached(trace, walk.stops, |trace| - 1), end);
  }

  method WalkMeasured(ctx: Context, trace: seq<Snapshot>, passes: Passes) returns (walk: Walk)
    requires Proper(trace, passes) && trace != [] && trace[|trace| - 1].funcs.Some?
    modifies ctx
    ensures WalkedRight(trace, passes, old(ctx.at), walk, ctx.at)
  {
    ghost var start := ctx.at;
    var live := Profiled(trace[|trace| - 1].funcs.value, ctx.at);
    ghost var goals, reached := GoalsOf(trace, passes, live, start), 0;
    AllStandAtTheStart(trace, passes, live, start);
    walk, reached := WalkPasses(ctx, trace, passes, live, goals);
    AllArrived(trace, passes, goals, reached, walk.stops, ctx.at);
    StopsAre(trace, goals, walk.stops, ctx.at);
    EndsRight(trace, passes, live, start, goals, walk, ctx.at);
    walk := Walk(Kept(walk.snapshots), walk.stops);
  }

  /** The whole walk: it fails exactly when there is nothing to start from. */
  method WalkBack(ctx: Context, trace: seq<Snapshot>, passes: Passes, measure: (Snapshot, State) -> Result<State, string>)
    returns (r: Result<Walk, WalkError>)
    requires Proper(trace, passes)
    modifies ctx
    ensures r.Ok? <==> trace != [] && trace[|trace| - 1].funcs.Some? && measure(trace[|trace| - 1], old(ctx.at)).Ok?
    ensures r.Err? ==> r.error == if trace == [] then NoSnapshots else if trace[|trace| - 1].funcs.None? then LastDoesNotParse
                                  else NotMeasured(measure(trace[|trace| - 1], old(ctx.at)).error)
    ensures r.Ok? ==> WalkedRight(trace, passes, measure(trace[|trace| - 1], old(ctx.at)).value, r.value, ctx.at)
  {
    if trace == [] {
      return Err(NoSnapshots);
    }
    var last := |trace| - 1;
    if trace[last].funcs.None? {
      return Err(LastDoesNotParse);
    }
    var measured := measure(trace[last], ctx.at);
    if measured.Err? {
      return Err(NotMeasured(measured.error));
    }
    ctx.at := measured.value;
    var walk := WalkMeasured(ctx, trace, passes);
    r := Ok(walk);
  }
}
