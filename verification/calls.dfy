/** A whole call: every parameter's arguments pushed by the caller and taken up by the callee. */
module Calls {
  import opened Wrappers
  import opened TypeLayouts
  import opened ByteMemory
  import opened Places
  import opened CallAbi

  /** One argument as the call carries it: a value, or a pointer to a copy in the caller's stack. */
  datatype Slot = Word(v: Val) | Pointer(addr: nat)

  /** What both sides know of a value to pass. */
  datatype Arg = Arg(shape: Shape, abi: ArgAbi)

  /** The leaves are all the scalars of the shape. */
  ghost predicate Passable(arg: Arg) {
    LaidOut(arg.shape) && (arg.abi.Leaves? ==> arg.abi.paths == ShapeLeaves(arg.shape))
  }

  function ArgOf(ty: CTy): Arg {
    Arg(ShapeOf(ty), ArgAbiFor(ty))
  }

  lemma ArgsPassable(ty: CTy)
    requires CWellFormed(ty)
    ensures Passable(ArgOf(ty))
  {
    ShapesLaidOut(ty);
    if ArgAbiFor(ty).Leaves? {
      PassedLeaves(ty);
    }
  }

  function SlotCount(arg: Arg): nat {
    if arg.abi.Leaves? then |arg.abi.paths| else 1
  }

  /** The slots hold what `v` was taken apart into; a pointer leads to a copy below `top`. */
  ghost predicate Carried(mem: Memory, top: nat, arg: Arg, v: Val, slots: seq<Slot>) {
    && Passable(arg) && HasShape(v, arg.shape) && |slots| == SlotCount(arg)
    && match arg.abi
       case Indirect => slots[0].Pointer? && slots[0].addr + arg.shape.size <= top && Load(mem, slots[0].addr, arg.shape) == v
       case Leaves(paths) => AllLead(arg.shape, paths) && forall i | 0 <= i < |paths| :: slots[i] == Word(Extract(arg.shape, v, paths[i]))
  }

  /** Nothing below `top` differs. */
  ghost predicate Below(top: nat, mem: Memory, other: Memory) {
    forall a: nat | a < top :: mem(a) == other(a)
  }

  lemma CarriedStays(mem: Memory, other: Memory, top: nat, newTop: nat, arg: Arg, v: Val, slots: seq<Slot>)
    requires Carried(mem, top, arg, v, slots) && Below(top, mem, other) && top <= newTop
    ensures Carried(other, newTop, arg, v, slots)
  {
    if arg.abi.Indirect? {
      LoadReads(mem, other, slots[0].addr, arg.shape);
    }
  }

  /** The caller's memory, with stack space handed out upwards. */
  class Stack {
    var mem: Memory
    var top: nat

    /** Pushes one value's slots. Earlier stack contents stay. */
    method LowerCallArg(arg: Arg, v: Val, out: seq<Slot>, junk: Memory) returns (all: seq<Slot>)
      requires Passable(arg) && HasShape(v, arg.shape)
      modifies this
      ensures |all| == |out| + SlotCount(arg) && all[..|out|] == out && Carried(mem, top, arg, v, all[|out|..])
      ensures old(top) <= top && Below(old(top), old(mem), mem)
    {
      match arg.abi
      case Indirect =>
        var addr := top;
        top := top + arg.shape.size;
        StoreLoads(mem, addr, arg.shape, v, junk);
        mem := Store(mem, addr, arg.shape, v, junk);
        all := out + [Pointer(addr)];
      case Leaves(paths) =>
        LeavesLead(arg.shape);
        all := out;
        for i := 0 to |paths|
          invariant |all| == |out| + i && all[..|out|] == out
          invariant forall j | 0 <= j < i :: all[|out| + j] == Word(Extract(arg.shape, v, paths[j]))
        {
          all := all + [Word(Extract(arg.shape, v, paths[i]))];
        }
    }

    /** Takes up one value from its slots: through the pointer, the one word as it is, or leaf by
        leaf into an undefined value. */
    method Reassemble(arg: Arg, args: seq<Slot>, index: nat, undef: Val, ghost v: Val) returns (r: Val, next: nat)
      requires index + SlotCount(arg) <= |args| && HasShape(undef, arg.shape)
      requires Carried(mem, top, arg, v, args[index..index + SlotCount(arg)])
      ensures r == v && next == index + SlotCount(arg)
    {
      match arg.abi
      case Indirect =>
        assert args[index..index + SlotCount(arg)][0] == args[index];
        return Load(mem, args[index].addr, arg.shape), index + 1;
      case Leaves(paths) =>
        ghost var slots := args[index..index + SlotCount(arg)];
        if |paths| == 1 && paths[0] == [] {
          assert slots[0] == args[index];
          return args[index].v, index + 1;
        }
        ghost var scalars := Scalars(arg.shape, v, paths);
        assert forall i | 0 <= i < |paths| :: args[index + i] == slots[i] == Word(scalars[i]);
        ScalarsFit(arg.shape, v, paths);
        r, next := TakeLeaves(arg.shape, paths, args, index, scalars, undef);
        FilledIsWhole(arg.shape, undef, v);
    }

    method TakeLeaves(shape: Shape, paths: seq<seq<nat>>, args: seq<Slot>, index: nat, ghost scalars: seq<Val>, undef: Val)
      returns (r: Val, next: nat)
      requires Fitting(shape, paths, scalars) && HasShape(undef, shape) && index + |paths| <= |args|
      requires forall i | 0 <= i < |paths| :: args[index + i] == Word(scalars[i])
      ensures r == Filled(shape, undef, paths, scalars, |paths|) && next == index + |paths|
    {
      r, next := undef, index;
      for i := 0 to |paths|
        invariant next == index + i && r == Filled(shape, undef, paths, scalars, i)
      {
        assert args[index + i] == Word(scalars[i]);
        var field := args[next].v;
        next := next + 1;
        r := Insert(shape, r, paths[i], field);
      }
    }
  }

  // ---- parameters ----

  /** A parameter: one value; or a tuple passed element by element, `positions` telling where each
      element is in the tuple. Either is kept in a local unless it is of a type without storage. */
  datatype Param =
    | Single(arg: Arg, stored: bool)
    | Spread(tuple: Shape, elems: seq<Arg>, positions: seq<nat>, stored: bool)

  ghost predicate GoodParam(p: Param) {
    match p
    case Single(arg, stored) => Passable(arg) && (!stored ==> arg.abi == Leaves([]))
    case Spread(tuple, elems, positions, stored) =>
      && |elems| == |positions| && (if stored then tuple.Parts? && |tuple.parts| == |elems| else elems == [])
      && (forall i | 0 <= i < |elems| :: GoodElem(p, i))
      && (forall k | 0 <= k < |elems| :: k in positions)
  }

  ghost predicate GoodElem(p: Param, i: nat)
    requires p.Spread? && i < |p.elems| == |p.positions|
  {
    p.tuple.Parts? && |p.tuple.parts| == |p.elems| && p.positions[i] < |p.elems| && Passable(p.elems[i]) && p.elems[i].shape == p.tuple.parts[p.positions[i]]
  }

  function ShapeOfParam(p: Param): Shape {
    if p.Single? then p.arg.shape else p.tuple
  }

  /** Slots of the first `n` elements. */
  function ElemSlots(elems: seq<Arg>, n: nat): nat
    requires n <= |elems|
  {
    if n == 0 then 0 else ElemSlots(elems, n - 1) + SlotCount(elems[n - 1])
  }

  function ParamSlots(p: Param): nat {
    if p.Single? then SlotCount(p.arg) else ElemSlots(p.elems, |p.elems|)
  }

  ghost predicate ElemCarried(mem: Memory, top: nat, p: Param, v: Val, slots: seq<Slot>, i: nat)
    requires p.Spread? && i < |p.elems| == |p.positions|
  {
    && v.Aggregate? && p.positions[i] < |v.elems| && ElemSlots(p.elems, i) + SlotCount(p.elems[i]) <= |slots|
    && Carried(mem, top, p.elems[i], v.elems[p.positions[i]], slots[ElemSlots(p.elems, i)..ElemSlots(p.elems, i) + SlotCount(p.elems[i])])
  }

  ghost predicate ParamCarried(mem: Memory, top: nat, p: Param, v: Val, slots: seq<Slot>) {
    && GoodParam(p) && HasShape(v, ShapeOfParam(p)) && |slots| == ParamSlots(p)
    && match p
       case Single(arg, _) => Carried(mem, top, arg, v, slots)
       case Spread(_, elems, _, _) => forall i: nat | i < |elems| :: ElemCarried(mem, top, p, v, slots, i)
  }

  lemma {:induction false} ElemSlotsGrow(elems: seq<Arg>, i: nat, j: nat)
    requires i <= j <= |elems|
    ensures ElemSlots(elems, i) <= ElemSlots(elems, j)
  {
    if i < j {
      ElemSlotsGrow(elems, i, j - 1);
    }
  }

  lemma ParamStays(mem: Memory, other: Memory, top: nat, newTop: nat, p: Param, v: Val, slots: seq<Slot>)
    requires ParamCarried(mem, top, p, v, slots) && Below(top, mem, other) && top <= newTop
    ensures ParamCarried(other, newTop, p, v, slots)
  {
    if p.Single? {
      CarriedStays(mem, other, top, newTop, p.arg, v, slots);
    } else {
      forall i: nat | i < |p.elems|
        ensures ElemCarried(other, newTop, p, v, slots, i)
      {
        assert ElemCarried(mem, top, p, v, slots, i);
        var lo := ElemSlots(p.elems, i);
        CarriedStays(mem, other, top, newTop, p.elems[i], v.elems[p.positions[i]], slots[lo..lo + SlotCount(p.elems[i])]);
      }
    }
  }

  lemma SameSlice(before: seq<Slot>, all: seq<Slot>, start: nat, lo: nat, n: nat)
    requires start + lo + n <= |before| <= |all| && before == all[..|before|]
    ensures before[start..][lo..lo + n] == all[start..][lo..lo + n]
  {
    var x, y := before[start..][lo..lo + n], all[start..][lo..lo + n];
    forall k | 0 <= k < n
      ensures x[k] == y[k]
    {
      assert before[start + lo + k] == all[start + lo + k];
    }
  }

  /** Pushing one parameter: a spread tuple is taken apart first. */
  method PushParam(s: Stack, p: Param, v: Val, out: seq<Slot>, junk: Memory) returns (all: seq<Slot>)
    requires GoodParam(p) && HasShape(v, ShapeOfParam(p))
    modifies s
    ensures |all| == |out| + ParamSlots(p) && all[..|out|] == out && ParamCarried(s.mem, s.top, p, v, all[|out|..])
    ensures old(s.top) <= s.top && Below(old(s.top), old(s.mem), s.mem)
  {
    if p.Single? {
      all := s.LowerCallArg(p.arg, v, out, junk);
    } else {
      all := PushSpread(s, p, v, out, junk);
    }
  }

  method PushSpread(s: Stack, p: Param, v: Val, out: seq<Slot>, junk: Memory) returns (all: seq<Slot>)
    requires p.Spread? && GoodParam(p) && HasShape(v, p.tuple)
    modifies s
    ensures |all| == |out| + ParamSlots(p) && all[..|out|] == out && ParamCarried(s.mem, s.top, p, v, all[|out|..])
    ensures old(s.top) <= s.top && Below(old(s.top), old(s.mem), s.mem)
  {
    all := out;
    for i := 0 to |p.elems|
      invariant |all| == |out| + ElemSlots(p.elems, i) && all[..|out|] == out
      invariant old(s.top) <= s.top && Below(old(s.top), old(s.mem), s.mem)
      invariant forall j: nat | j < i :: ElemCarried(s.mem, s.top, p, v, all[|out|..], j)
    {
      assert GoodElem(p, i);
      ghost var mem, top, before := s.mem, s.top, all;
      all := s.LowerCallArg(p.elems[i], v.elems[p.positions[i]], all, junk);
      forall j: nat | j < i + 1
        ensures ElemCarried(s.mem, s.top, p, v, all[|out|..], j)
      {
        var lo, n := ElemSlots(p.elems, j), SlotCount(p.elems[j]);
        if j < i {
          ElemSlotsGrow(p.elems, j + 1, i);
          assert ElemCarried(mem, top, p, v, before[|out|..], j);
          SameSlice(before, all, |out|, lo, n);
          CarriedStays(mem, s.mem, top, s.top, p.elems[j], v.elems[p.positions[j]], before[|out|..][lo..lo + n]);
        } else {
          assert all[|out|..][lo..lo + n] == all[|before|..];
        }
      }
    }
  }

  /** Taking up one parameter. */
  method TakeParam(s: Stack, p: Param, args: seq<Slot>, index: nat, undef: Shape -> Val, ghost v: Val) returns (r: Option<Val>, next: nat)
    requires forall shape :: HasShape(undef(shape), shape)
    requires index + ParamSlots(p) <= |args| && ParamCarried(s.mem, s.top, p, v, args[index..index + ParamSlots(p)])
    ensures next == index + ParamSlots(p) && r == if p.stored then Some(v) else None
  {
    if !p.stored {
      return None, index;
    }
    if p.Single? {
      var value;
      value, next := s.Reassemble(p.arg, args, index, undef(p.arg.shape), v);
      r := Some(value);
    } else {
      var value;
      value, next := TakeSpread(s, p, args, index, undef, v);
      r := Some(value);
    }
  }

  lemma SliceOfSlice(args: seq<Slot>, index: nat, len: nat, lo: nat, n: nat)
    requires index + len <= |args| && lo + n <= len
    ensures args[index..index + len][lo..lo + n] == args[index + lo..index + lo + n]
  {
    var x, y := args[index..index + len], args[index + lo..index + lo + n];
    var z := x[lo..lo + n];
    forall k | 0 <= k < n
      ensures z[k] == y[k]
    {
      assert x[lo + k] == args[index + lo + k];
    }
  }

  method TakeSpread(s: Stack, p: Param, args: seq<Slot>, index: nat, undef: Shape -> Val, ghost v: Val) returns (r: Val, next: nat)
    requires forall shape :: HasShape(undef(shape), shape)
    requires p.Spread? && p.stored && index + ParamSlots(p) <= |args| && ParamCarried(s.mem, s.top, p, v, args[index..index + ParamSlots(p)])
    ensures r == v && next == index + ParamSlots(p)
  {
    r, next := undef(p.tuple), index;
    assert HasShape(r, p.tuple);
    ghost var slots := args[index..index + ParamSlots(p)];
    for i := 0 to |p.elems|
      invariant next == index + ElemSlots(p.elems, i)
      invariant r.Aggregate? && |r.elems| == |p.elems|
      invariant forall j: nat | j < i :: p.positions[j] < |p.elems| && r.elems[p.positions[j]] == v.elems[p.positions[j]]
    {
      assert GoodElem(p, i) && ElemCarried(s.mem, s.top, p, v, slots, i);
      ghost var lo, n := ElemSlots(p.elems, i), SlotCount(p.elems[i]);
      ElemSlotsGrow(p.elems, i + 1, |p.elems|);
      SliceOfSlice(args, index, |slots|, lo, n);
      var element;
      element, next := s.Reassemble(p.elems[i], args, next, undef(p.elems[i].shape), v.elems[p.positions[i]]);
      r := Aggregate(r.elems[p.positions[i] := element]);
    }
    forall k | 0 <= k < |p.elems|
      ensures r.elems[k] == v.elems[k]
    {
      assert k in p.positions;
    }
  }

  // ---- the whole list ----

  /** Slots of the first `n` parameters. */
  function SlotsBefore(params: seq<Param>, n: nat): nat
    requires n <= |params|
  {
    if n == 0 then 0 else SlotsBefore(params, n - 1) + ParamSlots(params[n - 1])
  }

  ghost predicate PlaceCarried(mem: Memory, top: nat, params: seq<Param>, vs: seq<Val>, slots: seq<Slot>, i: nat)
    requires i < |params| == |vs|
  {
    var lo := SlotsBefore(params, i);
    lo + ParamSlots(params[i]) <= |slots| && ParamCarried(mem, top, params[i], vs[i], slots[lo..lo + ParamSlots(params[i])])
  }

  lemma {:induction false} SlotsGrow(params: seq<Param>, i: nat, j: nat)
    requires i <= j <= |params|
    ensures SlotsBefore(params, i) <= SlotsBefore(params, j)
  {
    if i < j {
      SlotsGrow(params, i, j - 1);
    }
  }

  ghost predicate GoodCall(params: seq<Param>, vs: seq<Val>) {
    |params| == |vs| && forall i | 0 <= i < |params| :: GoodParam(params[i]) && HasShape(vs[i], ShapeOfParam(params[i]))
  }

  lemma PlaceStays(mem: Memory, other: Memory, top: nat, newTop: nat, params: seq<Param>, vs: seq<Val>, before: seq<Slot>,
      all: seq<Slot>, j: nat)
    requires j < |params| == |vs| && PlaceCarried(mem, top, params, vs, before, j)
    requires Below(top, mem, other) && top <= newTop && |before| <= |all| && before == all[..|before|]
    ensures PlaceCarried(other, newTop, params, vs, all, j)
  {
    var lo, n := SlotsBefore(params, j), ParamSlots(params[j]);
    assert before[lo..lo + n] == all[..|before|][lo..lo + n] == all[lo..lo + n];
    ParamStays(mem, other, top, newTop, params[j], vs[j], before[lo..lo + n]);
  }

  /** The caller. */
  method PushAll(s: Stack, params: seq<Param>, vs: seq<Val>, junk: Memory) returns (args: seq<Slot>)
    requires GoodCall(params, vs)
    modifies s
    ensures |args| == SlotsBefore(params, |params|)
    ensures forall i: nat | i < |params| :: PlaceCarried(s.mem, s.top, params, vs, args, i)
  {
    args := [];
    for i := 0 to |params|
      invariant |args| == SlotsBefore(params, i)
      invariant forall j: nat | j < i :: PlaceCarried(s.mem, s.top, params, vs, args, j)
    {
      ghost var mem, top, before := s.mem, s.top, args;
      args := PushParam(s, params[i], vs[i], args, junk);
      forall j: nat | j < i
        ensures PlaceCarried(s.mem, s.top, params, vs, args, j)
      {
        SlotsGrow(params, j + 1, i);
        PlaceStays(mem, s.mem, top, s.top, params, vs, before, args, j);
      }
      assert args[|before|..] == args[|before|..|before| + ParamSlots(params[i])];
    }
  }

  /** The callee. */
  method TakeAll(s: Stack, params: seq<Param>, args: seq<Slot>, undef: Shape -> Val, ghost vs: seq<Val>)
    returns (rs: seq<Option<Val>>, next: nat)
    requires |params| == |vs| && |args| == SlotsBefore(params, |params|) && forall shape :: HasShape(undef(shape), shape)
    requires forall i: nat | i < |params| :: PlaceCarried(s.mem, s.top, params, vs, args, i)
    ensures next == |args| && |rs| == |params|
    ensures forall i: nat | i < |params| :: rs[i] == if params[i].stored then Some(vs[i]) else None
  {
    rs, next := [], 0;
    for i := 0 to |params|
      invariant next == SlotsBefore(params, i) && |rs| == i
      invariant forall j: nat | j < i :: rs[j] == if params[j].stored then Some(vs[j]) else None
    {
      assert PlaceCarried(s.mem, s.top, params, vs, args, i);
      SlotsGrow(params, i + 1, |params|);
      var r;
      r, next := TakeParam(s, params[i], args, next, undef, vs[i]);
      rs := rs + [r];
    }
  }

  /** For every parameter list: the callee takes up exactly the slots the caller pushed, and gets
      back every value it keeps, whatever undefined values and padding are. */
  method Cross(s: Stack, params: seq<Param>, vs: seq<Val>, undef: Shape -> Val, junk: Memory)
    returns (args: seq<Slot>, rs: seq<Option<Val>>, next: nat)
    requires GoodCall(params, vs) && forall shape :: HasShape(undef(shape), shape)
    modifies s
    ensures next == |args| == SlotsBefore(params, |params|) && |rs| == |params|
    ensures forall i: nat | i < |params| :: rs[i] == if params[i].stored then Some(vs[i]) else None
  {
    args := PushAll(s, params, vs, junk);
    rs, next := TakeAll(s, params, args, undef, vs);
  }

  // ---- parameters by their source types ----

  /** Every type but the empty tuple and the never type has storage. */
  predicate HasStorage(ty: Ty) {
    !ty.Never? && !(ty.Tuple? && ty.fields == [])
  }

  function WholeParam(ty: Ty): Param {
    Single(ArgOf(Convert(ty)), HasStorage(ty))
  }

  /** A tuple whose elements are arguments of their own, in source order. */
  function SpreadParam(ty: Ty): (p: Param)
    requires ty.Tuple?
  {
    Spread(ShapeOf(Convert(ty)), seq(|ty.fields|, i requires 0 <= i < |ty.fields| => ArgOf(Convert(ty.fields[i]))),
           seq(|ty.fields|, i requires 0 <= i < |ty.fields| => Position(ty.order, i)), HasStorage(ty))
  }

  /** The last parameter of a "rust-call" is spread; that must be a tuple. */
  predicate SpreadsNoTuple(tys: seq<Ty>, spread: bool) {
    spread && tys != [] && !tys[|tys| - 1].Tuple?
  }

  function ParamAt(tys: seq<Ty>, spread: bool, i: nat): Param
    requires i < |tys| && !SpreadsNoTuple(tys, spread)
  {
    if spread && i == |tys| - 1 then SpreadParam(tys[i]) else WholeParam(tys[i])
  }

  function ParamsOf(tys: seq<Ty>, spread: bool): (params: seq<Param>)
    requires !SpreadsNoTuple(tys, spread)
    ensures |params| == |tys|
  {
    seq(|tys|, i requires 0 <= i < |tys| => ParamAt(tys, spread, i))
  }

  lemma WholeIsGood(ty: Ty)
    requires WellFormed(ty)
    ensures GoodParam(WholeParam(ty)) && ShapeOfParam(WholeParam(ty)) == ShapeOf(Convert(ty))
  {
    ConvertedWell(ty);
    ArgsPassable(Convert(ty));
  }

  /** Element `i` is the tuple's part at its place in memory order. */
  lemma ElementPlaces(ty: Ty, i: nat)
    requires WellFormed(ty) && ty.Tuple? && i < |ty.fields|
    ensures var s, k := ShapeOf(Convert(ty)), Position(ty.order, i);
      && s.Parts? && k < |s.parts| == |ty.fields| && s.parts[k] == ShapeOf(Convert(ty.fields[i]))
      && Position(ty.order, ty.order[i]) == i
  {
    assert i in ty.order && ty.order[i] in ty.order;
  }

  lemma SpreadIsGood(ty: Ty)
    requires WellFormed(ty) && ty.Tuple?
    ensures GoodParam(SpreadParam(ty)) && ShapeOfParam(SpreadParam(ty)) == ShapeOf(Convert(ty))
  {
    var p := SpreadParam(ty);
    forall i | 0 <= i < |p.elems|
      ensures GoodElem(p, i)
    {
      ElementPlaces(ty, i);
      ConvertedWell(ty.fields[i]);
      ArgsPassable(Convert(ty.fields[i]));
    }
    forall k | 0 <= k < |p.elems|
      ensures k in p.positions
    {
      ElementPlaces(ty, k);
      assert p.positions[ty.order[k]] == k;
    }
  }

  ghost predicate ValuesFit(tys: seq<Ty>, vs: seq<Val>) {
    |vs| == |tys| && forall i | 0 <= i < |tys| :: HasShape(vs[i], ShapeOf(Convert(tys[i])))
  }

  /** Every list of parameter types makes a call on which both sides agree. */
  lemma EveryCallIsGood(tys: seq<Ty>, spread: bool, vs: seq<Val>)
    requires AllWellFormed(tys) && ValuesFit(tys, vs) && !SpreadsNoTuple(tys, spread)
    ensures GoodCall(ParamsOf(tys, spread), vs)
  {
    forall i: nat | i < |tys|
      ensures GoodParam(ParamAt(tys, spread, i)) && ShapeOfParam(ParamAt(tys, spread, i)) == ShapeOf(Convert(tys[i]))
    {
      assert WellFormed(tys[i]);
      if spread && i == |tys| - 1 {
        SpreadIsGood(tys[i]);
      } else {
        WholeIsGood(tys[i]);
      }
    }
  }

  /** A call with parameters of any types, the last of them spread or not: refused exactly when what
      is to be spread is no tuple; otherwise every parameter that has storage is what was passed. */
  method CrossTypes(s: Stack, tys: seq<Ty>, spread: bool, vs: seq<Val>, undef: Shape -> Val, junk: Memory)
    returns (r: Result<seq<Option<Val>>, string>)
    requires AllWellFormed(tys) && ValuesFit(tys, vs) && forall shape :: HasShape(undef(shape), shape)
    modifies s
    ensures r.Err? <==> SpreadsNoTuple(tys, spread)
    ensures r.Ok? ==> |r.value| == |tys|
    ensures r.Ok? ==> forall i | 0 <= i < |tys| :: r.value[i] == if HasStorage(tys[i]) then Some(vs[i]) else None
  {
    if spread && tys != [] && !tys[|tys| - 1].Tuple? {
      return Err("spread argument is not a tuple");
    }
    EveryCallIsGood(tys, spread, vs);
    var args, rs, next := Cross(s, ParamsOf(tys, spread), vs, undef, junk);
    r := Ok(rs);
  }
}
