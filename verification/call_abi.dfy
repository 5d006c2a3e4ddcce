/** How values cross a call: the caller takes them apart, the callee puts them together again. */
module CallAbi {
  import opened Wrappers
  import opened TypeLayouts
  import opened ByteMemory
  import opened Places

  // ---- the scalars of a shape ----

  /** The leaves `ls` of part `k`, as leaves of the whole. */
  function Prefixed(k: nat, ls: seq<seq<nat>>): (r: seq<seq<nat>>)
    ensures |r| == |ls|
  {
    seq(|ls|, i requires 0 <= i < |ls| => [k] + ls[i])
  }

  /** Paths to the scalars of some size, in memory order. */
  function ShapeLeaves(s: Shape): seq<seq<nat>>
    decreases s, if s.Parts? then |s.parts| + 1 else 0
  {
    match s
    case Scalar(size) => if size == 0 then [] else [[]]
    case Parts(_, _, parts) => PartLeaves(s, |parts|)
  }

  /** Those of the first `n` parts. */
  function PartLeaves(s: Shape, n: nat): seq<seq<nat>>
    requires s.Parts? && n <= |s.parts|
    decreases s, n
  {
    if n == 0 then [] else PartLeaves(s, n - 1) + Prefixed(n - 1, ShapeLeaves(s.parts[n - 1]))
  }

  ghost predicate AllLead(s: Shape, ls: seq<seq<nat>>) {
    forall i | 0 <= i < |ls| :: Leads(s, ls[i])
  }

  lemma {:induction false} LeavesLead(s: Shape)
    requires LaidOut(s)
    ensures AllLead(s, ShapeLeaves(s))
    decreases s, if s.Parts? then |s.parts| + 1 else 0
  {
    if s.Parts? {
      PartLeavesLead(s, |s.parts|);
    }
  }

  lemma {:induction false} PartLeavesLead(s: Shape, n: nat)
    requires LaidOut(s) && s.Parts? && n <= |s.parts|
    ensures AllLead(s, PartLeaves(s, n))
    decreases s, n
  {
    if n > 0 {
      PartLeavesLead(s, n - 1);
      LeavesLead(s.parts[n - 1]);
      PrefixedLead(s, n - 1, ShapeLeaves(s.parts[n - 1]));
    }
  }

  lemma PrefixedLead(s: Shape, k: nat, ls: seq<seq<nat>>)
    requires s.Parts? && |s.offsets| == |s.parts| && k < |s.parts| && AllLead(s.parts[k], ls)
    ensures AllLead(s, Prefixed(k, ls))
  {
    forall i | 0 <= i < |ls|
      ensures Leads(s, Prefixed(k, ls)[i])
    {
      assert Leads(s.parts[k], ls[i]) && ([k] + ls[i])[1..] == ls[i];
    }
  }

  // ---- taking apart and putting together ----

  /** What is extracted at each path. */
  function Scalars(s: Shape, v: Val, ls: seq<seq<nat>>): (r: seq<Val>)
    requires HasShape(v, s) && AllLead(s, ls)
    ensures |r| == |ls|
  {
    seq(|ls|, i requires 0 <= i < |ls| => Extract(s, v, ls[i]))
  }

  ghost predicate Fitting(s: Shape, ls: seq<seq<nat>>, scalars: seq<Val>) {
    |scalars| == |ls| && forall i | 0 <= i < |ls| :: Leads(s, ls[i]) && HasShape(scalars[i], ShapeAt(s, ls[i]))
  }

  /** `current` with the first `n` scalars inserted at their paths. */
  function Filled(s: Shape, current: Val, ls: seq<seq<nat>>, scalars: seq<Val>, n: nat): (r: Val)
    requires HasShape(current, s) && Fitting(s, ls, scalars) && n <= |ls|
    ensures HasShape(r, s)
  {
    if n == 0 then current else Insert(s, Filled(s, current, ls, scalars, n - 1), ls[n - 1], scalars[n - 1])
  }

  lemma ScalarsFit(s: Shape, v: Val, ls: seq<seq<nat>>)
    requires HasShape(v, s) && AllLead(s, ls)
    ensures Fitting(s, ls, Scalars(s, v, ls))
  {
  }

  /** Filling one part's leaves changes that part only, as filling the part itself would. */
  lemma {:induction false} FilledPart(s: Shape, current: Val, k: nat, ls: seq<seq<nat>>, scalars: seq<Val>, n: nat)
    requires s.Parts? && |s.offsets| == |s.parts| && k < |s.parts| && HasShape(current, s) && n <= |ls|
    requires Fitting(s.parts[k], ls, scalars) && Fitting(s, Prefixed(k, ls), scalars)
    ensures Filled(s, current, Prefixed(k, ls), scalars, n)
         == Aggregate(current.elems[k := Filled(s.parts[k], current.elems[k], ls, scalars, n)])
  {
    if n > 0 {
      FilledPart(s, current, k, ls, scalars, n - 1);
      assert Prefixed(k, ls)[n - 1][1..] == ls[n - 1];
    }
  }

  lemma {:induction false} FilledAppend(s: Shape, current: Val, u: seq<seq<nat>>, us: seq<Val>, v: seq<seq<nat>>, vs: seq<Val>, n: nat)
    requires HasShape(current, s) && Fitting(s, u, us) && Fitting(s, v, vs) && n <= |v|
    ensures Fitting(s, u + v, us + vs)
    ensures Filled(s, current, u + v, us + vs, |u| + n) == Filled(s, Filled(s, current, u, us, |u|), v, vs, n)
  {
    if n > 0 {
      FilledAppend(s, current, u, us, v, vs, n - 1);
    } else {
      FilledPrefix(s, current, u, us, v, vs, |u|);
    }
  }

  lemma {:induction false} FilledPrefix(s: Shape, current: Val, u: seq<seq<nat>>, us: seq<Val>, v: seq<seq<nat>>, vs: seq<Val>, n: nat)
    requires HasShape(current, s) && Fitting(s, u, us) && Fitting(s, v, vs) && n <= |u|
    ensures Fitting(s, u + v, us + vs)
    ensures Filled(s, current, u + v, us + vs, n) == Filled(s, current, u, us, n)
  {
    if n > 0 {
      FilledPrefix(s, current, u, us, v, vs, n - 1);
    }
  }

  /** Every scalar put back in its place, into any value of the shape, gives the value. */
  lemma {:induction false} FilledIsWhole(s: Shape, undef: Val, v: Val)
    requires LaidOut(s) && HasShape(v, s) && HasShape(undef, s)
    ensures AllLead(s, ShapeLeaves(s)) && Fitting(s, ShapeLeaves(s), Scalars(s, v, ShapeLeaves(s)))
    ensures Filled(s, undef, ShapeLeaves(s), Scalars(s, v, ShapeLeaves(s)), |ShapeLeaves(s)|) == v
    decreases s, if s.Parts? then |s.parts| + 1 else 0
  {
    LeavesLead(s);
    if s.Parts? {
      FilledParts(s, undef, v, |s.parts|);
      assert v.elems[|s.parts|..] == [];
    } else if s.size > 0 {
      assert Filled(s, undef, [[]], [v], 0) == undef;
    }
  }

  /** After the leaves of the first `n` parts, those parts are the value's. */
  lemma {:induction false} FilledParts(s: Shape, undef: Val, v: Val, n: nat)
    requires LaidOut(s) && s.Parts? && HasShape(v, s) && HasShape(undef, s) && n <= |s.parts|
    ensures AllLead(s, PartLeaves(s, n)) && Fitting(s, PartLeaves(s, n), Scalars(s, v, PartLeaves(s, n)))
    ensures Filled(s, undef, PartLeaves(s, n), Scalars(s, v, PartLeaves(s, n)), |PartLeaves(s, n)|)
         == Mixed(v, undef, n)
    decreases s, n
  {
    PartLeavesLead(s, n);
    if n > 0 {
      var k := n - 1;
      LeavesLead(s.parts[k]);
      FilledParts(s, undef, v, k);
      FilledIsWhole(s.parts[k], undef.elems[k], v.elems[k]);
      var u, ls := PartLeaves(s, k), ShapeLeaves(s.parts[k]);
      var us, vs := Scalars(s, v, u), Scalars(s.parts[k], v.elems[k], ls);
      ScalarsOfMore(s, v, k, u, ls, us, vs);
      FilledNext(s, undef, v, k, u, ls, us, vs, PartLeaves(s, n), us + vs, |PartLeaves(s, n)|);
    }
  }

  lemma {:induction false} ScalarsOfMore(s: Shape, v: Val, k: nat, u: seq<seq<nat>>, ls: seq<seq<nat>>, us: seq<Val>, vs: seq<Val>)
    requires s.Parts? && |s.offsets| == |s.parts| && HasShape(v, s) && k < |s.parts|
    requires AllLead(s, u) && AllLead(s.parts[k], ls) && us == Scalars(s, v, u) && vs == Scalars(s.parts[k], v.elems[k], ls)
    ensures AllLead(s, u + Prefixed(k, ls)) && Scalars(s, v, u + Prefixed(k, ls)) == us + vs
    ensures Fitting(s, Prefixed(k, ls), vs)
  {
    PrefixedScalars(s, v, k, ls);
    ScalarsAppend(s, v, u, Prefixed(k, ls));
  }

  lemma ScalarsAppend(s: Shape, v: Val, u: seq<seq<nat>>, p: seq<seq<nat>>)
    requires HasShape(v, s) && AllLead(s, u) && AllLead(s, p)
    ensures AllLead(s, u + p) && Scalars(s, v, u + p) == Scalars(s, v, u) + Scalars(s, v, p)
  {
  }

  /** The elements of `v` up to `k`, and of `undef` from there on. */
  function Mixed(v: Val, undef: Val, k: nat): Val
    requires v.Aggregate? && undef.Aggregate? && k <= |v.elems| && |v.elems| == |undef.elems|
  {
    Aggregate(v.elems[..k] + undef.elems[k..])
  }

  lemma MixedHasShape(s: Shape, v: Val, undef: Val, k: nat)
    requires s.Parts? && HasShape(v, s) && HasShape(undef, s) && k <= |s.parts|
    ensures HasShape(Mixed(v, undef, k), s)
  {
  }

  /** `more` and `scalars` are those of the first `k` parts and of part `k`. */
  lemma {:induction false} FilledNext(s: Shape, undef: Val, v: Val, k: nat, u: seq<seq<nat>>, ls: seq<seq<nat>>, us: seq<Val>,
      vs: seq<Val>, more: seq<seq<nat>>, scalars: seq<Val>, n: nat)
    requires s.Parts? && |s.offsets| == |s.parts| && HasShape(v, s) && HasShape(undef, s) && k < |s.parts|
    requires Fitting(s, u, us) && Fitting(s.parts[k], ls, vs) && Fitting(s, Prefixed(k, ls), vs)
    requires Filled(s, undef, u, us, |u|) == Mixed(v, undef, k)
    requires Filled(s.parts[k], undef.elems[k], ls, vs, |ls|) == v.elems[k]
    requires more == u + Prefixed(k, ls) && scalars == us + vs && n == |u| + |ls|
    ensures Fitting(s, more, scalars) && Filled(s, undef, more, scalars, n) == Mixed(v, undef, k + 1)
  {
    var mid := Mixed(v, undef, k);
    MixedHasShape(s, v, undef, k);
    MixedNext(v, undef, k);
    FilledThrough(s, undef, mid, k, u, ls, us, vs, v.elems[k]);
  }

  lemma MixedNext(v: Val, undef: Val, k: nat)
    requires v.Aggregate? && undef.Aggregate? && k < |v.elems| && |v.elems| == |undef.elems|
    ensures Mixed(v, undef, k).elems[k] == undef.elems[k]
    ensures Mixed(v, undef, k + 1) == Aggregate(Mixed(v, undef, k).elems[k := v.elems[k]])
  {
    assert Mixed(v, undef, k + 1).elems == Mixed(v, undef, k).elems[k := v.elems[k]];
  }

  lemma {:induction false} FilledThrough(s: Shape, undef: Val, mid: Val, k: nat, u: seq<seq<nat>>, ls: seq<seq<nat>>, us: seq<Val>,
      vs: seq<Val>, last: Val)
    requires s.Parts? && |s.offsets| == |s.parts| && HasShape(undef, s) && HasShape(mid, s) && k < |s.parts|
    requires Fitting(s, u, us) && Fitting(s.parts[k], ls, vs) && Fitting(s, Prefixed(k, ls), vs)
    requires Filled(s, undef, u, us, |u|) == mid && Filled(s.parts[k], mid.elems[k], ls, vs, |ls|) == last
    ensures Fitting(s, u + Prefixed(k, ls), us + vs)
    ensures Filled(s, undef, u + Prefixed(k, ls), us + vs, |u| + |ls|) == Aggregate(mid.elems[k := last])
  {
    FilledAppend(s, undef, u, us, Prefixed(k, ls), vs, |ls|);
    FilledPart(s, mid, k, ls, vs, |ls|);
  }

  lemma PrefixedScalars(s: Shape, v: Val, k: nat, ls: seq<seq<nat>>)
    requires s.Parts? && |s.offsets| == |s.parts| && HasShape(v, s) && k < |s.parts| && AllLead(s.parts[k], ls)
    ensures AllLead(s, Prefixed(k, ls))
    ensures Scalars(s, v, Prefixed(k, ls)) == Scalars(s.parts[k], v.elems[k], ls)
    ensures Fitting(s, Prefixed(k, ls), Scalars(s, v, Prefixed(k, ls)))
  {
    PrefixedLead(s, k, ls);
    assert forall i | 0 <= i < |ls| :: Prefixed(k, ls)[i][1..] == ls[i];
  }

  /** A shape of no size has no scalars to pass. */
  lemma {:induction false} NothingToPass(s: Shape)
    requires LaidOut(s) && s.size == 0
    ensures ShapeLeaves(s) == []
    decreases s, if s.Parts? then |s.parts| + 1 else 0
  {
    if s.Parts? {
      NoPartLeaves(s, |s.parts|);
    }
  }

  lemma {:induction false} NoPartLeaves(s: Shape, n: nat)
    requires LaidOut(s) && s.Parts? && s.size == 0 && n <= |s.parts|
    ensures PartLeaves(s, n) == []
    decreases s, n
  {
    if n > 0 {
      assert Inside(s, n - 1);
      NoPartLeaves(s, n - 1);
      NothingToPass(s.parts[n - 1]);
    }
  }

  // ---- classification ----

  datatype ArgAbi = Leaves(paths: seq<seq<nat>>) | Indirect

  predicate IsScalar(ty: CTy) {
    ty.CInt? || ty.CFloat? || ty.CPointer?
  }

  /** Holds an array, at any depth. */
  predicate HasArray(ty: CTy) {
    ty.CArray? || (ty.CStruct? && exists k :: 0 <= k < |ty.fields| && HasArray(ty.fields[k]))
  }

  /** Leaves in field order, units skipped; none where there is an array. */
  function SimpleLeaves(ty: CTy): Option<seq<seq<nat>>>
    decreases ty, if ty.CStruct? then |ty.fields| + 1 else 0
  {
    if IsScalar(ty) then Some([[]])
    else if ty.CUnit? then Some([])
    else if ty.CArray? then None
    else FieldLeaves(ty, |ty.fields|)
  }

  function FieldLeaves(ty: CTy, n: nat): Option<seq<seq<nat>>>
    requires ty.CStruct? && n <= |ty.fields|
    decreases ty, n
  {
    if n == 0 then Some([])
    else
      var before, last := FieldLeaves(ty, n - 1), SimpleLeaves(ty.fields[n - 1]);
      if before.None? || last.None? then None else Some(before.value + Prefixed(n - 1, last.value))
  }

  /** Collects the leaves under a prefix; false at the first array met. */
  method CollectSimpleAbiFields(ty: CTy, prefix: seq<nat>, out: seq<seq<nat>>) returns (ok: bool, all: seq<seq<nat>>)
    ensures ok <==> SimpleLeaves(ty).Some?
    ensures ok ==> all == out + Under(prefix, SimpleLeaves(ty).value)
    decreases ty
  {
    if IsScalar(ty) {
      assert prefix + [] == prefix;
      assert Under(prefix, [[]]) == [prefix];
      return true, out + [prefix];
    }
    if ty.CUnit? {
      return true, out;
    }
    if ty.CArray? {
      return false, out;
    }
    all := out;
    for n := 0 to |ty.fields|
      invariant FieldLeaves(ty, n).Some? && all == out + Under(prefix, FieldLeaves(ty, n).value)
    {
      ghost var before := all;
      ok, all := CollectSimpleAbiFields(ty.fields[n], prefix + [n], all);
      if !ok {
        FieldLeavesStop(ty, n + 1, |ty.fields|);
        return;
      }
      UnderPrefixed(prefix, n, SimpleLeaves(ty.fields[n]).value);
      assert Under(prefix, FieldLeaves(ty, n + 1).value)
          == Under(prefix, FieldLeaves(ty, n).value) + Under(prefix, Prefixed(n, SimpleLeaves(ty.fields[n]).value));
    }
    ok := true;
  }

  /** Leaves with a prefix in front. */
  function Under(prefix: seq<nat>, ls: seq<seq<nat>>): seq<seq<nat>> {
    seq(|ls|, i requires 0 <= i < |ls| => prefix + ls[i])
  }

  lemma UnderPrefixed(prefix: seq<nat>, n: nat, ls: seq<seq<nat>>)
    ensures Under(prefix + [n], ls) == Under(prefix, Prefixed(n, ls))
  {
    assert forall i | 0 <= i < |ls| :: prefix + [n] + ls[i] == prefix + ([n] + ls[i]);
  }

  lemma {:induction false} FieldLeavesStop(ty: CTy, n: nat, m: nat)
    requires ty.CStruct? && n <= m <= |ty.fields| && FieldLeaves(ty, n).None?
    ensures FieldLeaves(ty, m).None?
  {
    if n < m {
      FieldLeavesStop(ty, n, m - 1);
    }
  }

  /** How a type is passed: not at all without size; as leaves up to sixteen bytes without arrays;
      else by pointer. */
  function ArgAbiFor(ty: CTy): ArgAbi {
    if CMeasureOf(ty).size == 0 then Leaves([])
    else if (ty.CStruct? || ty.CArray?) && CMeasureOf(ty).size > 16 then Indirect
    else
      var leaves := SimpleLeaves(ty);
      if leaves.Some? then Leaves(leaves.value) else Indirect
  }

  lemma {:induction false} ArraysStopLeaves(ty: CTy)
    ensures SimpleLeaves(ty).None? <==> HasArray(ty)
    decreases ty, if ty.CStruct? then |ty.fields| + 1 else 0
  {
    if ty.CStruct? {
      FieldArrays(ty, |ty.fields|);
    }
  }

  lemma {:induction false} FieldArrays(ty: CTy, n: nat)
    requires ty.CStruct? && n <= |ty.fields|
    ensures FieldLeaves(ty, n).None? <==> exists k :: 0 <= k < n && HasArray(ty.fields[k])
    decreases ty, n
  {
    if n > 0 {
      FieldArrays(ty, n - 1);
      ArraysStopLeaves(ty.fields[n - 1]);
    }
  }

  /** Exactly what goes through memory: aggregates of more than sixteen bytes, as section 6.8.2 of
      AAPCS64 has it, and those of any size that hold an array. */
  lemma PassedIndirectly(ty: CTy)
    ensures ArgAbiFor(ty).Indirect? <==>
              CMeasureOf(ty).size != 0 && (((ty.CStruct? || ty.CArray?) && CMeasureOf(ty).size > 16) || HasArray(ty))
  {
    ArraysStopLeaves(ty);
  }

  /** The leaves of a type are the scalars of its shape. */
  lemma {:induction false} LeavesOfShape(ty: CTy)
    requires SimpleLeaves(ty).Some? && CWellFormed(ty)
    ensures SimpleLeaves(ty).value == ShapeLeaves(ShapeOf(ty))
    decreases ty, if ty.CStruct? then |ty.fields| + 1 else 0
  {
    if ty.CStruct? {
      FieldLeavesOfShape(ty, |ty.fields|);
    }
  }

  lemma {:induction false} FieldLeavesOfShape(ty: CTy, n: nat)
    requires ty.CStruct? && n <= |ty.fields| && FieldLeaves(ty, n).Some? && CWellFormed(ty)
    ensures FieldLeaves(ty, n).value == PartLeaves(ShapeOf(ty), n)
    decreases ty, n
  {
    if n > 0 {
      FieldLeavesOfShape(ty, n - 1);
      LeavesOfShape(ty.fields[n - 1]);
    }
  }

  /** However a type is classified, the leaves passed are all the scalars there are. */
  lemma PassedLeaves(ty: CTy)
    requires CWellFormed(ty) && ArgAbiFor(ty).Leaves?
    ensures ArgAbiFor(ty).paths == ShapeLeaves(ShapeOf(ty)) && LaidOut(ShapeOf(ty))
  {
    ShapesLaidOut(ty);
    ShapeSize(ty);
    if CMeasureOf(ty).size == 0 {
      NothingToPass(ShapeOf(ty));
    } else {
      LeavesOfShape(ty);
    }
  }

  // ---- flattened kernel parameters ----

  /** Leaves in field order; what has no size contributes none, and an array of some size is
      refused. */
  function KernelLeaves(ty: CTy): Option<seq<seq<nat>>>
    decreases ty, if ty.CStruct? then |ty.fields| + 1 else 0
  {
    if CMeasureOf(ty).size == 0 then Some([])
    else if IsScalar(ty) then Some([[]])
    else if !ty.CStruct? then None
    else FieldKernelLeaves(ty, |ty.fields|)
  }

  function FieldKernelLeaves(ty: CTy, n: nat): Option<seq<seq<nat>>>
    requires ty.CStruct? && n <= |ty.fields|
    decreases ty, n
  {
    if n == 0 then Some([])
    else
      var before, last := FieldKernelLeaves(ty, n - 1), KernelLeaves(ty.fields[n - 1]);
      if before.None? || last.None? then None else Some(before.value + Prefixed(n - 1, last.value))
  }

  method CollectKernelParamLeaves(ty: CTy, prefix: seq<nat>, out: seq<seq<nat>>) returns (ok: bool, all: seq<seq<nat>>)
    ensures ok <==> KernelLeaves(ty).Some?
    ensures ok ==> all == out + Under(prefix, KernelLeaves(ty).value)
    decreases ty
  {
    if CMeasureOf(ty).size == 0 {
      return true, out;
    }
    if IsScalar(ty) {
      assert prefix + [] == prefix;
      assert Under(prefix, [[]]) == [prefix];
      return true, out + [prefix];
    }
    if !ty.CStruct? {
      return false, out;
    }
    all := out;
    for n := 0 to |ty.fields|
      invariant FieldKernelLeaves(ty, n).Some? && all == out + Under(prefix, FieldKernelLeaves(ty, n).value)
    {
      ok, all := CollectKernelParamLeaves(ty.fields[n], prefix + [n], all);
      if !ok {
        FieldKernelLeavesStop(ty, n + 1, |ty.fields|);
        return;
      }
      UnderPrefixed(prefix, n, KernelLeaves(ty.fields[n]).value);
      assert Under(prefix, FieldKernelLeaves(ty, n + 1).value)
          == Under(prefix, FieldKernelLeaves(ty, n).value) + Under(prefix, Prefixed(n, KernelLeaves(ty.fields[n]).value));
    }
    ok := true;
  }

  lemma {:induction false} FieldKernelLeavesStop(ty: CTy, n: nat, m: nat)
    requires ty.CStruct? && n <= m <= |ty.fields| && FieldKernelLeaves(ty, n).None?
    ensures FieldKernelLeaves(ty, m).None?
  {
    if n < m {
      FieldKernelLeavesStop(ty, n, m - 1);
    }
  }

  /** Flattening a kernel parameter gives all the scalars of its shape, as a call would pass them. */
  lemma {:induction false} KernelLeavesOfShape(ty: CTy)
    requires KernelLeaves(ty).Some? && CWellFormed(ty)
    ensures KernelLeaves(ty).value == ShapeLeaves(ShapeOf(ty))
    decreases ty, if ty.CStruct? then |ty.fields| + 1 else 0
  {
    ShapeSize(ty);
    if CMeasureOf(ty).size == 0 {
      ShapesLaidOut(ty);
      NothingToPass(ShapeOf(ty));
    } else if ty.CStruct? {
      FieldKernelLeavesOfShape(ty, |ty.fields|);
    }
  }

  lemma {:induction false} FieldKernelLeavesOfShape(ty: CTy, n: nat)
    requires ty.CStruct? && n <= |ty.fields| && FieldKernelLeaves(ty, n).Some? && CWellFormed(ty)
    ensures FieldKernelLeaves(ty, n).value == PartLeaves(ShapeOf(ty), n)
    decreases ty, n
  {
    if n > 0 {
      FieldKernelLeavesOfShape(ty, n - 1);
      KernelLeavesOfShape(ty.fields[n - 1]);
    }
  }

  /** Holds an array of some size, at any depth. */
  predicate HasSizedArray(ty: CTy) {
    CMeasureOf(ty).size != 0 && (ty.CArray? || (ty.CStruct? && exists k :: 0 <= k < |ty.fields| && HasSizedArray(ty.fields[k])))
  }

  /** A kernel parameter is refused exactly for an array of some size. */
  lemma {:induction false} KernelArraysRefused(ty: CTy)
    ensures KernelLeaves(ty).None? <==> HasSizedArray(ty)
    decreases ty, if ty.CStruct? then |ty.fields| + 1 else 0
  {
    if ty.CStruct? {
      FieldKernelArrays(ty, |ty.fields|);
    }
  }

  lemma {:induction false} FieldKernelArrays(ty: CTy, n: nat)
    requires ty.CStruct? && n <= |ty.fields|
    ensures FieldKernelLeaves(ty, n).None? <==> exists k :: 0 <= k < n && HasSizedArray(ty.fields[k])
    decreases ty, n
  {
    if n > 0 {
      FieldKernelArrays(ty, n - 1);
      KernelArraysRefused(ty.fields[n - 1]);
    }
  }
}
