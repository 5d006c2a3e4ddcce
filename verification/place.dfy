/** Reading and writing a field of a local: through the local's whole value, and through a byte offset. */
module Places {
  import opened Wrappers
  import opened TypeLayouts
  import opened ByteMemory

  // ---- the shape a converted type has in memory ----

  function Stride(m: Measure): nat {
    RoundUp(m.size, m.align)
  }

  function Times(k: nat, stride: nat): nat {
    k * stride
  }

  function ShapeOf(ty: CTy): Shape {
    match ty
    case CArray(elem, len) =>
      Parts(CMeasureOf(ty).size, seq(len, k requires 0 <= k < len => Times(k, Stride(CMeasureOf(elem)))), seq(len, k => ShapeOf(elem)))
    case CStruct(fields) =>
      var ms := CMeasures(fields);
      Parts(CMeasureOf(ty).size, seq(|fields|, k requires 0 <= k < |fields| => OffsetAt(ms, k)),
            seq(|fields|, k requires 0 <= k < |fields| => ShapeOf(fields[k])))
    case _ => Scalar(CMeasureOf(ty).size)
  }

  lemma ShapeSize(ty: CTy)
    ensures ShapeOf(ty).size == CMeasureOf(ty).size
  {
  }

  lemma {:induction false} ShapesLaidOut(ty: CTy)
    requires CWellFormed(ty)
    ensures LaidOut(ShapeOf(ty))
    decreases ty
  {
    match ty
    case CArray(elem, len) =>
      ShapesLaidOut(elem);
      ArrayLaidOut(ty, elem, len);
    case CStruct(fields) =>
      forall k | 0 <= k < |fields|
        ensures LaidOut(ShapeOf(fields[k]))
      {
        ShapesLaidOut(fields[k]);
      }
      StructLaidOut(ty, fields);
    case _ =>
  }

  lemma StridesApart(j: nat, k: nat, size: nat, stride: nat)
    requires size <= stride && j < k
    ensures Times(j, stride) + size <= Times(k, stride)
  {
    assert k * stride == j * stride + (k - j) * stride;
    assert (k - j) * stride >= stride by { assert (k - j - 1) * stride >= 0; }
  }

  lemma ArrayLaidOut(ty: CTy, elem: CTy, len: nat)
    requires ty == CArray(elem, len) && CWellFormed(elem) && LaidOut(ShapeOf(elem))
    ensures LaidOut(ShapeOf(ty))
  {
    var s, m := ShapeOf(ty), CMeasureOf(elem);
    ShapeSize(elem);
    CMeasureIsSound(elem);
    RoundUpIs(m.size, m.align);
    forall k: nat | k < len
      ensures Inside(s, k)
    {
      StridesApart(k, len, m.size, Stride(m));
      assert Times(len, Stride(m)) == s.size;
    }
    forall j: nat, k: nat | j < k < len
      ensures Precedes(s, j, k)
    {
      StridesApart(j, k, m.size, Stride(m));
    }
  }

  lemma StructLaidOut(ty: CTy, fields: seq<CTy>)
    requires ty == CStruct(fields) && CWellFormed(ty) && forall k | 0 <= k < |fields| :: LaidOut(ShapeOf(fields[k]))
    ensures LaidOut(ShapeOf(ty))
  {
    var s, ms := ShapeOf(ty), CMeasures(fields);
    forall i | 0 <= i < |fields|
      ensures Sound(ms[i])
    {
      CMeasureIsSound(fields[i]);
    }
    MaxAlignIs(ms, |ms|);
    RoundUpIs(End(ms, |ms|), MaxAlign(ms, |ms|));
    forall k: nat | k < |fields|
      ensures Inside(s, k)
    {
      ShapeSize(fields[k]);
      FieldInside(ms, k);
    }
    forall j: nat, k: nat | j < k < |fields|
      ensures Precedes(s, j, k)
    {
      ShapeSize(fields[j]);
      if ms[j].size != 0 {
        FieldsApart(ms, j, k);
      }
    }
  }

  // ---- field paths, as the source names them and as the converted type does ----

  /** The fields of a struct, tuple or closure. */
  function FieldsOf(ty: Ty): seq<Ty> {
    match ty
    case Tuple(fields, _) => fields
    case Struct(fields, _) => fields
    case _ => []
  }

  /** Every step of the path is a field of a struct, tuple or closure. */
  predicate FieldPath(ty: Ty, path: seq<nat>)
    decreases path
  {
    path == [] || (path[0] < |FieldsOf(ty)| && FieldPath(FieldsOf(ty)[path[0]], path[1..]))
  }

  function TyAt(ty: Ty, path: seq<nat>): Ty
    requires FieldPath(ty, path)
    decreases path
  {
    if path == [] then ty else TyAt(FieldsOf(ty)[path[0]], path[1..])
  }

  /** Every field of a struct or tuple is a step of a path, to a place of the field's type. */
  lemma FieldsAreSteps(ty: Ty, fields: seq<Ty>, order: seq<nat>, i: nat)
    requires (ty == Struct(fields, order) || ty == Tuple(fields, order)) && i < |fields|
    ensures FieldPath(ty, [i]) && TyAt(ty, [i]) == fields[i]
  {
    assert [i][1..] == [];
  }

  /** What the importer asks about a type: its shape in memory, a field's index in the converted
      type, and a field's byte offset; and for which types it may ask. */
  datatype Layout = Layout(shape: Ty -> Shape, position: (Ty, nat) -> nat, offset: (Ty, nat) -> nat, usable: Ty -> bool)

  /** The path by converted indices, and the sum of the byte offsets along it. */
  function ConvertedPath(l: Layout, ty: Ty, path: seq<nat>): (r: seq<nat>)
    requires FieldPath(ty, path)
    ensures |r| == |path|
    decreases path
  {
    if path == [] then [] else [l.position(ty, path[0])] + ConvertedPath(l, FieldsOf(ty)[path[0]], path[1..])
  }

  function PlaceOffset(l: Layout, ty: Ty, path: seq<nat>): nat
    requires FieldPath(ty, path)
    decreases path
  {
    if path == [] then 0 else l.offset(ty, path[0]) + PlaceOffset(l, FieldsOf(ty)[path[0]], path[1..])
  }

  /** The converted field of one step is at the source field's byte offset. */
  ghost predicate StepAgrees(l: Layout, ty: Ty, index: nat) {
    l.usable(ty) && index < |FieldsOf(ty)| ==>
      var s, k := l.shape(ty), l.position(ty, index);
      && s.Parts? && k < |s.parts| == |s.offsets| && s.parts[k] == l.shape(FieldsOf(ty)[index])
      && l.offset(ty, index) == s.offsets[k] && l.usable(FieldsOf(ty)[index])
  }

  ghost predicate PositionsDiffer(l: Layout, ty: Ty, i: nat, j: nat) {
    l.usable(ty) && i < |FieldsOf(ty)| && j < |FieldsOf(ty)| && i != j ==> l.position(ty, i) != l.position(ty, j)
  }

  ghost predicate ShapeLaidOut(l: Layout, ty: Ty) {
    l.usable(ty) ==> LaidOut(l.shape(ty))
  }

  ghost predicate Agrees(l: Layout) {
    && (forall ty, index: nat :: StepAgrees(l, ty, index))
    && (forall ty, i: nat, j: nat :: PositionsDiffer(l, ty, i, j))
    && (forall ty :: ShapeLaidOut(l, ty))
  }

  // ---- the importer's own answers agree ----

  function OffsetOrZero(r: Result<nat, FieldError>): nat {
    if r.Ok? then r.value else 0
  }

  function OrderOf(ty: Ty): seq<nat> {
    match ty
    case Tuple(_, order) => order
    case Struct(_, order) => order
    case _ => []
  }

  /** Shapes through the converted type, byte offsets from the source type's own layout. */
  function Importer(): Layout {
    Layout((ty: Ty) => ShapeOf(Convert(ty)), (ty: Ty, index: nat) => Position(OrderOf(ty), index),
           (ty: Ty, index: nat) => OffsetOrZero(FieldOffsetOf(ty, None, index)), (ty: Ty) => WellFormed(ty) && NoSizedSlices(ty))
  }

  /** The converted type's own widths are the target's. */
  lemma {:induction false} ConvertedWell(ty: Ty)
    requires WellFormed(ty)
    ensures CWellFormed(Convert(ty))
    decreases ty
  {
    match ty
    case Tuple(fields, order) =>
      forall i | 0 <= i < |fields|
        ensures CWellFormed(Convert(fields[i]))
      {
        ConvertedWell(fields[i]);
      }
    case Struct(fields, order) =>
      forall i | 0 <= i < |fields|
        ensures CWellFormed(Convert(fields[i]))
      {
        ConvertedWell(fields[i]);
      }
    case Enum(size, alignLog, _) => EnumAlignDivides(size, alignLog);
    case Array(elem, len) => ConvertedWell(elem);
    case Slice(elem) => ConvertedWell(elem);
    case _ =>
  }

  lemma ImporterStepAgrees(ty: Ty, index: nat)
    requires WellFormed(ty) && NoSizedSlices(ty) && index < |FieldsOf(ty)|
    ensures var s, k := ShapeOf(Convert(ty)), Position(OrderOf(ty), index);
      && s.Parts? && k < |s.parts| == |s.offsets| && s.parts[k] == ShapeOf(Convert(FieldsOf(ty)[index]))
      && FieldOffsetOf(ty, None, index) == Ok(s.offsets[k])
  {
    var fields, order := FieldsOf(ty), OrderOf(ty);
    var ms, cs := InOrder(SourceMeasures(fields), order), CMeasures(ConvertedInOrder(fields, order));
    assert index in order;
    forall k | 0 <= k < |order|
      ensures Agree(ms[k], cs[k])
    {
      LayoutsAgree(fields[order[k]]);
    }
    var k := Position(order, index);
    EndsAgree(ms, cs, k);
    assert Agree(ms[k], cs[k]);
  }

  lemma ImporterPositionsDiffer(ty: Ty, i: nat, j: nat)
    requires WellFormed(ty) && i < |FieldsOf(ty)| && j < |FieldsOf(ty)| && i != j
    ensures Position(OrderOf(ty), i) != Position(OrderOf(ty), j)
  {
    assert i in OrderOf(ty) && j in OrderOf(ty);
  }

  lemma ImporterLaidOut(ty: Ty)
    requires WellFormed(ty)
    ensures LaidOut(ShapeOf(Convert(ty)))
  {
    ConvertedWell(ty);
    ShapesLaidOut(Convert(ty));
  }

  /** For every type that holds no slice of some size by value, the two ways of finding a field agree. */
  lemma ImporterAgrees()
    ensures Agrees(Importer())
  {
    var l := Importer();
    forall ty, index: nat
      ensures StepAgrees(l, ty, index)
    {
      if l.usable(ty) && index < |FieldsOf(ty)| {
        ImporterStepAgrees(ty, index);
      }
    }
    forall ty, i: nat, j: nat
      ensures PositionsDiffer(l, ty, i, j)
    {
      if l.usable(ty) && i < |FieldsOf(ty)| && j < |FieldsOf(ty)| && i != j {
        ImporterPositionsDiffer(ty, i, j);
      }
    }
    forall ty
      ensures ShapeLaidOut(l, ty)
    {
      if l.usable(ty) {
        ImporterLaidOut(ty);
      }
    }
  }

  // ---- paths ----

  lemma {:induction false} PathsAgree(l: Layout, ty: Ty, path: seq<nat>)
    requires Agrees(l) && l.usable(ty) && FieldPath(ty, path)
    ensures var s, p := l.shape(ty), ConvertedPath(l, ty, path);
      Leads(s, p) && ShapeAt(s, p) == l.shape(TyAt(ty, path)) && OffsetOf(s, p) == PlaceOffset(l, ty, path)
    decreases path
  {
    if path != [] {
      assert StepAgrees(l, ty, path[0]);
      PathsAgree(l, FieldsOf(ty)[path[0]], path[1..]);
      var p := ConvertedPath(l, ty, path);
      assert p[1..] == ConvertedPath(l, FieldsOf(ty)[path[0]], path[1..]);
    }
  }

  /** A value with one element replaced. */
  function With(parent: Val, index: nat, x: Val): Val {
    if parent.Aggregate? && index < |parent.elems| then Aggregate(parent.elems[index := x]) else parent
  }

  /** Putting `x` back into its parents, innermost last. */
  function Rebuilt(parents: seq<(nat, Val)>, x: Val): Val {
    if parents == [] then x
    else
      var n := |parents| - 1;
      Rebuilt(parents[..n], With(parents[n].1, parents[n].0, x))
  }

  ghost predicate IsPlace(l: Layout, ty: Ty, path: seq<nat>, current: Val) {
    && l.usable(ty) && FieldPath(ty, path) && HasShape(current, l.shape(ty))
    && Leads(l.shape(ty), ConvertedPath(l, ty, path))
  }

  /** Going one field down a value. */
  lemma OneFieldDown(l: Layout, ty: Ty, path: seq<nat>, current: Val)
    requires Agrees(l) && IsPlace(l, ty, path, current) && path != []
    ensures var k, next := l.position(ty, path[0]), FieldsOf(ty)[path[0]];
      var s, p, rest := l.shape(ty), ConvertedPath(l, ty, path), ConvertedPath(l, next, path[1..]);
      && current.Aggregate? && k < |current.elems| && IsPlace(l, next, path[1..], current.elems[k])
      && ShapeAt(s, p) == ShapeAt(l.shape(next), rest)
      && Extract(s, current, p) == Extract(l.shape(next), current.elems[k], rest)
      && (forall w | HasShape(w, ShapeAt(s, p)) ::
            Insert(s, current, p, w) == With(current, k, Insert(l.shape(next), current.elems[k], rest, w)))
  {
    assert StepAgrees(l, ty, path[0]);
    var p := ConvertedPath(l, ty, path);
    assert p[1..] == ConvertedPath(l, FieldsOf(ty)[path[0]], path[1..]);
  }

  /** Byte `a` is none of the padding of the value at `slot`. */
  predicate NoPadding(slot: nat, s: Shape, root: Val, a: nat) {
    HasShape(root, s) && (slot <= a < slot + s.size ==> ByteAt(s, root, a - slot).Some?)
  }

  /** Two memories agree but for padding of the value at `slot`. */
  ghost predicate SameButPadding(slot: nat, s: Shape, root: Val, mem: Memory, other: Memory) {
    forall a: nat | NoPadding(slot, s, root, a) :: mem(a) == other(a)
  }

  /** The memory a function's locals live in. */
  class Frame {
    var mem: Memory

    /** The byte address of a place: offsets added up, those of zero left out. */
    method PlaceAddr(l: Layout, slot: nat, ty: Ty, path: seq<nat>) returns (addr: nat)
      requires FieldPath(ty, path)
      ensures addr == slot + PlaceOffset(l, ty, path)
    {
      addr := slot;
      var currentTy := ty;
      assert path[0..] == path;
      for n := 0 to |path|
        invariant FieldPath(currentTy, path[n..]) && addr + PlaceOffset(l, currentTy, path[n..]) == slot + PlaceOffset(l, ty, path)
      {
        assert path[n..][0] == path[n] && path[n..][1..] == path[n + 1..];
        var offset := l.offset(currentTy, path[n]);
        if offset != 0 {
          addr := addr + offset;
        }
        currentTy := FieldsOf(currentTy)[path[n]];
      }
    }

    /** Reading a field: the whole local is loaded and its elements extracted one by one. What
        comes out is what memory holds at the field's byte offset. */
    method LoadFieldProjection(l: Layout, slot: nat, ty: Ty, path: seq<nat>) returns (r: Val)
      requires Agrees(l) && l.usable(ty) && FieldPath(ty, path)
      ensures r == Load(mem, slot + PlaceOffset(l, ty, path), l.shape(TyAt(ty, path)))
    {
      ghost var s, p := l.shape(ty), ConvertedPath(l, ty, path);
      var current := Load(mem, slot, l.shape(ty));
      ghost var root := current;
      PathsAgree(l, ty, path);
      ExtractIsLoad(mem, slot, s, p);
      var currentTy := ty;
      assert path[0..] == path;
      for n := 0 to |path|
        invariant IsPlace(l, currentTy, path[n..], current)
        invariant Extract(l.shape(currentTy), current, ConvertedPath(l, currentTy, path[n..])) == Extract(s, root, p)
      {
        OneFieldDown(l, currentTy, path[n..], current);
        assert path[n..][0] == path[n] && path[n..][1..] == path[n + 1..];
        current := current.elems[l.position(currentTy, path[n])];
        currentTy := FieldsOf(currentTy)[path[n]];
      }
      r := current;
    }

    /** Writing a field: the whole local is loaded, taken apart down to the field, rebuilt around the
        new value, and stored. The field reads back; and memory is as if the field alone had been
        stored at its byte offset, but for the local's padding. */
    method StoreFieldProjection(l: Layout, slot: nat, ty: Ty, path: seq<nat>, value: Val, junk: Memory)
      requires Agrees(l) && l.usable(ty) && FieldPath(ty, path) && path != [] && HasShape(value, l.shape(TyAt(ty, path)))
      modifies this
      ensures Load(mem, slot + PlaceOffset(l, ty, path), l.shape(TyAt(ty, path))) == value
      ensures HasShape(Load(old(mem), slot, l.shape(ty)), l.shape(ty))
      ensures SameButPadding(slot, l.shape(ty), Load(old(mem), slot, l.shape(ty)), mem,
                             Store(old(mem), slot + PlaceOffset(l, ty, path), l.shape(TyAt(ty, path)), value, junk))
    {
      ghost var s, p := l.shape(ty), ConvertedPath(l, ty, path);
      var root := Load(mem, slot, l.shape(ty));
      LoadHasShape(mem, slot, s);
      PathsAgree(l, ty, path);
      var updated := Replaced(l, ty, path, root, value);
      ghost var before := mem;
      mem := Store(mem, slot, l.shape(ty), updated, junk);
      assert ShapeLaidOut(l, ty);
      WholeStored(before, mem, slot, s, root, p, slot + PlaceOffset(l, ty, path), l.shape(TyAt(ty, path)), value, junk);
    }

    /** The value with one field replaced: down to the field, pushing the parents, and back up. */
    method Replaced(l: Layout, ty: Ty, path: seq<nat>, root: Val, value: Val) returns (updated: Val)
      requires Agrees(l) && IsPlace(l, ty, path, root) && path != []
      requires HasShape(value, ShapeAt(l.shape(ty), ConvertedPath(l, ty, path)))
      ensures updated == Insert(l.shape(ty), root, ConvertedPath(l, ty, path), value)
    {
      var current, currentTy := root, ty;
      var parents: seq<(nat, Val)> := [];
      ghost var goal := Insert(l.shape(ty), root, ConvertedPath(l, ty, path), value);
      assert path[0..] == path;
      for n := 0 to |path|
        invariant IsPlace(l, currentTy, path[n..], current)
        invariant HasShape(value, ShapeAt(l.shape(currentTy), ConvertedPath(l, currentTy, path[n..])))
        invariant Rebuilt(parents, Insert(l.shape(currentTy), current, ConvertedPath(l, currentTy, path[n..]), value)) == goal
      {
        OneFieldDown(l, currentTy, path[n..], current);
        assert path[n..][0] == path[n] && path[n..][1..] == path[n + 1..];
        var index := l.position(currentTy, path[n]);
        ghost var before := parents;
        parents := parents + [(index, current)];
        assert parents[..|before|] == before;
        current := current.elems[index];
        currentTy := FieldsOf(currentTy)[path[n]];
      }
      updated := value;
      var k := |parents|;
      assert parents[..k] == parents;
      while k > 0
        invariant 0 <= k <= |parents| && Rebuilt(parents[..k], updated) == goal
      {
        k := k - 1;
        assert parents[..k + 1][..k] == parents[..k];
        updated := With(parents[k].1, parents[k].0, updated);
      }
    }
  }

  lemma WholeStored(mem: Memory, after: Memory, slot: nat, s: Shape, root: Val, p: seq<nat>, at: nat, field: Shape, value: Val,
      junk: Memory)
    requires LaidOut(s) && Leads(s, p) && HasShape(root, s) && root == Load(mem, slot, s)
    requires at == slot + OffsetOf(s, p) && field == ShapeAt(s, p) && HasShape(value, field)
    requires after == Store(mem, slot, s, Insert(s, root, p, value), junk)
    ensures Load(after, at, field) == value && SameButPadding(slot, s, root, after, Store(mem, at, field, value, junk))
  {
    WholeReadsBack(mem, slot, s, root, p, value, Insert(s, root, p, value), junk, after);
    WholeStoresField(mem, slot, s, root, p, value, junk, after, Store(mem, at, field, value, junk));
  }

  lemma WholeReadsBack(mem: Memory, slot: nat, s: Shape, root: Val, p: seq<nat>, value: Val, updated: Val, junk: Memory,
      after: Memory)
    requires LaidOut(s) && Leads(s, p) && HasShape(value, ShapeAt(s, p)) && HasShape(root, s)
    requires updated == Insert(s, root, p, value) && after == Store(mem, slot, s, updated, junk)
    ensures Load(after, slot + OffsetOf(s, p), ShapeAt(s, p)) == value
  {
    StoreLoads(mem, slot, s, updated, junk);
    ExtractIsLoad(after, slot, s, p);
    ExtractOfInsert(s, root, p, value);
  }

  lemma WholeStoresField(mem: Memory, slot: nat, s: Shape, root: Val, p: seq<nat>, value: Val, junk: Memory, after: Memory,
      alone: Memory)
    requires LaidOut(s) && Leads(s, p) && HasShape(value, ShapeAt(s, p)) && HasShape(root, s) && root == Load(mem, slot, s)
    requires after == Store(mem, slot, s, Insert(s, root, p, value), junk)
    requires alone == Store(mem, slot + OffsetOf(s, p), ShapeAt(s, p), value, junk)
    ensures SameButPadding(slot, s, root, after, alone)
  {
    forall a: nat | NoPadding(slot, s, root, a)
      ensures after(a) == alone(a)
    {
      StoreInsertIsStore(mem, slot, s, root, p, value, junk, a);
    }
  }

  lemma {:induction false} ExtractOfInsert(s: Shape, v: Val, path: seq<nat>, w: Val)
    requires HasShape(v, s) && Leads(s, path) && HasShape(w, ShapeAt(s, path))
    ensures Extract(s, Insert(s, v, path, w), path) == w
    decreases path
  {
    if path != [] {
      ExtractOfInsert(s.parts[path[0]], v.elems[path[0]], path[1..], w);
    }
  }

  // ---- disjoint fields ----

  /** The converted paths of two source paths part where the source paths do. */
  lemma {:induction false} DivergingFields(l: Layout, ty: Ty, p: seq<nat>, q: seq<nat>)
    requires Agrees(l) && l.usable(ty) && FieldPath(ty, p) && FieldPath(ty, q) && Diverge(p, q)
    ensures Diverge(ConvertedPath(l, ty, p), ConvertedPath(l, ty, q))
    decreases p
  {
    var cp, cq := ConvertedPath(l, ty, p), ConvertedPath(l, ty, q);
    assert StepAgrees(l, ty, p[0]) && PositionsDiffer(l, ty, p[0], q[0]);
    if p[0] == q[0] {
      var next := FieldsOf(ty)[p[0]];
      DivergingFields(l, next, p[1..], q[1..]);
      assert cp[1..] == ConvertedPath(l, next, p[1..]) && cq[1..] == ConvertedPath(l, next, q[1..]);
    }
  }

  /** Writing one field leaves every field off its path, read at its own byte offset, as it was. */
  lemma FieldsKeep(l: Layout, mem: Memory, slot: nat, ty: Ty, p: seq<nat>, q: seq<nat>, w: Val, junk: Memory)
    requires Agrees(l) && l.usable(ty) && FieldPath(ty, p) && FieldPath(ty, q) && Diverge(p, q)
    requires HasShape(w, l.shape(TyAt(ty, p)))
    ensures var read, at := l.shape(TyAt(ty, q)), slot + PlaceOffset(l, ty, q);
      Load(Store(mem, slot + PlaceOffset(l, ty, p), l.shape(TyAt(ty, p)), w, junk), at, read) == Load(mem, at, read)
  {
    PathsAgree(l, ty, p);
    PathsAgree(l, ty, q);
    DivergingFields(l, ty, p, q);
    assert ShapeLaidOut(l, ty);
    OtherPathsKeep(mem, slot, l.shape(ty), ConvertedPath(l, ty, p), ConvertedPath(l, ty, q), w, junk);
  }
}
