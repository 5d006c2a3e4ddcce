/** Values of laid-out types in byte memory. */
module ByteMemory {
  import opened Wrappers

  type Byte = bv8
  type Memory = nat -> Byte

  /** A laid-out type: a scalar of some bytes, or parts at offsets. */
  datatype Shape = Scalar(size: nat) | Parts(size: nat, offsets: seq<nat>, parts: seq<Shape>)

  /** A value: the bytes of a scalar, or the elements of an aggregate. */
  datatype Val = Leaf(bytes: seq<Byte>) | Aggregate(elems: seq<Val>)

  /** Parts of some size lie in order without overlap, inside the whole. */
  ghost predicate LaidOut(s: Shape) {
    s.Parts? ==>
      && |s.offsets| == |s.parts|
      && (forall k | 0 <= k < |s.parts| :: LaidOut(s.parts[k]) && Inside(s, k))
      && (forall j, k | 0 <= j < k < |s.parts| :: Precedes(s, j, k))
  }

  ghost predicate Inside(s: Shape, k: nat)
    requires s.Parts? && k < |s.parts| == |s.offsets|
  {
    s.offsets[k] + s.parts[k].size <= s.size
  }

  ghost predicate Precedes(s: Shape, j: nat, k: nat)
    requires s.Parts? && j < k < |s.parts| == |s.offsets|
  {
    s.parts[j].size != 0 ==> s.offsets[j] + s.parts[j].size <= s.offsets[k]
  }

  predicate HasShape(v: Val, s: Shape) {
    match s
    case Scalar(size) => v.Leaf? && |v.bytes| == size
    case Parts(_, _, parts) =>
      v.Aggregate? && |v.elems| == |parts| && forall k | 0 <= k < |parts| :: HasShape(v.elems[k], parts[k])
  }

  /** What a load at `addr` gives. */
  function Load(mem: Memory, addr: nat, s: Shape): Val
    decreases s
  {
    match s
    case Scalar(size) => Leaf(seq(size, i requires 0 <= i < size => mem(addr + i)))
    case Parts(_, offsets, parts) =>
      Aggregate(seq(|parts|, k requires 0 <= k < |parts| =>
        Load(mem, addr + if k < |offsets| then offsets[k] else 0, parts[k])))
  }

  lemma {:induction false} LoadHasShape(mem: Memory, addr: nat, s: Shape)
    ensures HasShape(Load(mem, addr, s), s)
    decreases s
  {
    if s.Parts? {
      forall k | 0 <= k < |s.parts|
        ensures HasShape(Load(mem, addr, s).elems[k], s.parts[k])
      {
        LoadHasShape(mem, addr + if k < |s.offsets| then s.offsets[k] else 0, s.parts[k]);
      }
    }
  }

  /** The part that holds byte `off`, if any of the first `n` does. */
  function PartAt(s: Shape, off: nat, n: nat): (r: Option<nat>)
    requires s.Parts? && n <= |s.parts| == |s.offsets|
    ensures r.Some? ==> r.value < n && s.offsets[r.value] <= off < s.offsets[r.value] + s.parts[r.value].size
  {
    if n == 0 then None
    else if s.offsets[n - 1] <= off < s.offsets[n - 1] + s.parts[n - 1].size then Some(n - 1)
    else PartAt(s, off, n - 1)
  }

  /** The byte that a value has at offset `off`; padding has none. */
  function ByteAt(s: Shape, v: Val, off: nat): Option<Byte>
    requires HasShape(v, s)
    decreases s
  {
    match s
    case Scalar(size) => if off < size then Some(v.bytes[off]) else None
    case Parts(_, offsets, parts) =>
      if |offsets| != |parts| || PartAt(s, off, |parts|).None? then None
      else
        var k := PartAt(s, off, |parts|).value;
        ByteAt(parts[k], v.elems[k], off - offsets[k])
  }

  /** Storing writes the value's bytes; what becomes of padding is anyone's guess (`junk`). */
  function Store(mem: Memory, addr: nat, s: Shape, v: Val, junk: Memory): Memory
    requires HasShape(v, s)
  {
    (a: nat) => if addr <= a < addr + s.size then Written(ByteAt(s, v, a - addr), junk(a)) else mem(a)
  }

  function Written(b: Option<Byte>, otherwise: Byte): Byte {
    if b.Some? then b.value else otherwise
  }

  /** A byte inside a part belongs to that part. */
  lemma {:induction false} PartAtFinds(s: Shape, off: nat, n: nat, k: nat)
    requires s.Parts? && LaidOut(s) && k < n <= |s.parts| && s.offsets[k] <= off < s.offsets[k] + s.parts[k].size
    ensures PartAt(s, off, n) == Some(k)
  {
    if k < n - 1 {
      assert Precedes(s, k, n - 1);
      PartAtFinds(s, off, n - 1, k);
    }
  }

  /** A load depends on nothing but the type's own bytes. */
  lemma {:induction false} LoadReads(mem: Memory, other: Memory, addr: nat, s: Shape)
    requires LaidOut(s) && forall a: nat | addr <= a < addr + s.size :: mem(a) == other(a)
    ensures Load(mem, addr, s) == Load(other, addr, s)
    decreases s
  {
    if s.Parts? {
      forall k | 0 <= k < |s.parts|
        ensures Load(mem, addr, s).elems[k] == Load(other, addr, s).elems[k]
      {
        assert Inside(s, k);
        LoadReads(mem, other, addr + s.offsets[k], s.parts[k]);
      }
    }
  }

  /** The bytes of a loaded value are memory's. */
  lemma {:induction false} LoadedByte(mem: Memory, addr: nat, s: Shape, off: nat)
    requires HasShape(Load(mem, addr, s), s)
    ensures var b := ByteAt(s, Load(mem, addr, s), off); b.Some? ==> b.value == mem(addr + off)
    decreases s
  {
    if s.Parts? && |s.offsets| == |s.parts| && PartAt(s, off, |s.parts|).Some? {
      var k := PartAt(s, off, |s.parts|).value;
      LoadedByte(mem, addr + s.offsets[k], s.parts[k], off - s.offsets[k]);
    }
  }

  /** A value's bytes lie within its size. */
  lemma {:induction false} ByteInside(s: Shape, v: Val, off: nat)
    requires LaidOut(s) && HasShape(v, s) && ByteAt(s, v, off).Some?
    ensures off < s.size
  {
    if s.Parts? {
      assert Inside(s, PartAt(s, off, |s.parts|).value);
    }
  }

  lemma PartByte(s: Shape, v: Val, k: nat, off: nat)
    requires s.Parts? && LaidOut(s) && HasShape(v, s) && k < |s.parts| && off < s.parts[k].size
    ensures ByteAt(s, v, s.offsets[k] + off) == ByteAt(s.parts[k], v.elems[k], off)
  {
    PartAtFinds(s, s.offsets[k] + off, |s.parts|, k);
  }

  /** Memory that has the bytes of `v` at `addr` loads as `v`. */
  lemma {:induction false} LoadsBack(mem: Memory, addr: nat, s: Shape, v: Val)
    requires LaidOut(s) && HasShape(v, s)
    requires forall off: nat | off < s.size && ByteAt(s, v, off).Some? :: mem(addr + off) == ByteAt(s, v, off).value
    ensures Load(mem, addr, s) == v
    decreases s
  {
    if s.Parts? {
      forall k | 0 <= k < |s.parts|
        ensures Load(mem, addr, s).elems[k] == v.elems[k]
      {
        assert Inside(s, k);
        forall off: nat | off < s.parts[k].size && ByteAt(s.parts[k], v.elems[k], off).Some?
          ensures mem(addr + s.offsets[k] + off) == ByteAt(s.parts[k], v.elems[k], off).value
        {
          PartByte(s, v, k, off);
          assert addr + (s.offsets[k] + off) == addr + s.offsets[k] + off;
        }
        LoadsBack(mem, addr + s.offsets[k], s.parts[k], v.elems[k]);
      }
    } else {
      forall i: nat | i < |v.bytes|
        ensures mem(addr + i) == v.bytes[i]
      {
        assert ByteAt(s, v, i) == Some(v.bytes[i]);
      }
    }
  }

  lemma StoredByte(mem: Memory, addr: nat, s: Shape, v: Val, junk: Memory, off: nat)
    requires HasShape(v, s) && off < s.size && ByteAt(s, v, off).Some?
    ensures Store(mem, addr, s, v, junk)(addr + off) == ByteAt(s, v, off).value
  {
    var a: nat := addr + off;
    assert Store(mem, addr, s, v, junk)(a) == Written(ByteAt(s, v, a - addr), junk(a)) && a - addr == off;
  }

  lemma StoredOutside(mem: Memory, addr: nat, s: Shape, v: Val, junk: Memory, a: nat)
    requires HasShape(v, s) && !(addr <= a < addr + s.size)
    ensures Store(mem, addr, s, v, junk)(a) == mem(a)
  {
  }

  /** What is stored reads back, whatever padding became. */
  lemma StoreLoads(mem: Memory, addr: nat, s: Shape, v: Val, junk: Memory)
    requires LaidOut(s) && HasShape(v, s)
    ensures Load(Store(mem, addr, s, v, junk), addr, s) == v
  {
    var after := Store(mem, addr, s, v, junk);
    forall off: nat | off < s.size && ByteAt(s, v, off).Some?
      ensures after(addr + off) == ByteAt(s, v, off).value
    {
      StoredByte(mem, addr, s, v, junk, off);
    }
    LoadsBack(after, addr, s, v);
  }

  /** Which offsets hold a byte does not depend on the value. */
  lemma {:induction false} SameBytes(s: Shape, v: Val, w: Val, off: nat)
    requires HasShape(v, s) && HasShape(w, s)
    ensures ByteAt(s, v, off).Some? <==> ByteAt(s, w, off).Some?
    decreases s
  {
    if s.Parts? && |s.offsets| == |s.parts| && PartAt(s, off, |s.parts|).Some? {
      var k := PartAt(s, off, |s.parts|).value;
      SameBytes(s.parts[k], v.elems[k], w.elems[k], off - s.offsets[k]);
    }
  }

  // ---- paths of elements ----

  /** The path leads to a part. */
  predicate Leads(s: Shape, path: seq<nat>) {
    path == [] || (s.Parts? && path[0] < |s.parts| && |s.parts| == |s.offsets| && Leads(s.parts[path[0]], path[1..]))
  }

  function ShapeAt(s: Shape, path: seq<nat>): Shape
    requires Leads(s, path)
  {
    if path == [] then s else ShapeAt(s.parts[path[0]], path[1..])
  }

  function OffsetOf(s: Shape, path: seq<nat>): nat
    requires Leads(s, path)
  {
    if path == [] then 0 else s.offsets[path[0]] + OffsetOf(s.parts[path[0]], path[1..])
  }

  /** The value's element at the path, and the value with it replaced. */
  function Extract(s: Shape, v: Val, path: seq<nat>): (r: Val)
    requires HasShape(v, s) && Leads(s, path)
    ensures HasShape(r, ShapeAt(s, path))
    decreases path
  {
    if path == [] then v else Extract(s.parts[path[0]], v.elems[path[0]], path[1..])
  }

  function Insert(s: Shape, v: Val, path: seq<nat>, w: Val): (r: Val)
    requires HasShape(v, s) && Leads(s, path) && HasShape(w, ShapeAt(s, path))
    ensures HasShape(r, s)
    decreases path
  {
    if path == [] then w
    else Aggregate(v.elems[path[0] := Insert(s.parts[path[0]], v.elems[path[0]], path[1..], w)])
  }

  /** Extracting from the loaded whole is loading at the offset. */
  lemma {:induction false} ExtractIsLoad(mem: Memory, addr: nat, s: Shape, path: seq<nat>)
    requires Leads(s, path)
    ensures HasShape(Load(mem, addr, s), s)
    ensures Extract(s, Load(mem, addr, s), path) == Load(mem, addr + OffsetOf(s, path), ShapeAt(s, path))
    decreases path
  {
    LoadHasShape(mem, addr, s);
    if path != [] {
      ExtractIsLoad(mem, addr + s.offsets[path[0]], s.parts[path[0]], path[1..]);
      assert addr + s.offsets[path[0]] + OffsetOf(s.parts[path[0]], path[1..]) == addr + OffsetOf(s, path);
    }
  }

  lemma {:induction false} PathInside(s: Shape, path: seq<nat>)
    requires LaidOut(s) && Leads(s, path)
    ensures LaidOut(ShapeAt(s, path)) && OffsetOf(s, path) + ShapeAt(s, path).size <= s.size
  {
    if path != [] {
      assert Inside(s, path[0]);
      PathInside(s.parts[path[0]], path[1..]);
    }
  }

  lemma NothingBeyond(s: Shape, v: Val, off: nat)
    requires LaidOut(s) && HasShape(v, s) && off >= s.size
    ensures ByteAt(s, v, off).None?
  {
    if ByteAt(s, v, off).Some? {
      ByteInside(s, v, off);
    }
  }

  /** The bytes of the value with one element replaced: the element's, where the element is, and the
      value's own elsewhere. */
  lemma {:induction false} InsertedByte(s: Shape, v: Val, path: seq<nat>, w: Val, off: nat)
    requires LaidOut(s) && HasShape(v, s) && Leads(s, path) && HasShape(w, ShapeAt(s, path))
    ensures var o, size := OffsetOf(s, path), ShapeAt(s, path).size;
      ByteAt(s, Insert(s, v, path, w), off)
      == if o <= off < o + size then ByteAt(ShapeAt(s, path), w, off - o) else ByteAt(s, v, off)
    decreases path
  {
    if path == [] {
      if off >= s.size {
        NothingBeyond(s, w, off);
        NothingBeyond(s, v, off);
      }
    } else {
      var k := path[0];
      var part, o := s.parts[k], OffsetOf(s.parts[k], path[1..]);
      PathInside(part, path[1..]);
      if s.offsets[k] <= off < s.offsets[k] + part.size {
        PartAtFinds(s, off, |s.parts|, k);
        InsertedByte(part, v.elems[k], path[1..], w, off - s.offsets[k]);
      }
    }
  }

  /** The rebuilt whole has the element's bytes at its place and memory's own elsewhere. */
  lemma RebuiltByte(mem: Memory, addr: nat, s: Shape, v: Val, path: seq<nat>, w: Val, off: nat)
    requires LaidOut(s) && Leads(s, path) && HasShape(w, ShapeAt(s, path))
    requires HasShape(v, s) && v == Load(mem, addr, s) && ByteAt(s, v, off).Some?
    ensures var o, size := OffsetOf(s, path), ShapeAt(s, path).size;
      ByteAt(s, Insert(s, v, path, w), off)
      == if o <= off < o + size then ByteAt(ShapeAt(s, path), w, off - o) else Some(mem(addr + off))
    ensures ByteAt(s, Insert(s, v, path, w), off).Some?
  {
    InsertedByte(s, v, path, w, off);
    SameBytes(s, Insert(s, v, path, w), v, off);
    LoadedByte(mem, addr, s, off);
  }

  /** Storing the rebuilt whole is storing the element at its offset: memory agrees outside the
      whole and on every byte of it that is not padding. */
  lemma StoreInsertIsStore(mem: Memory, addr: nat, s: Shape, v: Val, path: seq<nat>, w: Val, junk: Memory, a: nat)
    requires LaidOut(s) && Leads(s, path) && HasShape(w, ShapeAt(s, path)) && HasShape(v, s) && v == Load(mem, addr, s)
    requires addr <= a < addr + s.size ==> ByteAt(s, v, a - addr).Some?
    ensures Store(mem, addr, s, Insert(s, v, path, w), junk)(a)
         == Store(mem, addr + OffsetOf(s, path), ShapeAt(s, path), w, junk)(a)
  {
    PathInside(s, path);
    if addr <= a < addr + s.size {
      RebuiltStored(mem, addr, s, v, path, w, junk, a, a - addr);
    } else {
      StoredOutside(mem, addr, s, Insert(s, v, path, w), junk, a);
      StoredOutside(mem, addr + OffsetOf(s, path), ShapeAt(s, path), w, junk, a);
    }
  }

  lemma RebuiltStored(mem: Memory, addr: nat, s: Shape, v: Val, path: seq<nat>, w: Val, junk: Memory, a: nat, off: nat)
    requires LaidOut(s) && Leads(s, path) && HasShape(w, ShapeAt(s, path)) && HasShape(v, s) && v == Load(mem, addr, s)
    requires off < s.size && a == addr + off && ByteAt(s, v, off).Some?
    requires OffsetOf(s, path) + ShapeAt(s, path).size <= s.size
    ensures Store(mem, addr, s, Insert(s, v, path, w), junk)(a)
         == Store(mem, addr + OffsetOf(s, path), ShapeAt(s, path), w, junk)(a)
  {
    RebuiltByte(mem, addr, s, v, path, w, off);
    StoredInside(mem, addr, s, Insert(s, v, path, w), OffsetOf(s, path), ShapeAt(s, path), w, junk, a, off);
  }

  lemma StoredInside(mem: Memory, addr: nat, s: Shape, whole: Val, o: nat, part: Shape, w: Val, junk: Memory,
      a: nat, off: nat)
    requires HasShape(whole, s) && HasShape(w, part) && o + part.size <= s.size && off < s.size && a == addr + off
    requires ByteAt(s, whole, off).Some?
    requires ByteAt(s, whole, off) == if o <= off < o + part.size then ByteAt(part, w, off - o) else Some(mem(a))
    ensures Store(mem, addr, s, whole, junk)(a) == Store(mem, addr + o, part, w, junk)(a)
  {
    assert a - addr == off && a - (addr + o) == off - o;
  }

  /** Two paths of which neither leads into the other. */
  predicate Diverge(p: seq<nat>, q: seq<nat>) {
    p != [] && q != [] && (p[0] != q[0] || Diverge(p[1..], q[1..]))
  }

  lemma {:induction false} DivergingPathsApart(s: Shape, p: seq<nat>, q: seq<nat>)
    requires LaidOut(s) && Leads(s, p) && Leads(s, q) && Diverge(p, q)
    ensures var o, m, r, n := OffsetOf(s, p), ShapeAt(s, p).size, OffsetOf(s, q), ShapeAt(s, q).size;
      m == 0 || n == 0 || o + m <= r || r + n <= o
    decreases p
  {
    var i, j := p[0], q[0];
    PathInside(s.parts[i], p[1..]);
    PathInside(s.parts[j], q[1..]);
    if i == j {
      DivergingPathsApart(s.parts[i], p[1..], q[1..]);
    } else if i < j {
      assert Precedes(s, i, j);
    } else {
      assert Precedes(s, j, i);
    }
  }

  /** A store through one path leaves what any other path reads unchanged. */
  lemma OtherPathsKeep(mem: Memory, addr: nat, s: Shape, p: seq<nat>, q: seq<nat>, w: Val, junk: Memory)
    requires LaidOut(s) && Leads(s, p) && Leads(s, q) && Diverge(p, q) && HasShape(w, ShapeAt(s, p))
    ensures Load(Store(mem, addr + OffsetOf(s, p), ShapeAt(s, p), w, junk), addr + OffsetOf(s, q), ShapeAt(s, q))
         == Load(mem, addr + OffsetOf(s, q), ShapeAt(s, q))
  {
    PathInside(s, q);
    DivergingPathsApart(s, p, q);
    LoadReads(Store(mem, addr + OffsetOf(s, p), ShapeAt(s, p), w, junk), mem, addr + OffsetOf(s, q), ShapeAt(s, q));
  }
}
