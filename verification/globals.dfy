/** Emitting the globals behind constant allocations, whose pointers may form cycles. */
module AllocationGlobals {
  import Bits
  import opened Wrappers

  type Byte = bv8

  datatype Symbol = OfAllocation(id: nat) | Named(name: string)

  /** An evaluated allocation: raw bytes and which pointer slots refer to which allocation. */
  datatype Allocation = Allocation(bytes: seq<Byte>, align: nat, mutable: bool, pointers: seq<(nat, nat)>)

  /** What an allocation id stands for. A function is imported, reached through a thunk, or cannot
      be; a virtual table has an allocation of its own; a type id has no address. */
  datatype Item =
    | Memory(alloc: Allocation)
    | Static(name: string)
    | Function(symbol: Symbol, available: bool)
    | VTable(id: nat)
    | TypeId

  /** All there is to refer to: items by id; statics by name with the initializer of those defined
      here; and what the bodies of functions refer to, constants and callees, in order. */
  datatype World = World(items: map<nat, Item>, statics: map<string, Option<Allocation>>, bodies: map<Symbol, seq<nat>>)

  datatype Relocation = Relocation(offset: nat, symbol: Symbol, addend: int)
  datatype Data = Data(bytes: seq<Byte>, align: nat, mutable: bool, relocs: seq<Relocation>)

  /** A global without data is a declaration. */
  datatype Global = Global(data: Option<Data>)

  datatype EmitError = NoAddress | FunctionUnavailable | VTableNotMemory

  const POINTER_SIZE := 8

  // ---- what must be emitted ----

  /** Little-endian. */
  function ReadUint(bytes: seq<Byte>): nat {
    if bytes == [] then 0 else bytes[0] as nat + 256 * ReadUint(bytes[1..])
  }

  /** The 64-bit word, as the signed number a relocation carries. */
  function AsSigned(x: nat): int {
    if x >= 0x8000_0000_0000_0000 then x - 0x1_0000_0000_0000_0000 else x
  }

  function Power256(n: nat): (p: nat)
    ensures p > 0
  {
    if n == 0 then 1 else 256 * Power256(n - 1)
  }

  /** The word is made of its bytes, the lowest first. */
  lemma {:induction false} ReadUintHolds(bytes: seq<Byte>, i: nat)
    requires i < |bytes|
    ensures ReadUint(bytes) / Power256(i) % 256 == bytes[i] as nat
  {
    var low, rest := bytes[0] as nat, ReadUint(bytes[1..]);
    if i == 0 {
      LowByte(low, rest);
    } else {
      ReadUintHolds(bytes[1..], i - 1);
      NextByte(low, rest, Power256(i - 1));
    }
  }

  lemma LowByte(low: nat, rest: nat)
    requires low < 256
    ensures (low + 256 * rest) / 1 % 256 == low
  {
  }

  lemma NextByte(low: nat, rest: nat, p: nat)
    requires low < 256 && p > 0
    ensures 256 * p > 0 && (low + 256 * rest) / (256 * p) == rest / p
  {
    Bits.DivDiv(low + 256 * rest, 256, p);
  }

  /** A relocation's addend is the word in two's complement. */
  lemma AddendIsSigned(x: nat)
    requires x < 0x1_0000_0000_0000_0000
    ensures -0x8000_0000_0000_0000 <= AsSigned(x) < 0x8000_0000_0000_0000
    ensures AsSigned(x) % 0x1_0000_0000_0000_0000 == x
  {
  }

  ghost predicate GoodAllocation(w: World, alloc: Allocation) {
    forall p | p in alloc.pointers :: p.0 + POINTER_SIZE <= |alloc.bytes| && p.1 in w.items
  }

  ghost predicate GoodWorld(w: World) {
    && (forall i | i in w.items :: GoodItem(w, w.items[i]))
    && (forall n | n in w.statics && w.statics[n].Some? :: GoodAllocation(w, w.statics[n].value))
    && (forall f | f in w.bodies :: GoodBody(w, w.bodies[f]))
    && FunctionSymbols(w) !! Universe(w) && w.bodies.Keys !! Universe(w)
  }

  lemma BodyInWorld(w: World, f: Symbol, n: nat)
    requires GoodWorld(w) && n < |BodyOf(w, f)|
    ensures BodyOf(w, f)[n] in w.items
  {
    assert GoodBody(w, w.bodies[f]) && BodyOf(w, f)[n] in w.bodies[f];
  }

  ghost predicate GoodBody(w: World, body: seq<nat>) {
    forall id | id in body :: id in w.items
  }

  /** What a function refers to; a thunk refers to nothing here. */
  function BodyOf(w: World, f: Symbol): seq<nat> {
    if f in w.bodies then w.bodies[f] else []
  }

  ghost predicate GoodItem(w: World, item: Item) {
    match item
    case Memory(alloc) => GoodAllocation(w, alloc)
    case Static(name) => name in w.statics
    case VTable(id) => id in w.items
    case _ => true
  }

  /** The symbol whose address is an item's. */
  function SymbolFor(w: World, id: nat): Symbol
    requires id in w.items
  {
    match w.items[id]
    case Memory(_) => OfAllocation(id)
    case Static(name) => Named(name)
    case Function(symbol, _) => symbol
    case VTable(table) => OfAllocation(table)
    case TypeId => OfAllocation(id)
  }

  function Addend(alloc: Allocation, slot: nat): int
    requires slot + POINTER_SIZE <= |alloc.bytes|
  {
    AsSigned(ReadUint(alloc.bytes[slot..slot + POINTER_SIZE]))
  }

  /** The relocations of the first `n` pointer slots; a type id needs none. */
  function Relocations(w: World, alloc: Allocation, n: nat): seq<Relocation>
    requires GoodAllocation(w, alloc) && n <= |alloc.pointers|
  {
    if n == 0 then []
    else
      var (slot, id) := alloc.pointers[n - 1];
      assert alloc.pointers[n - 1] in alloc.pointers;
      Relocations(w, alloc, n - 1)
      + if w.items[id].TypeId? then [] else [Relocation(slot, SymbolFor(w, id), Addend(alloc, slot))]
  }

  function DataFor(w: World, alloc: Allocation): Data
    requires GoodAllocation(w, alloc)
  {
    Data(alloc.bytes, alloc.align, alloc.mutable, Relocations(w, alloc, |alloc.pointers|))
  }

  /** The allocation behind a symbol, when it is a global defined here. */
  function Behind(w: World, symbol: Symbol): Option<Allocation> {
    match symbol
    case OfAllocation(id) => if id in w.items && w.items[id].Memory? then Some(w.items[id].alloc) else None
    case Named(name) => if name in w.statics then w.statics[name] else None
  }

  lemma BehindIsGood(w: World, symbol: Symbol)
    requires GoodWorld(w) && Behind(w, symbol).Some?
    ensures GoodAllocation(w, Behind(w, symbol).value)
  {
    if symbol.OfAllocation? {
      assert GoodItem(w, w.items[symbol.id]);
    }
  }

  /** The symbols globals can have, and those functions can. */
  function Universe(w: World): set<Symbol> {
    (set id | id in w.items :: OfAllocation(id)) + (set name | name in w.statics :: Named(name))
  }

  function FunctionSymbols(w: World): set<Symbol> {
    set id | id in w.items && w.items[id].Function? :: w.items[id].symbol
  }

  /** A global or function refers to another: by a pointer, or in its body. */
  ghost predicate RefersTo(w: World, a: Symbol, b: Symbol) {
    PointsTo(w, a, b) || Mentions(w, a, b)
  }

  ghost predicate PointsTo(w: World, a: Symbol, b: Symbol) {
    var alloc := Behind(w, a);
    alloc.Some? && exists p :: p in alloc.value.pointers && p.1 in w.items && !w.items[p.1].TypeId? && SymbolFor(w, p.1) == b
  }

  ghost predicate Mentions(w: World, a: Symbol, b: Symbol) {
    exists id :: id in BodyOf(w, a) && id in w.items && !w.items[id].TypeId? && SymbolFor(w, id) == b
  }

  /** Why an item can have no address, if it cannot. */
  ghost function Refusal(w: World, id: nat): Option<EmitError>
    requires id in w.items
  {
    match w.items[id]
    case Function(_, available) => if available then None else Some(FunctionUnavailable)
    case VTable(table) => if table in w.items && w.items[table].Memory? then None else Some(VTableNotMemory)
    case TypeId => Some(NoAddress)
    case _ => None
  }

  /** One of the first `n` pointer slots needs an address that there is not; a type id's needs none. */
  ghost predicate BadPointer(w: World, pointers: seq<(nat, nat)>, n: nat, e: EmitError)
    requires n <= |pointers|
  {
    exists i: nat :: i < n && pointers[i].1 in w.items && !w.items[pointers[i].1].TypeId? && Refusal(w, pointers[i].1) == Some(e)
  }

  /** One of the first `n` mentions does. */
  ghost predicate BadMention(w: World, body: seq<nat>, n: nat, e: EmitError)
    requires n <= |body|
  {
    exists i: nat :: i < n && body[i] in w.items && Refusal(w, body[i]) == Some(e)
  }

  /** A pointer slot that asks for no address, or for one there is. */
  ghost predicate GoodTarget(w: World, id: nat) {
    id in w.items ==> w.items[id].TypeId? || Refusal(w, id).None?
  }

  ghost predicate PointersGood(w: World, pointers: seq<(nat, nat)>, n: nat)
    requires n <= |pointers|
  {
    forall i: nat | i < n :: GoodTarget(w, pointers[i].1)
  }

  ghost predicate MentionsGood(w: World, body: seq<nat>, n: nat)
    requires n <= |body|
  {
    forall i: nat | i < n && body[i] in w.items :: Refusal(w, body[i]).None?
  }

  /** A global or function cannot be finished, and why. */
  ghost predicate Stuck(w: World, symbol: Symbol, e: EmitError) {
    || (var alloc := Behind(w, symbol); alloc.Some? && BadPointer(w, alloc.value.pointers, |alloc.value.pointers|, e))
    || BadMention(w, BodyOf(w, symbol), |BodyOf(w, symbol)|, e)
  }

  /** Something reachable cannot be finished. */
  ghost predicate Fails(w: World, symbol: Symbol, e: EmitError) {
    exists t :: Reachable(w, symbol, t) && Stuck(w, t, e)
  }

  lemma FailsItself(w: World, symbol: Symbol, e: EmitError)
    requires Stuck(w, symbol, e)
    ensures Fails(w, symbol, e)
  {
    ReachesItself(w, symbol);
  }

  lemma FailsThrough(w: World, a: Symbol, b: Symbol, e: EmitError)
    requires RefersTo(w, a, b) && Fails(w, b, e)
    ensures Fails(w, a, e)
  {
    var t :| Reachable(w, b, t) && Stuck(w, t, e);
    ReachesOneFurther(w, a, b, t);
  }

  ghost predicate Path(w: World, path: seq<Symbol>) {
    path != [] && forall i | 0 <= i < |path| - 1 :: RefersTo(w, path[i], path[i + 1])
  }

  ghost predicate Reachable(w: World, a: Symbol, b: Symbol) {
    exists path :: Path(w, path) && path[0] == a && path[|path| - 1] == b
  }

  lemma ReachesItself(w: World, a: Symbol)
    ensures Reachable(w, a, a)
  {
    assert Path(w, [a]);
  }

  lemma ReachesOneFurther(w: World, a: Symbol, b: Symbol, c: Symbol)
    requires RefersTo(w, a, b) && Reachable(w, b, c)
    ensures Reachable(w, a, c)
  {
    var path :| Path(w, path) && path[0] == b && path[|path| - 1] == c;
    var longer := [a] + path;
    forall i | 0 <= i < |longer| - 1
      ensures RefersTo(w, longer[i], longer[i + 1])
    {
      if i > 0 {
        assert RefersTo(w, path[i - 1], path[i]);
      }
    }
    assert Path(w, longer) && longer[|longer| - 1] == c;
  }

  /** Every global and function that came in between is reachable from `a`. */
  ghost predicate OnlyReached(w: World, a: Symbol, before: Globals, fs: set<Symbol>, after: Globals, gs: set<Symbol>) {
    && (forall s | s in after && s !in before :: Reachable(w, a, s))
    && (forall s | s in gs && s !in fs :: Reachable(w, a, s))
  }

  lemma ReachedMore(w: World, a: Symbol, before: Globals, fs: set<Symbol>, mid: Globals, ms: set<Symbol>, after: Globals, gs: set<Symbol>)
    requires OnlyReached(w, a, before, fs, mid, ms) && OnlyReached(w, a, mid, ms, after, gs)
    ensures OnlyReached(w, a, before, fs, after, gs)
  {
  }

  lemma ReachedThrough(w: World, a: Symbol, b: Symbol, before: Globals, fs: set<Symbol>, after: Globals, gs: set<Symbol>)
    requires RefersTo(w, a, b) && OnlyReached(w, b, before, fs, after, gs)
    ensures OnlyReached(w, a, before, fs, after, gs)
  {
    forall s | (s in after && s !in before) || (s in gs && s !in fs)
      ensures Reachable(w, a, s)
    {
      ReachesOneFurther(w, a, b, s);
    }
  }

  /** The global or function that is put in first is reachable from itself. */
  lemma ReachedAround(w: World, symbol: Symbol, before: Globals, fs: set<Symbol>, mid: Globals, after: Globals, gs: set<Symbol>)
    requires OnlyReached(w, symbol, before[symbol := Global(None)], fs, mid, gs) && after.Keys <= mid.Keys + {symbol}
    ensures OnlyReached(w, symbol, before, fs, after, gs)
  {
    ReachesItself(w, symbol);
  }

  lemma ReachedFrom(w: World, f: Symbol, before: Globals, fs: set<Symbol>, after: Globals, gs: set<Symbol>)
    requires OnlyReached(w, f, before, fs + {f}, after, gs)
    ensures OnlyReached(w, f, before, fs, after, gs)
  {
    ReachesItself(w, f);
  }

  // ---- what emission keeps ----

  type Globals = map<Symbol, Global>

  ghost predicate Present(symbol: Symbol, globals: Globals, functions: set<Symbol>) {
    symbol in globals || symbol in functions
  }

  /** A finished global: its data is the allocation's, and everything its relocations name is there. */
  ghost predicate Finished(w: World, symbol: Symbol, globals: Globals, functions: set<Symbol>)
    requires GoodWorld(w) && symbol in globals
  {
    var alloc := Behind(w, symbol);
    alloc.Some? ==>
      && GoodAllocation(w, alloc.value)
      && globals[symbol].data == Some(DataFor(w, alloc.value))
      && AllPresent(DataFor(w, alloc.value).relocs, globals, functions)
      && PointersGood(w, alloc.value.pointers, |alloc.value.pointers|)
  }

  /** A function's body is imported: everything it refers to is there. */
  ghost predicate BodyThere(w: World, f: Symbol, globals: Globals, functions: set<Symbol>) {
    && AllMentioned(w, BodyOf(w, f), |BodyOf(w, f)|, globals, functions)
    && MentionsGood(w, BodyOf(w, f), |BodyOf(w, f)|)
  }

  ghost predicate AllMentioned(w: World, body: seq<nat>, n: nat, globals: Globals, functions: set<Symbol>)
    requires n <= |body|
  {
    forall i | 0 <= i < n && body[i] in w.items && !w.items[body[i]].TypeId? :: Present(SymbolFor(w, body[i]), globals, functions)
  }

  /** Every global and function but the ones under way is finished; those are there, globals
      without data yet. */
  ghost predicate AllFinished(w: World, open: set<Symbol>, globals: Globals, functions: set<Symbol>)
    requires GoodWorld(w)
  {
    && (forall s | s in open :: s in functions || (s in globals && globals[s].data.None?))
    && (forall s | s in globals && s !in open :: Finished(w, s, globals, functions))
    && (forall f | f in functions && f !in open :: BodyThere(w, f, globals, functions))
  }

  /** Globals and functions do not share names. */
  ghost predicate NamesApart(w: World, globals: Globals, functions: set<Symbol>) {
    functions !! Universe(w) && globals.Keys !! w.bodies.Keys + FunctionSymbols(w)
  }

  /** Later states only add. */
  ghost predicate Grows(before: Globals, fs: set<Symbol>, after: Globals, gs: set<Symbol>) {
    fs <= gs && forall s | s in before :: s in after && after[s] == before[s]
  }

  function Left(w: World, globals: Globals, functions: set<Symbol>): nat {
    |Universe(w) - globals.Keys| + |FunctionSymbols(w) - functions|
  }

  lemma Fewer<T>(v: set<T>, u: set<T>)
    requires v <= u
    ensures |v| <= |u|
  {
    assert |u| == |v| + |u - v| by { assert u == v + (u - v); }
  }

  lemma LeftGrows(w: World, before: Globals, fs: set<Symbol>, after: Globals, gs: set<Symbol>)
    requires before.Keys <= after.Keys && fs <= gs
    ensures Left(w, after, gs) <= Left(w, before, fs)
  {
    Fewer(Universe(w) - after.Keys, Universe(w) - before.Keys);
    Fewer(FunctionSymbols(w) - gs, FunctionSymbols(w) - fs);
  }

  lemma LeftShrinks(w: World, globals: Globals, functions: set<Symbol>, symbol: Symbol)
    requires symbol in Universe(w) && symbol !in globals
    ensures Left(w, globals[symbol := Global(None)], functions) < Left(w, globals, functions)
  {
    Smaller(Universe(w) - globals[symbol := Global(None)].Keys, Universe(w) - globals.Keys, symbol);
  }

  lemma FewerFunctions(w: World, globals: Globals, functions: set<Symbol>, f: Symbol)
    requires f in FunctionSymbols(w) && f !in functions
    ensures Left(w, globals, functions + {f}) < Left(w, globals, functions)
  {
    Smaller(FunctionSymbols(w) - (functions + {f}), FunctionSymbols(w) - functions, f);
  }

  lemma Smaller<T>(v: set<T>, u: set<T>, x: T)
    requires v <= u && x in u && x !in v
    ensures |v| < |u|
  {
    assert |u| == |v| + |u - v| by { assert u == v + (u - v); }
    assert x in u - v;
  }

  ghost predicate AllPresent(relocs: seq<Relocation>, globals: Globals, functions: set<Symbol>) {
    forall r | r in relocs :: Present(r.symbol, globals, functions)
  }

  lemma GrowsAround(before: Globals, fs: set<Symbol>, symbol: Symbol, after: Globals, gs: set<Symbol>)
    requires symbol !in before && Grows(before[symbol := Global(None)], fs, after, gs)
    ensures Grows(before, fs, after, gs) && symbol in after
    ensures forall data :: Grows(before, fs, after[symbol := Global(Some(data))], gs)
  {
    forall s | s in before
      ensures s in after && after[s] == before[s] && s != symbol
    {
      assert s in before[symbol := Global(None)];
    }
  }

  lemma PresentStays(relocs: seq<Relocation>, before: Globals, fs: set<Symbol>, after: Globals, gs: set<Symbol>)
    requires AllPresent(relocs, before, fs) && Grows(before, fs, after, gs)
    ensures AllPresent(relocs, after, gs)
  {
  }

  lemma MentionedStay(w: World, body: seq<nat>, n: nat, before: Globals, fs: set<Symbol>, after: Globals, gs: set<Symbol>)
    requires n < |body| && AllMentioned(w, body, n, before, fs) && Grows(before, fs, after, gs)
    requires body[n] in w.items ==> Present(SymbolFor(w, body[n]), after, gs)
    ensures AllMentioned(w, body, n + 1, after, gs)
  {
  }

  lemma BodyStays(w: World, f: Symbol, before: Globals, fs: set<Symbol>, after: Globals, gs: set<Symbol>)
    requires BodyThere(w, f, before, fs) && Grows(before, fs, after, gs)
    ensures BodyThere(w, f, after, gs)
  {
  }

  lemma FinishedStays(w: World, s: Symbol, before: Globals, fs: set<Symbol>, after: Globals, gs: set<Symbol>)
    requires GoodWorld(w) && s in before && Finished(w, s, before, fs) && Grows(before, fs, after, gs)
    ensures Finished(w, s, after, gs)
  {
  }

  /** A module's globals and functions. */
  class Module {
    var globals: Globals
    var functions: set<Symbol>

    ghost predicate Ready(w: World, open: set<Symbol>)
      requires GoodWorld(w)
      reads this
    {
      AllFinished(w, open, globals, functions) && NamesApart(w, globals, functions)
    }

    /** Defines `symbol` by an allocation, unless it is there: the global goes in first, then
        everything its pointers refer to, then its data. */
    method EmitAllocationGlobal(w: World, symbol: Symbol, alloc: Allocation, ghost open: set<Symbol>)
      returns (r: Result<(), EmitError>)
      requires GoodWorld(w) && GoodAllocation(w, alloc) && Behind(w, symbol) == Some(alloc) && symbol in Universe(w)
      requires Ready(w, open)
      modifies this
      ensures Grows(old(globals), old(functions), globals, functions)
      ensures r.Ok? ==> Present(symbol, globals, functions) && Ready(w, open)
      ensures r.Err? ==> Fails(w, symbol, r.error)
      ensures OnlyReached(w, symbol, old(globals), old(functions), globals, functions)
      decreases Left(w, globals, functions), 0
    {
      if symbol in globals || symbol in functions {
        return Ok(());
      }
      ghost var before, fs := globals, functions;
      LeftShrinks(w, globals, functions, symbol);
      OpenedIsReady(w, open, symbol, before, functions);
      globals := globals[symbol := Global(None)];
      var relocs := EmitTargets(w, symbol, alloc, open + {symbol});
      ghost var last := globals;
      ReachedAround(w, symbol, before, fs, last, last, functions);
      GrowsAround(before, fs, symbol, globals, functions);
      if relocs.Err? {
        return Err(relocs.error);
      }
      globals := globals[symbol := Global(Some(Data(alloc.bytes, alloc.align, alloc.mutable, relocs.value)))];
      ReachedAround(w, symbol, before, fs, last, globals, functions);
      ClosedIsReady(w, open, symbol, alloc, last, functions);
      r := Ok(());
    }

    /** Everything the allocation's pointers refer to, and the relocations that say so. */
    method EmitTargets(w: World, ghost symbol: Symbol, alloc: Allocation, ghost open: set<Symbol>)
      returns (r: Result<seq<Relocation>, EmitError>)
      requires GoodWorld(w) && GoodAllocation(w, alloc) && Ready(w, open) && Behind(w, symbol) == Some(alloc)
      modifies this
      ensures Grows(old(globals), old(functions), globals, functions)
      ensures r.Ok? ==> r.value == DataFor(w, alloc).relocs && Ready(w, open) && AllPresent(r.value, globals, functions)
      ensures r.Ok? ==> PointersGood(w, alloc.pointers, |alloc.pointers|)
      ensures r.Err? ==> Fails(w, symbol, r.error)
      ensures OnlyReached(w, symbol, old(globals), old(functions), globals, functions)
      decreases Left(w, globals, functions), 5
    {
      ghost var before, fs := globals, functions;
      var relocs: seq<Relocation> := [];
      for n := 0 to |alloc.pointers|
        invariant Grows(before, fs, globals, functions) && Left(w, globals, functions) <= Left(w, before, fs)
        invariant Ready(w, open)
        invariant TargetsDone(w, alloc, n, relocs, globals, functions)
        invariant OnlyReached(w, symbol, before, fs, globals, functions)
      {
        ghost var mid, ms := globals, functions;
        var more := EmitTarget(w, symbol, alloc, n, open);
        ReachedMore(w, symbol, before, fs, mid, ms, globals, functions);
        if more.Err? {
          return Err(more.error);
        }
        LeftGrows(w, mid, ms, globals, functions);
        OneMoreTarget(w, alloc, n, relocs, more.value, mid, ms, globals, functions);
        relocs := relocs + more.value;
      }
      r := Ok(relocs);
    }

    /** One pointer slot. */
    method EmitTarget(w: World, ghost symbol: Symbol, alloc: Allocation, n: nat, ghost open: set<Symbol>)
      returns (r: Result<seq<Relocation>, EmitError>)
      requires GoodWorld(w) && GoodAllocation(w, alloc) && Ready(w, open) && n < |alloc.pointers|
      requires Behind(w, symbol) == Some(alloc)
      modifies this
      ensures Grows(old(globals), old(functions), globals, functions)
      ensures r.Ok? ==> Relocations(w, alloc, n + 1) == Relocations(w, alloc, n) + r.value
      ensures r.Ok? ==> Ready(w, open) && AllPresent(r.value, globals, functions) && GoodTarget(w, alloc.pointers[n].1)
      ensures r.Err? ==> Fails(w, symbol, r.error)
      ensures OnlyReached(w, symbol, old(globals), old(functions), globals, functions)
      decreases Left(w, globals, functions), 4
    {
      var (slot, id) := alloc.pointers[n];
      assert alloc.pointers[n] in alloc.pointers;
      var addend := Addend(alloc, slot);
      if w.items[id].TypeId? {
        return Ok([]);
      }
      ghost var before, fs := globals, functions;
      var target := DataGlobalForAllocation(w, id, open);
      assert PointsTo(w, symbol, SymbolFor(w, id));
      ReachedThrough(w, symbol, SymbolFor(w, id), before, fs, globals, functions);
      if target.Err? {
        PointerFails(w, symbol, alloc, n, target.error);
        return Err(target.error);
      }
      r := Ok([Relocation(slot, target.value, addend)]);
    }

    /** A static defined here is emitted from its initializer; any other is declared. */
    method DeclareStaticGlobal(w: World, name: string, ghost open: set<Symbol>) returns (r: Result<(), EmitError>)
      requires GoodWorld(w) && name in w.statics && Ready(w, open)
      modifies this
      ensures Grows(old(globals), old(functions), globals, functions)
      ensures r.Ok? ==> Present(Named(name), globals, functions) && Ready(w, open)
      ensures r.Err? ==> Fails(w, Named(name), r.error)
      ensures OnlyReached(w, Named(name), old(globals), old(functions), globals, functions)
      decreases Left(w, globals, functions), 1
    {
      var symbol := Named(name);
      if symbol in globals || symbol in functions {
        return Ok(());
      }
      if w.statics[name].Some? {
        r := EmitAllocationGlobal(w, symbol, w.statics[name].value, open);
        return;
      }
      ReachesItself(w, symbol);
      DeclaredIsReady(w, open, symbol, globals, functions);
      globals := globals[symbol := Global(None)];
      r := Ok(());
    }

    /** A function's symbol goes in first, unless it is there; then its body is imported, which
        emits the constants and imports the functions that it refers to. */
    method ImportFunction(w: World, f: Symbol, ghost open: set<Symbol>) returns (r: Result<(), EmitError>)
      requires GoodWorld(w) && f in FunctionSymbols(w) && Ready(w, open)
      modifies this
      ensures Grows(old(globals), old(functions), globals, functions)
      ensures r.Ok? ==> Present(f, globals, functions) && Ready(w, open)
      ensures r.Err? ==> Fails(w, f, r.error)
      ensures OnlyReached(w, f, old(globals), old(functions), globals, functions)
      decreases Left(w, globals, functions), 1
    {
      if f in globals || f in functions {
        return Ok(());
      }
      ghost var before, fs := globals, functions;
      FewerFunctions(w, globals, functions, f);
      EnteredIsReady(w, open, f, before, fs);
      functions := functions + {f};
      r := ImportBody(w, f, open + {f});
      ReachedFrom(w, f, before, fs, globals, functions);
      if r.Ok? {
        LeftIsReady(w, open, f, globals, functions);
      }
    }

    /** Everything the function's body refers to. */
    method ImportBody(w: World, f: Symbol, ghost open: set<Symbol>) returns (r: Result<(), EmitError>)
      requires GoodWorld(w) && Ready(w, open)
      modifies this
      ensures Grows(old(globals), old(functions), globals, functions)
      ensures r.Ok? ==> Ready(w, open) && BodyThere(w, f, globals, functions)
      ensures r.Err? ==> Fails(w, f, r.error)
      ensures OnlyReached(w, f, old(globals), old(functions), globals, functions)
      decreases Left(w, globals, functions), 5
    {
      var body := BodyOf(w, f);
      ghost var before, fs := globals, functions;
      for n := 0 to |body|
        invariant Grows(before, fs, globals, functions) && Left(w, globals, functions) <= Left(w, before, fs)
        invariant Ready(w, open) && AllMentioned(w, body, n, globals, functions)
        invariant MentionsGood(w, body, n)
        invariant OnlyReached(w, f, before, fs, globals, functions)
      {
        BodyInWorld(w, f, n);
        ghost var mid, ms := globals, functions;
        r := ImportMention(w, f, n, open);
        ReachedMore(w, f, before, fs, mid, ms, globals, functions);
        if r.Err? {
          return;
        }
        LeftGrows(w, mid, ms, globals, functions);
        MentionedStay(w, body, n, mid, ms, globals, functions);
        OneMoreMention(w, body, n);
      }
      r := Ok(());
    }

    /** One constant or callee. */
    method ImportMention(w: World, f: Symbol, n: nat, ghost open: set<Symbol>) returns (r: Result<(), EmitError>)
      requires GoodWorld(w) && Ready(w, open) && n < |BodyOf(w, f)| && BodyOf(w, f)[n] in w.items
      modifies this
      ensures Grows(old(globals), old(functions), globals, functions)
      ensures r.Ok? ==> Ready(w, open) && Present(SymbolFor(w, BodyOf(w, f)[n]), globals, functions)
      ensures r.Ok? ==> Refusal(w, BodyOf(w, f)[n]).None?
      ensures r.Err? ==> Fails(w, f, r.error)
      ensures OnlyReached(w, f, old(globals), old(functions), globals, functions)
      decreases Left(w, globals, functions), 4
    {
      var id := BodyOf(w, f)[n];
      ghost var before, fs := globals, functions;
      var target := DataGlobalForAllocation(w, id, open);
      if !w.items[id].TypeId? {
        assert Mentions(w, f, SymbolFor(w, id));
        ReachedThrough(w, f, SymbolFor(w, id), before, fs, globals, functions);
      }
      if target.Err? {
        MentionFails(w, f, n, target.error);
        return Err(target.error);
      }
      r := Ok(());
    }

    /** The symbol of an allocation id, emitting what is behind it on first use. */
    method DataGlobalForAllocation(w: World, id: nat, ghost open: set<Symbol>) returns (r: Result<Symbol, EmitError>)
      requires GoodWorld(w) && id in w.items && Ready(w, open)
      modifies this
      ensures Grows(old(globals), old(functions), globals, functions)
      ensures r.Ok? ==> r.value == SymbolFor(w, id) && Present(r.value, globals, functions) && Ready(w, open)
      ensures Refusal(w, id).Some? ==> r == Err(Refusal(w, id).value) && globals == old(globals) && functions == old(functions)
      ensures r.Err? ==> Refusal(w, id) == Some(r.error) || Fails(w, SymbolFor(w, id), r.error)
      ensures OnlyReached(w, SymbolFor(w, id), old(globals), old(functions), globals, functions)
      decreases Left(w, globals, functions), 3
    {
      assert GoodItem(w, w.items[id]);
      match w.items[id]
      case Memory(alloc) =>
        var done := EmitAllocationGlobal(w, OfAllocation(id), alloc, open);
        r := if done.Ok? then Ok(OfAllocation(id)) else Err(done.error);
      case Static(name) =>
        var done := DeclareStaticGlobal(w, name, open);
        r := if done.Ok? then Ok(Named(name)) else Err(done.error);
      case Function(symbol, available) =>
        if !available {
          return Err(FunctionUnavailable);
        }
        var done := ImportFunction(w, symbol, open);
        r := if done.Ok? then Ok(symbol) else Err(done.error);
      case VTable(table) =>
        if !w.items[table].Memory? {
          return Err(VTableNotMemory);
        }
        assert GoodItem(w, w.items[table]);
        var done := EmitAllocationGlobal(w, OfAllocation(table), w.items[table].alloc, open);
        r := if done.Ok? then Ok(OfAllocation(table)) else Err(done.error);
      case TypeId => r := Err(NoAddress);
    }
  }

  /** The first `n` pointer slots are dealt with. */
  ghost predicate TargetsDone(w: World, alloc: Allocation, n: nat, relocs: seq<Relocation>, globals: Globals, functions: set<Symbol>)
    requires GoodAllocation(w, alloc) && n <= |alloc.pointers|
  {
    relocs == Relocations(w, alloc, n) && AllPresent(relocs, globals, functions) && PointersGood(w, alloc.pointers, n)
  }

  lemma OneMoreTarget(w: World, alloc: Allocation, n: nat, relocs: seq<Relocation>, more: seq<Relocation>, before: Globals,
                      fs: set<Symbol>, after: Globals, gs: set<Symbol>)
    requires GoodAllocation(w, alloc) && n < |alloc.pointers| && TargetsDone(w, alloc, n, relocs, before, fs)
    requires Grows(before, fs, after, gs) && Relocations(w, alloc, n + 1) == Relocations(w, alloc, n) + more
    requires AllPresent(more, after, gs) && GoodTarget(w, alloc.pointers[n].1)
    ensures TargetsDone(w, alloc, n + 1, relocs + more, after, gs)
  {
    PresentStays(relocs, before, fs, after, gs);
  }

  lemma OneMoreMention(w: World, body: seq<nat>, n: nat)
    requires n < |body| && body[n] in w.items && Refusal(w, body[n]).None? && MentionsGood(w, body, n)
    ensures MentionsGood(w, body, n + 1)
  {
  }

  lemma PointerFails(w: World, symbol: Symbol, alloc: Allocation, n: nat, e: EmitError)
    requires Behind(w, symbol) == Some(alloc) && n < |alloc.pointers| && alloc.pointers[n].1 in w.items
    requires !w.items[alloc.pointers[n].1].TypeId?
    requires Refusal(w, alloc.pointers[n].1) == Some(e) || Fails(w, SymbolFor(w, alloc.pointers[n].1), e)
    ensures Fails(w, symbol, e)
  {
    var id := alloc.pointers[n].1;
    if Refusal(w, id) == Some(e) {
      assert BadPointer(w, alloc.pointers, |alloc.pointers|, e);
      FailsItself(w, symbol, e);
    } else {
      assert alloc.pointers[n] in alloc.pointers;
      assert PointsTo(w, symbol, SymbolFor(w, id));
      FailsThrough(w, symbol, SymbolFor(w, id), e);
    }
  }

  lemma MentionFails(w: World, f: Symbol, n: nat, e: EmitError)
    requires n < |BodyOf(w, f)| && BodyOf(w, f)[n] in w.items
    requires Refusal(w, BodyOf(w, f)[n]) == Some(e) || (!w.items[BodyOf(w, f)[n]].TypeId? && Fails(w, SymbolFor(w, BodyOf(w, f)[n]), e))
    ensures Fails(w, f, e)
  {
    var id := BodyOf(w, f)[n];
    if Refusal(w, id) == Some(e) {
      assert BadMention(w, BodyOf(w, f), |BodyOf(w, f)|, e);
      FailsItself(w, f, e);
    } else {
      assert Mentions(w, f, SymbolFor(w, id));
      FailsThrough(w, f, SymbolFor(w, id), e);
    }
  }

  /** Adding a global or a function leaves the others finished. */
  lemma OthersStay(w: World, open: set<Symbol>, within: set<Symbol>, before: Globals, fs: set<Symbol>, after: Globals, gs: set<Symbol>)
    requires GoodWorld(w) && AllFinished(w, open, before, fs) && Grows(before, fs, after, gs) && open <= within
    requires forall s | s in within && s !in open :: s in gs || (s in after && after[s].data.None?)
    requires forall s | s in after && s !in before :: s in within
    requires forall f | f in gs && f !in fs :: f in within
    ensures AllFinished(w, within, after, gs)
  {
    forall s | s in after && s !in within
      ensures Finished(w, s, after, gs)
    {
      FinishedStays(w, s, before, fs, after, gs);
    }
    forall f | f in gs && f !in within
      ensures BodyThere(w, f, after, gs)
    {
      BodyStays(w, f, before, fs, after, gs);
    }
  }

  lemma OpenedIsReady(w: World, open: set<Symbol>, symbol: Symbol, before: Globals, functions: set<Symbol>)
    requires GoodWorld(w) && AllFinished(w, open, before, functions) && NamesApart(w, before, functions)
    requires symbol !in before && symbol in Universe(w)
    ensures AllFinished(w, open + {symbol}, before[symbol := Global(None)], functions)
    ensures NamesApart(w, before[symbol := Global(None)], functions)
  {
    OthersStay(w, open, open + {symbol}, before, functions, before[symbol := Global(None)], functions);
  }

  lemma EnteredIsReady(w: World, open: set<Symbol>, f: Symbol, globals: Globals, before: set<Symbol>)
    requires GoodWorld(w) && AllFinished(w, open, globals, before) && NamesApart(w, globals, before)
    requires f !in before && f in FunctionSymbols(w)
    ensures AllFinished(w, open + {f}, globals, before + {f}) && NamesApart(w, globals, before + {f})
  {
    OthersStay(w, open, open + {f}, globals, before, globals, before + {f});
  }

  /** A declaration is finished at once. */
  lemma DeclaredIsReady(w: World, open: set<Symbol>, symbol: Symbol, before: Globals, functions: set<Symbol>)
    requires GoodWorld(w) && AllFinished(w, open, before, functions) && NamesApart(w, before, functions)
    requires symbol !in before && symbol in Universe(w) && Behind(w, symbol).None?
    ensures AllFinished(w, open, before[symbol := Global(None)], functions)
    ensures NamesApart(w, before[symbol := Global(None)], functions)
  {
    var after := before[symbol := Global(None)];
    OpenedIsReady(w, open, symbol, before, functions);
    assert Finished(w, symbol, after, functions);
    assert symbol !in functions;
  }

  lemma ClosedIsReady(w: World, open: set<Symbol>, symbol: Symbol, alloc: Allocation, before: Globals, functions: set<Symbol>)
    requires GoodWorld(w) && GoodAllocation(w, alloc) && Behind(w, symbol) == Some(alloc) && symbol in Universe(w)
    requires symbol !in open && symbol in before && AllFinished(w, open + {symbol}, before, functions)
    requires AllPresent(DataFor(w, alloc).relocs, before, functions) && NamesApart(w, before, functions)
    requires PointersGood(w, alloc.pointers, |alloc.pointers|)
    ensures AllFinished(w, open, before[symbol := Global(Some(DataFor(w, alloc)))], functions)
    ensures NamesApart(w, before[symbol := Global(Some(DataFor(w, alloc)))], functions)
  {
    var after := before[symbol := Global(Some(DataFor(w, alloc)))];
    forall s | s in after && s !in open
      ensures Finished(w, s, after, functions)
    {
      if s != symbol {
        assert Finished(w, s, before, functions);
      }
    }
    forall f | f in functions && f !in open
      ensures BodyThere(w, f, after, functions)
    {
      assert BodyThere(w, f, before, functions);
    }
  }

  /** With its body imported, a function is finished. */
  lemma LeftIsReady(w: World, open: set<Symbol>, f: Symbol, globals: Globals, functions: set<Symbol>)
    requires GoodWorld(w) && AllFinished(w, open + {f}, globals, functions) && NamesApart(w, globals, functions)
    requires f !in globals && BodyThere(w, f, globals, functions)
    ensures AllFinished(w, open, globals, functions)
  {
  }

  // ---- what a finished module holds ----

  lemma {:induction false} RelocationsCover(w: World, alloc: Allocation, n: nat, i: nat)
    requires GoodAllocation(w, alloc) && i < n <= |alloc.pointers| && !w.items[alloc.pointers[i].1].TypeId?
    ensures alloc.pointers[i] in alloc.pointers
    ensures Relocation(alloc.pointers[i].0, SymbolFor(w, alloc.pointers[i].1), Addend(alloc, alloc.pointers[i].0)) in Relocations(w, alloc, n)
  {
    assert alloc.pointers[i] in alloc.pointers;
    if i < n - 1 {
      RelocationsCover(w, alloc, n - 1, i);
    }
  }

  /** With nothing left open, everything reachable from a global or function is there, each
      allocation defined with its own data; so no relocation or body names an undefined symbol. */
  lemma {:induction false} ReachableIsThere(w: World, globals: Globals, functions: set<Symbol>, path: seq<Symbol>)
    requires GoodWorld(w) && AllFinished(w, {}, globals, functions) && NamesApart(w, globals, functions)
    requires Path(w, path) && Present(path[0], globals, functions)
    ensures Present(path[|path| - 1], globals, functions)
    ensures Defined(w, path[|path| - 1], globals)
    decreases |path|
  {
    var n := |path| - 1;
    if n > 0 {
      assert Path(w, path[..n]) by {
        forall i | 0 <= i < n - 1
          ensures RefersTo(w, path[..n][i], path[..n][i + 1])
        {
          assert RefersTo(w, path[i], path[i + 1]);
        }
      }
      ReachableIsThere(w, globals, functions, path[..n]);
      assert RefersTo(w, path[n - 1], path[n]);
      TargetIsThere(w, globals, functions, path[n - 1], path[n]);
    }
    PresentIsDefined(w, globals, functions, path[n]);
  }

  /** What has an allocation behind it is a global with that allocation's data. */
  ghost predicate Defined(w: World, symbol: Symbol, globals: Globals) {
    var alloc := Behind(w, symbol);
    alloc.Some? ==> GoodAllocation(w, alloc.value) && symbol in globals && globals[symbol].data == Some(DataFor(w, alloc.value))
  }

  lemma PresentIsDefined(w: World, globals: Globals, functions: set<Symbol>, symbol: Symbol)
    requires GoodWorld(w) && AllFinished(w, {}, globals, functions) && NamesApart(w, globals, functions)
    requires Present(symbol, globals, functions)
    ensures Defined(w, symbol, globals)
  {
    BehindIsGoodWhere(w, symbol);
    if Behind(w, symbol).Some? {
      assert Finished(w, symbol, globals, functions);
    }
  }

  /** With nothing left open, nothing reachable from what is there is stuck: emission succeeds only
      when it could, as it fails only when it must. */
  lemma NothingIsStuck(w: World, globals: Globals, functions: set<Symbol>, symbol: Symbol, e: EmitError)
    requires GoodWorld(w) && AllFinished(w, {}, globals, functions) && NamesApart(w, globals, functions)
    requires Present(symbol, globals, functions)
    ensures !Fails(w, symbol, e)
  {
    if Fails(w, symbol, e) {
      var t :| Reachable(w, symbol, t) && Stuck(w, t, e);
      var path :| Path(w, path) && path[0] == symbol && path[|path| - 1] == t;
      ReachableIsThere(w, globals, functions, path);
      PresentIsNotStuck(w, globals, functions, t, e);
    }
  }

  lemma PresentIsNotStuck(w: World, globals: Globals, functions: set<Symbol>, symbol: Symbol, e: EmitError)
    requires GoodWorld(w) && AllFinished(w, {}, globals, functions) && NamesApart(w, globals, functions)
    requires Present(symbol, globals, functions)
    ensures !Stuck(w, symbol, e)
  {
    BehindIsGoodWhere(w, symbol);
    if Behind(w, symbol).Some? {
      assert Finished(w, symbol, globals, functions);
    }
    if symbol in w.bodies {
      assert BodyThere(w, symbol, globals, functions);
    }
  }

  lemma BehindIsGoodWhere(w: World, symbol: Symbol)
    requires GoodWorld(w)
    ensures Behind(w, symbol).Some? ==> GoodAllocation(w, Behind(w, symbol).value) && symbol in Universe(w)
  {
    if Behind(w, symbol).Some? {
      BehindIsGood(w, symbol);
    }
  }

  lemma TargetIsThere(w: World, globals: Globals, functions: set<Symbol>, a: Symbol, b: Symbol)
    requires GoodWorld(w) && AllFinished(w, {}, globals, functions) && NamesApart(w, globals, functions)
    requires Present(a, globals, functions) && RefersTo(w, a, b)
    ensures Present(b, globals, functions)
  {
    if PointsTo(w, a, b) {
      PointedIsThere(w, globals, functions, a, b);
    } else {
      MentionedIsThere(w, globals, functions, a, b);
    }
  }

  lemma PointedIsThere(w: World, globals: Globals, functions: set<Symbol>, a: Symbol, b: Symbol)
    requires GoodWorld(w) && AllFinished(w, {}, globals, functions) && NamesApart(w, globals, functions)
    requires Present(a, globals, functions) && PointsTo(w, a, b)
    ensures Present(b, globals, functions)
  {
    var alloc := Behind(w, a).value;
    BehindIsGoodWhere(w, a);
    assert Finished(w, a, globals, functions);
    var p :| p in alloc.pointers && p.1 in w.items && !w.items[p.1].TypeId? && SymbolFor(w, p.1) == b;
    var i :| 0 <= i < |alloc.pointers| && alloc.pointers[i] == p;
    RelocationsCover(w, alloc, |alloc.pointers|, i);
  }

  lemma MentionedIsThere(w: World, globals: Globals, functions: set<Symbol>, a: Symbol, b: Symbol)
    requires GoodWorld(w) && AllFinished(w, {}, globals, functions) && NamesApart(w, globals, functions)
    requires Present(a, globals, functions) && Mentions(w, a, b)
    ensures Present(b, globals, functions)
  {
    var body := BodyOf(w, a);
    var id :| id in body && id in w.items && !w.items[id].TypeId? && SymbolFor(w, id) == b;
    var i :| 0 <= i < |body| && body[i] == id;
    assert BodyThere(w, a, globals, functions);
  }

  // ---- what a linked slot means ----

  /** The address a pointer slot holds at run time: its target's base and the offset in its bytes. */
  function PointerValue(w: World, alloc: Allocation, i: nat, address: Symbol -> nat): nat
    requires GoodAllocation(w, alloc) && i < |alloc.pointers| && alloc.pointers[i] in alloc.pointers
  {
    var (slot, id) := alloc.pointers[i];
    (address(SymbolFor(w, id)) + ReadUint(alloc.bytes[slot..slot + POINTER_SIZE])) % 0x1_0000_0000_0000_0000
  }

  /** What the linker puts where a relocation says. */
  function Linked(r: Relocation, address: Symbol -> nat): nat {
    (address(r.symbol) + r.addend) % 0x1_0000_0000_0000_0000
  }

  lemma SameWord(base: nat, x: nat)
    ensures (base + AsSigned(x)) % 0x1_0000_0000_0000_0000 == (base + x) % 0x1_0000_0000_0000_0000
  {
  }

  /** Every pointer slot but a type id's is relocated to its target's base plus the offset. */
  lemma SlotsDenoteTargets(w: World, alloc: Allocation, i: nat, address: Symbol -> nat)
    requires GoodAllocation(w, alloc) && i < |alloc.pointers| && !w.items[alloc.pointers[i].1].TypeId?
    ensures alloc.pointers[i] in alloc.pointers
    ensures exists r :: r in DataFor(w, alloc).relocs && r.offset == alloc.pointers[i].0
                        && Linked(r, address) == PointerValue(w, alloc, i, address)
  {
    var (slot, id) := alloc.pointers[i];
    RelocationsCover(w, alloc, |alloc.pointers|, i);
    SameWord(address(SymbolFor(w, id)), ReadUint(alloc.bytes[slot..slot + POINTER_SIZE]));
    var r := Relocation(slot, SymbolFor(w, id), Addend(alloc, slot));
    assert Linked(r, address) == PointerValue(w, alloc, i, address);
  }

  /** And nothing else is relocated: a type id's bytes stay as they are. */
  lemma {:induction false} OnlyPointersRelocated(w: World, alloc: Allocation, n: nat, r: Relocation)
    requires GoodAllocation(w, alloc) && n <= |alloc.pointers| && r in Relocations(w, alloc, n)
    ensures exists i: nat :: i < n && alloc.pointers[i].0 == r.offset && alloc.pointers[i].1 in w.items
                             && !w.items[alloc.pointers[i].1].TypeId? && SymbolFor(w, alloc.pointers[i].1) == r.symbol
  {
    assert alloc.pointers[n - 1] in alloc.pointers;
    var (slot, id) := alloc.pointers[n - 1];
    if r in Relocations(w, alloc, n - 1) {
      OnlyPointersRelocated(w, alloc, n - 1, r);
    } else {
      assert alloc.pointers[n - 1].0 == r.offset;
    }
  }
}
