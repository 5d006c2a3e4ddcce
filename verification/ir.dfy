/** The ops the importer emits for integer arithmetic, their meaning on w-bit words, and the block they go to. */
module Ir {
  import opened Bits
  import opened Floats

  /** An integer type; a comparison gives an unsigned one-bit value. */
  datatype Ty = Int(width: nat, signed: bool)

  const BOOL := Int(1, false)
  const U64 := Int(64, false)

  // ---- words ----

  /** What is left of `x` after taking away a multiple of `d`: between zero and `d`. */
  function Remainder(x: int, d: nat): (r: nat)
    requires d > 0
    ensures r < d
    decreases if x < 0 then d - x else x
  {
    if x < 0 then Remainder(x + d, d) else if x < d then x else Remainder(x - d, d)
  }

  /** How many times `d` goes into `x`, rounding down. */
  function Quotient(x: int, d: nat): (q: int)
    requires d > 0
    ensures x >= 0 ==> 0 <= q <= x
    decreases if x < 0 then d - x else x
  {
    if x < 0 then Quotient(x + d, d) - 1 else if x < d then 0 else 1 + Quotient(x - d, d)
  }

  lemma {:induction false} QuotientRemainder(x: int, d: nat)
    requires d > 0
    ensures x == d * Quotient(x, d) + Remainder(x, d)
    decreases if x < 0 then d - x else x
  {
    if x < 0 {
      QuotientRemainder(x + d, d);
      assert d * (Quotient(x, d) + 1) == d * Quotient(x, d) + d;
    } else if x >= d {
      QuotientRemainder(x - d, d);
      assert d * Quotient(x, d) == d + d * (Quotient(x, d) - 1);
    }
  }

  /** There is only one way to divide. */
  lemma DivideUniquely(x: int, d: nat, q: int, r: int)
    requires d > 0 && x == d * q + r && 0 <= r < d
    ensures Quotient(x, d) == q && Remainder(x, d) == r
  {
    QuotientRemainder(x, d);
    DivUnique(x, d, q, r);
    DivUnique(x, d, Quotient(x, d), Remainder(x, d));
  }

  lemma QuotientIsDivision(x: int, d: nat)
    requires d > 0
    ensures Quotient(x, d) == x / d && Remainder(x, d) == x % d
  {
    DivideUniquely(x, d, x / d, x % d);
  }

  /** `x` in w bits: what wrapping arithmetic keeps of it. */
  function Wrap(x: int, w: nat): (r: nat)
    ensures r < Pow2(w)
  {
    Remainder(x, Pow2(w))
  }

  /** A w-bit word read in two's complement. */
  function Signed(x: nat, w: nat): int {
    if w > 0 && x >= Pow2(w - 1) then x - Pow2(w) else x
  }

  /** Wrapping undoes the reading, for every word of the width. */
  lemma SignedRange(x: nat, w: nat)
    requires x < Pow2(w)
    ensures Wrap(Signed(x, w), w) == x
    ensures w > 0 ==> 0 - Pow2(w - 1) <= Signed(x, w) < Pow2(w - 1)
  {
    if Signed(x, w) < 0 {
      assert Remainder(x - Pow2(w), Pow2(w)) == Remainder(x, Pow2(w));
    }
  }

  /** A word of type `ty`, read as its type says. */
  function Read(ty: Ty, x: nat): int {
    if ty.signed then Signed(x, ty.width) else x
  }

  /** A shift right that fills with copies of the sign where the type has one. */
  function ShiftRight(ty: Ty, x: nat, k: nat): nat {
    Wrap(Quotient(Read(ty, x), Pow2(k)), ty.width)
  }

  /** A cast extends by the signedness of its source and otherwise drops high bits. */
  function Convert(from: Ty, to: Ty, x: nat): nat {
    Wrap(Read(from, x), to.width)
  }

  function Truth(b: bool): nat {
    if b then 1 else 0
  }

  // ---- values ----

  datatype Op = Add | Sub | Mul | Shl | Shr | BitAnd | BitOr | BitXor | Eq | Ne | Lt | Le | Gt | Ge

  /** An SSA value: a value from outside, a constant, or the result of an op. Floats are the words
      that encode them. */
  datatype Value =
    | Outside(ty: Ty, index: nat)
    | Constant(ty: Ty, bits: nat)
    | Binary(ty: Ty, op: Op, lhs: Value, rhs: Value)
    | Cast(ty: Ty, of: Value)
    | FloatCompare(ty: Ty, format: Format, op: Op, lhs: Value, rhs: Value)
    | Call(ty: Ty, callee: string, argument: Value)

  function Apply(op: Op, ty: Ty, x: nat, y: nat): nat {
    match op
    case Add => Wrap(x + y, ty.width)
    case Sub => Wrap(x - y, ty.width)
    case Mul => Wrap(x * y, ty.width)
    case Shl => Wrap(x * Pow2(y), ty.width)
    case Shr => ShiftRight(ty, x, y)
    case BitAnd => And(x, y)
    case BitOr => Or(x, y)
    case BitXor => Xor(x, y)
    case Eq => Truth(x == y)
    case Ne => Truth(x != y)
    case Lt => Truth(Read(ty, x) < Read(ty, y))
    case Le => Truth(Read(ty, x) <= Read(ty, y))
    case Gt => Truth(Read(ty, x) > Read(ty, y))
    case Ge => Truth(Read(ty, x) >= Read(ty, y))
  }

  /** An ordered comparison of floats. */
  predicate CompareFloats(op: Op, x: Float, y: Float) {
    match op
    case Eq => Equal(x, y)
    case Ne => !Equal(x, y)
    case Lt => Less(x, y)
    case Le => Less(x, y) || Equal(x, y)
    case Gt => Less(y, x)
    case Ge => Less(y, x) || Equal(x, y)
    case _ => false
  }

  /** A comparison gives a bit, every other op its operands' type. */
  function ResultTy(op: Op, ty: Ty): Ty {
    if op in {Eq, Ne, Lt, Le, Gt, Ge} then BOOL else ty
  }

  /** The word `v` holds when it is executed on outside values `env` with functions `calls`. */
  function Eval(v: Value, env: nat -> nat, calls: (string, nat) -> nat): nat {
    match v
    case Outside(ty, index) => Wrap(env(index), ty.width)
    case Constant(ty, bits) => Wrap(bits, ty.width)
    case Binary(ty, op, lhs, rhs) => Wrap(Apply(op, lhs.ty, Eval(lhs, env, calls), Eval(rhs, env, calls)), ty.width)
    case Cast(ty, of) => Convert(of.ty, ty, Eval(of, env, calls))
    case FloatCompare(ty, format, op, lhs, rhs) =>
      Wrap(Truth(CompareFloats(op, Decode(format, Eval(lhs, env, calls)), Decode(format, Eval(rhs, env, calls)))), ty.width)
    case Call(ty, callee, argument) => Wrap(calls(callee, Eval(argument, env, calls)), ty.width)
  }

  /** The words all values hold in one execution. */
  type Words = Value -> nat

  /** `v` holds what its op makes of what its operands hold. */
  ghost predicate Computes(at: Words, v: Value) {
    && at(v) < Pow2(v.ty.width)
    && match v
       case Outside(ty, index) => true
       case Constant(ty, bits) => at(v) == Wrap(bits, ty.width)
       case Binary(ty, op, lhs, rhs) => at(v) == Wrap(Apply(op, lhs.ty, at(lhs), at(rhs)), ty.width)
       case Cast(ty, of) => at(v) == Convert(of.ty, ty, at(of))
       case FloatCompare(ty, format, op, lhs, rhs) =>
         at(v) == Wrap(Truth(CompareFloats(op, Decode(format, at(lhs)), Decode(format, at(rhs)))), ty.width)
       case Call(ty, callee, argument) => true
  }

  /** Words that could be those of an execution. */
  ghost predicate Executes(at: Words) {
    forall v :: Computes(at, v)
  }

  /** The words of every execution are such words: what holds of them all holds of every run. */
  lemma ExecutionsExecute(env: nat -> nat, calls: (string, nat) -> nat)
    ensures Executes((v: Value) => Eval(v, env, calls))
  {
  }

  lemma InRange(at: Words, v: Value)
    requires Executes(at)
    ensures at(v) < Pow2(v.ty.width)
  {
    assert Computes(at, v);
  }

  /** Ops keep words within their type. */
  lemma ApplyInRange(op: Op, ty: Ty, x: nat, y: nat)
    requires x < Pow2(ty.width) && y < Pow2(ty.width)
    ensures Apply(op, ty, x, y) < Pow2(ResultTy(op, ty).width)
  {
    match op
    case BitAnd => AndBound(x, y, ty.width);
    case BitOr => OrBound(x, y, ty.width);
    case BitXor => XorBound(x, y, ty.width);
    case _ => assert Pow2(1) == 2;
  }

  // ---- the block ops are appended to ----

  class Block {
    var ops: seq<Value>

    /** Everything appended so far stays; what is new follows. */
    twostate predicate Extended()
      reads this
    {
      old(ops) <= ops
    }

    method EmitConstant(ty: Ty, bits: nat) returns (r: Value)
      modifies this
      ensures Extended() && r.ty == ty
      ensures forall at: Words | Executes(at) :: at(r) == Wrap(bits, ty.width)
    {
      r := Constant(ty, bits);
      ops := ops + [r];
      assert forall at: Words | Executes(at) :: Computes(at, r);
    }

    method EmitOp(op: Op, lhs: Value, rhs: Value) returns (r: Value)
      requires lhs.ty == rhs.ty
      modifies this
      ensures Extended() && r.ty == ResultTy(op, lhs.ty)
      ensures forall at: Words | Executes(at) :: at(r) == Apply(op, lhs.ty, at(lhs), at(rhs))
    {
      r := Binary(ResultTy(op, lhs.ty), op, lhs, rhs);
      ops := ops + [r];
      forall at: Words | Executes(at)
        ensures at(r) == Apply(op, lhs.ty, at(lhs), at(rhs))
      {
        assert Computes(at, r);
        InRange(at, lhs);
        InRange(at, rhs);
        ApplyInRange(op, lhs.ty, at(lhs), at(rhs));
      }
    }

    /** Casts, unless the value has the type already. */
    method EmitCast(ty: Ty, of: Value) returns (r: Value)
      modifies this
      ensures Extended() && r.ty == ty
      ensures forall at: Words | Executes(at) :: at(r) == Convert(of.ty, ty, at(of))
    {
      if of.ty == ty {
        r := of;
        forall at: Words | Executes(at)
          ensures at(r) == Convert(ty, ty, at(of))
        {
          InRange(at, of);
          SignedRange(at(of), ty.width);
        }
        return;
      }
      r := Cast(ty, of);
      ops := ops + [r];
      assert forall at: Words | Executes(at) :: Computes(at, r);
    }

    method EmitFloatCompare(format: Format, op: Op, lhs: Value, rhs: Value) returns (r: Value)
      modifies this
      ensures Extended() && r.ty == BOOL
      ensures forall at: Words | Executes(at) :: at(r) == Truth(CompareFloats(op, Decode(format, at(lhs)), Decode(format, at(rhs))))
    {
      r := FloatCompare(BOOL, format, op, lhs, rhs);
      ops := ops + [r];
      assert Pow2(1) == 2;
      assert forall at: Words | Executes(at) :: Computes(at, r);
    }

    /** A call: nothing is known of its result but its type. */
    method EmitCall(ty: Ty, callee: string, argument: Value) returns (r: Value)
      modifies this
      ensures Extended() && r == Call(ty, callee, argument)
    {
      r := Call(ty, callee, argument);
      ops := ops + [r];
    }
  }
}
