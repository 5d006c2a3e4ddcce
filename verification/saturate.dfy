/** Addition and subtraction that tell overflow or saturate: the sign rule and a single comparison
    decide, and masks instead of branches pick the result. */
module Saturate {
  import opened Bits
  import opened Ir
  import opened MulOverflow

  /** The mathematical result. */
  function Exact(isAdd: bool, x: int, y: int): int {
    if isAdd then x + y else x - y
  }

  /** The nearest number the type holds. */
  function Clamp(ty: Ty, z: int): int
    requires ty.width > 0
  {
    var lo, hi := if ty.signed then 0 - Pow2(ty.width - 1) else 0, Pow2(if ty.signed then ty.width - 1 else ty.width) - 1;
    if z < lo then lo else if z > hi then hi else z
  }

  function OpOf(isAdd: bool): Op {
    if isAdd then Add else Sub
  }

  // ---- the sign-bit rule ----

  /** What the xors and the and do to the top bit. */
  lemma TopBitOfRule(u: nat, v: nat, s: nat, t: nat, w: nat)
    requires w > 0 && u < Pow2(w) && v < Pow2(w) && s < Pow2(w) && t < Pow2(w)
    ensures And(Xor(u, v), Xor(s, t)) < Pow2(w)
    ensures Negative(And(Xor(u, v), Xor(s, t)), w) <==> Negative(u, w) != Negative(v, w) && Negative(s, w) != Negative(t, w)
  {
    XorBound(u, v, w);
    XorBound(s, t, w);
    AndBound(Xor(u, v), Xor(s, t), w);
    TopBit(And(Xor(u, v), Xor(s, t)), w);
    AndBits(Xor(u, v), Xor(s, t));
    XorBits(u, v);
    XorBits(s, t);
    TopBit(u, w);
    TopBit(v, w);
    TopBit(s, w);
    TopBit(t, w);
  }

  /** A sum overflows exactly when its operands share a sign the result does not have; a
      difference exactly when the operands' signs differ and the result's is not the first's. */
  lemma SignsTellOverflow(isAdd: bool, x: nat, y: nat, w: nat)
    requires w > 0 && x < Pow2(w) && y < Pow2(w)
    ensures var r := Wrap(Exact(isAdd, x, y), w);
      !Fits(Int(w, true), Exact(isAdd, Signed(x, w), Signed(y, w)))
      <==> if isAdd then Negative(r, w) != Negative(x, w) && Negative(r, w) != Negative(y, w)
           else Negative(x, w) != Negative(y, w) && Negative(x, w) != Negative(r, w)
  {
    WrapOnce(Exact(isAdd, x, y), w);
  }

  lemma WrapOnce(z: int, w: nat)
    requires 0 - Pow2(w) <= z < Pow2(w) + Pow2(w)
    ensures Wrap(z, w) == if z < 0 then z + Pow2(w) else if z < Pow2(w) then z else z - Pow2(w)
  {
    if z < 0 {
      assert Remainder(z + Pow2(w), Pow2(w)) == z + Pow2(w);
    } else if z >= Pow2(w) {
      assert Remainder(z - Pow2(w), Pow2(w)) == z - Pow2(w);
    }
  }

  /** Wrapping arithmetic does not depend on how the words are read. */
  lemma WrapReadsAgree(isAdd: bool, x: nat, y: nat, w: nat)
    requires w > 0 && x < Pow2(w) && y < Pow2(w)
    ensures Wrap(Exact(isAdd, Signed(x, w), Signed(y, w)), w) == Wrap(Exact(isAdd, x, y), w)
  {
    var k := Exact(isAdd, if Negative(x, w) then -1 else 0, if Negative(y, w) then -1 else 0);
    CongruentWraps(Exact(isAdd, Signed(x, w), Signed(y, w)), Exact(isAdd, x, y), k, w);
  }

  /** The sign rule, emitted: the result's sign bit says whether the true result does not fit. */
  method EmitSignRule(b: Block, isAdd: bool, lhs: Value, rhs: Value, wrapped: Value, w: nat) returns (sign: Value)
    requires lhs.ty == rhs.ty == wrapped.ty == Int(w, true) && w > 0
    requires forall at: Words | Executes(at) :: at(wrapped) == Wrap(Exact(isAdd, at(lhs), at(rhs)), w)
    modifies b
    ensures b.Extended() && sign.ty == lhs.ty
    ensures forall at: Words | Executes(at) ::
              Negative(at(sign), w) <==> !Fits(lhs.ty, Exact(isAdd, Signed(at(lhs), w), Signed(at(rhs), w)))
  {
    var xorA, xorB;
    if isAdd {
      xorA := b.EmitOp(BitXor, wrapped, lhs);
      xorB := b.EmitOp(BitXor, wrapped, rhs);
    } else {
      xorA := b.EmitOp(BitXor, lhs, rhs);
      xorB := b.EmitOp(BitXor, lhs, wrapped);
    }
    sign := b.EmitOp(BitAnd, xorA, xorB);
    forall at: Words | Executes(at)
      ensures Negative(at(sign), w) <==> !Fits(lhs.ty, Exact(isAdd, Signed(at(lhs), w), Signed(at(rhs), w)))
    {
      var x, y, r := at(lhs), at(rhs), at(wrapped);
      InRange(at, lhs);
      InRange(at, rhs);
      InRange(at, wrapped);
      SignsTellOverflow(isAdd, x, y, w);
      if isAdd {
        TopBitOfRule(r, x, r, y, w);
      } else {
        TopBitOfRule(x, y, x, r, w);
      }
    }
  }

  /** Signed addition and subtraction with overflow, at any width. */
  method LowerSignedOverflow(b: Block, isAdd: bool, lhs: Value, rhs: Value) returns (r: Overflowing)
    requires lhs.ty == rhs.ty && lhs.ty.signed && lhs.ty.width > 0
    modifies b
    ensures b.Extended() && r.wrapped.ty == lhs.ty && r.overflow.ty == BOOL_STORAGE
    ensures forall at: Words | Executes(at) ::
              at(r.wrapped) == Wrap(Exact(isAdd, Read(lhs.ty, at(lhs)), Read(lhs.ty, at(rhs))), lhs.ty.width)
    ensures forall at: Words | Executes(at) ::
              at(r.overflow) == Truth(!Fits(lhs.ty, Exact(isAdd, Read(lhs.ty, at(lhs)), Read(lhs.ty, at(rhs)))))
  {
    var w := lhs.ty.width;
    var wrapped := b.EmitOp(OpOf(isAdd), lhs, rhs);
    var sign := EmitSignRule(b, isAdd, lhs, rhs, wrapped, w);
    var zero := b.EmitConstant(lhs.ty, 0);
    var overflow := b.EmitOp(Lt, sign, zero);
    forall at: Words | Executes(at)
      ensures at(overflow) == Truth(Negative(at(sign), w))
    {
      InRange(at, sign);
    }
    forall at: Words | Executes(at)
      ensures at(wrapped) == Wrap(Exact(isAdd, Signed(at(lhs), w), Signed(at(rhs), w)), w)
    {
      InRange(at, lhs);
      InRange(at, rhs);
      WrapReadsAgree(isAdd, at(lhs), at(rhs), w);
    }
    r := PackOverflowResult(b, wrapped, overflow);
  }

  /** Unsigned addition and subtraction with overflow: the sum wrapped below an operand, or the
      first operand was the smaller. */
  method LowerUnsignedOverflow(b: Block, isAdd: bool, lhs: Value, rhs: Value) returns (r: Overflowing)
    requires lhs.ty == rhs.ty && !lhs.ty.signed
    modifies b
    ensures b.Extended() && r.wrapped.ty == lhs.ty && r.overflow.ty == BOOL_STORAGE
    ensures forall at: Words | Executes(at) :: at(r.wrapped) == Wrap(Exact(isAdd, at(lhs), at(rhs)), lhs.ty.width)
    ensures forall at: Words | Executes(at) :: at(r.overflow) == Truth(!Fits(lhs.ty, Exact(isAdd, at(lhs), at(rhs))))
  {
    var wrapped := b.EmitOp(OpOf(isAdd), lhs, rhs);
    var overflow;
    if isAdd {
      overflow := b.EmitOp(Lt, wrapped, lhs);
    } else {
      overflow := b.EmitOp(Lt, lhs, rhs);
    }
    forall at: Words | Executes(at)
      ensures at(overflow) == Truth(!Fits(lhs.ty, Exact(isAdd, at(lhs), at(rhs))))
    {
      InRange(at, lhs);
      InRange(at, rhs);
      WrapOnce(Exact(isAdd, at(lhs), at(rhs)), lhs.ty.width);
    }
    r := PackOverflowResult(b, wrapped, overflow);
  }

  // ---- saturation ----

  /** A word that is all ones or all zeros. */
  predicate IsMask(m: nat, w: nat) {
    m == 0 || m == Pow2(w) - 1
  }

  lemma SmearedSign(x: nat, w: nat)
    requires w > 0 && x < Pow2(w)
    ensures Wrap(w - 1, w) == w - 1
    ensures ShiftRight(Int(w, true), x, w - 1) == SignExtension(x, w)
  {
    BelowOwnPower(w);
    SignedRange(x, w);
    assert Quotient(Signed(x, w), Pow2(w - 1)) == if Negative(x, w) then -1 else 0;
    WrapOnce(-1, w);
  }

  /** An arithmetic shift by the width less one: the sign in every bit. */
  method EmitSmear(b: Block, v: Value, topBit: Value, w: nat) returns (r: Value)
    requires v.ty == topBit.ty == Int(w, true) && w > 0 && forall at: Words | Executes(at) :: at(topBit) == Wrap(w - 1, w)
    modifies b
    ensures b.Extended() && r.ty == v.ty && forall at: Words | Executes(at) :: at(r) == SignExtension(at(v), w)
  {
    r := b.EmitOp(Shr, v, topBit);
    forall at: Words | Executes(at)
      ensures at(r) == SignExtension(at(v), w)
    {
      InRange(at, v);
      SmearedSign(at(v), w);
    }
  }

  lemma Selects(m: nat, kept: nat, taken: nat, w: nat)
    requires IsMask(m, w) && kept < Pow2(w) && taken < Pow2(w)
    ensures Xor(m, Pow2(w) - 1) == Pow2(w) - 1 - m
    ensures Or(And(kept, Pow2(w) - 1 - m), And(taken, m)) == if m == 0 then kept else taken
  {
    XorOnes(m, w);
    MaskAnd(m, taken, w);
    MaskAnd(Pow2(w) - 1 - m, kept, w);
    OrZero(kept);
    OrZero(taken);
  }

  lemma SelectionAt(m: nat, ones: nat, kept: nat, taken: nat, keepMask: nat, keptPart: nat, takenPart: nat, w: nat)
    requires IsMask(m, w) && ones == Pow2(w) - 1 && kept < Pow2(w) && taken < Pow2(w)
    requires keepMask == Xor(m, ones) && keptPart == And(kept, keepMask) && takenPart == And(taken, m)
    ensures Or(keptPart, takenPart) == if m == 0 then kept else taken
  {
    Selects(m, kept, taken, w);
  }

  /** `mask ? taken : kept`, without a branch. */
  method EmitSelect(b: Block, mask: Value, ones: Value, kept: Value, taken: Value, w: nat) returns (r: Value)
    requires mask.ty == ones.ty == kept.ty == taken.ty && mask.ty.width == w
    requires forall at: Words | Executes(at) :: IsMask(at(mask), w) && at(ones) == Pow2(w) - 1
    modifies b
    ensures b.Extended() && r.ty == mask.ty
    ensures forall at: Words | Executes(at) :: at(r) == if at(mask) == 0 then at(kept) else at(taken)
  {
    var keepMask := b.EmitOp(BitXor, mask, ones);
    var keptPart := b.EmitOp(BitAnd, kept, keepMask);
    var takenPart := b.EmitOp(BitAnd, taken, mask);
    r := b.EmitOp(BitOr, keptPart, takenPart);
    forall at: Words | Executes(at)
      ensures at(r) == if at(mask) == 0 then at(kept) else at(taken)
    {
      InRange(at, kept);
      InRange(at, taken);
      SelectionAt(at(mask), at(ones), at(kept), at(taken), at(keepMask), at(keptPart), at(takenPart), w);
    }
  }

  lemma BoundOfSign(x: nat, w: nat)
    requires w > 0 && x < Pow2(w)
    ensures Wrap(Pow2(w - 1) - 1, w) == Pow2(w - 1) - 1 && Wrap(Pow2(w) - 1, w) == Pow2(w) - 1
    ensures Xor(SignExtension(x, w), Pow2(w - 1) - 1) == if Negative(x, w) then Pow2(w - 1) else Pow2(w - 1) - 1
  {
    var max := Pow2(w - 1) - 1;
    XorOnes(max, w);
    XorCommutes(max, Pow2(w) - 1);
    XorZero(max);
  }

  lemma XorCommutes(x: nat, y: nat)
    ensures Xor(x, y) == Xor(y, x)
  {
    XorBits(x, y);
    XorBits(y, x);
    BitsExtensional(Xor(x, y), Xor(y, x));
  }

  lemma XorZero(x: nat)
    ensures Xor(0, x) == x
  {
    XorBits(0, x);
    forall i: nat
      ensures Bit(Xor(0, x), i) == Bit(x, i)
    {
      ZeroHasNoBits(i);
    }
    BitsExtensional(Xor(0, x), x);
  }

  /** On overflow the bound to saturate to is the one on the first operand's side. */
  lemma OverflowSide(isAdd: bool, x: nat, y: nat, w: nat)
    requires w > 0 && x < Pow2(w) && y < Pow2(w)
    ensures var z := Exact(isAdd, Signed(x, w), Signed(y, w));
      Wrap(Clamp(Int(w, true), z), w) ==
        if Fits(Int(w, true), z) then Wrap(z, w) else if Negative(x, w) then Pow2(w - 1) else Pow2(w - 1) - 1
  {
    SignedRange(x, w);
    SignedRange(y, w);
    WrapOnce(0 - Pow2(w - 1), w);
    WrapOnce(Pow2(w - 1) - 1, w);
  }

  /** Signed saturating addition and subtraction: the true result, clamped to the type. */
  method LowerSignedSaturating(b: Block, isAdd: bool, lhs: Value, rhs: Value) returns (r: Value)
    requires lhs.ty == rhs.ty && lhs.ty.signed && lhs.ty.width > 0
    modifies b
    ensures b.Extended() && r.ty == lhs.ty
    ensures forall at: Words | Executes(at) ::
              at(r) == Wrap(Clamp(lhs.ty, Exact(isAdd, Read(lhs.ty, at(lhs)), Read(lhs.ty, at(rhs)))), lhs.ty.width)
  {
    var w := lhs.ty.width;
    var wrapped := b.EmitOp(OpOf(isAdd), lhs, rhs);
    var sign := EmitSignRule(b, isAdd, lhs, rhs, wrapped, w);
    var topBit := b.EmitConstant(lhs.ty, w - 1);
    var overflowMask := EmitSmear(b, sign, topBit, w);
    var saturated := EmitBound(b, lhs, topBit, w);
    var ones := EmitOnes(b, lhs.ty);
    r := EmitSelect(b, overflowMask, ones, wrapped, saturated, w);
    forall at: Words | Executes(at)
      ensures at(r) == Wrap(Clamp(lhs.ty, Exact(isAdd, Signed(at(lhs), w), Signed(at(rhs), w))), w)
    {
      InRange(at, lhs);
      InRange(at, rhs);
      OverflowSide(isAdd, at(lhs), at(rhs), w);
      WrapReadsAgree(isAdd, at(lhs), at(rhs), w);
    }
  }

  method EmitOnes(b: Block, ty: Ty) returns (ones: Value)
    modifies b
    ensures b.Extended() && ones.ty == ty && forall at: Words | Executes(at) :: at(ones) == Pow2(ty.width) - 1
  {
    ones := b.EmitConstant(ty, Pow2(ty.width) - 1);
  }

  /** The bound on the side of `v`: the largest number, or for a negative `v` the smallest. */
  method EmitBound(b: Block, v: Value, topBit: Value, w: nat) returns (r: Value)
    requires v.ty == topBit.ty == Int(w, true) && w > 0 && forall at: Words | Executes(at) :: at(topBit) == Wrap(w - 1, w)
    modifies b
    ensures b.Extended() && r.ty == v.ty
    ensures forall at: Words | Executes(at) :: at(r) == if Negative(at(v), w) then Pow2(w - 1) else Pow2(w - 1) - 1
  {
    var vSign := EmitSmear(b, v, topBit, w);
    var max := b.EmitConstant(v.ty, Pow2(w - 1) - 1);
    r := b.EmitOp(BitXor, vSign, max);
    forall at: Words | Executes(at)
      ensures at(r) == if Negative(at(v), w) then Pow2(w - 1) else Pow2(w - 1) - 1
    {
      InRange(at, v);
      BoundOfSign(at(v), w);
    }
  }

  /** All ones when the condition holds, zero otherwise: `0 - condition` in the type. */
  method EmitMaskOf(b: Block, condition: Value, ty: Ty) returns (mask: Value)
    requires condition.ty == BOOL && ty.width > 0
    modifies b
    ensures b.Extended() && mask.ty == ty
    ensures forall at: Words | Executes(at) :: at(condition) < 2 && at(mask) == if at(condition) == 0 then 0 else Pow2(ty.width) - 1
  {
    var wide := b.EmitCast(ty, condition);
    var zero := b.EmitConstant(ty, 0);
    mask := b.EmitOp(Sub, zero, wide);
    forall at: Words | Executes(at)
      ensures at(condition) < 2 && at(mask) == if at(condition) == 0 then 0 else Pow2(ty.width) - 1
    {
      InRange(at, condition);
      assert Pow2(1) == 2;
      WrapOnce(-1, ty.width);
    }
  }

  lemma OrOnes(x: nat, w: nat)
    requires x < Pow2(w)
    ensures Or(x, Pow2(w) - 1) == Pow2(w) - 1
  {
    var ones := Pow2(w) - 1;
    OrBits(x, ones);
    forall i: nat
      ensures Bit(Or(x, ones), i) == Bit(ones, i)
    {
      BitOfOnes(w, i);
      if i >= w {
        NoHighBits(x, w, i);
      }
    }
    BitsExtensional(Or(x, ones), ones);
  }

  lemma AddSaturates(x: nat, y: nat, w: nat)
    requires w > 0 && x < Pow2(w) && y < Pow2(w)
    ensures Or(Wrap(x + y, w), if Wrap(x + y, w) < x then Pow2(w) - 1 else 0) == Clamp(Int(w, false), x + y)
  {
    WrapOnce(x + y, w);
    OrOnes(Wrap(x + y, w), w);
    OrZero(Wrap(x + y, w));
  }

  lemma SubSaturates(x: nat, y: nat, w: nat)
    requires w > 0 && x < Pow2(w) && y < Pow2(w)
    ensures And(Wrap(x - y, w), if x >= y then Pow2(w) - 1 else 0) == Clamp(Int(w, false), x - y)
  {
    WrapOnce(x - y, w);
    MaskAnd(if x >= y then Pow2(w) - 1 else 0, Wrap(x - y, w), w);
  }

  /** Unsigned saturating addition and subtraction: the true result, clamped to the type. */
  method LowerUnsignedSaturating(b: Block, isAdd: bool, lhs: Value, rhs: Value) returns (r: Value)
    requires lhs.ty == rhs.ty && !lhs.ty.signed && lhs.ty.width > 0
    modifies b
    ensures b.Extended() && r.ty == lhs.ty
    ensures forall at: Words | Executes(at) :: at(r) == Clamp(lhs.ty, Exact(isAdd, at(lhs), at(rhs)))
  {
    var wrapped := b.EmitOp(OpOf(isAdd), lhs, rhs);
    if isAdd {
      r := EmitOrMask(b, wrapped, lhs, rhs);
    } else {
      r := EmitAndMask(b, wrapped, lhs, rhs);
    }
  }

  method EmitOrMask(b: Block, sum: Value, lhs: Value, rhs: Value) returns (r: Value)
    requires sum.ty == lhs.ty == rhs.ty && !lhs.ty.signed && lhs.ty.width > 0
    requires forall at: Words | Executes(at) :: at(sum) == Wrap(at(lhs) + at(rhs), lhs.ty.width)
    modifies b
    ensures b.Extended() && r.ty == lhs.ty
    ensures forall at: Words | Executes(at) :: at(r) == Clamp(lhs.ty, at(lhs) + at(rhs))
  {
    var overflow := b.EmitOp(Lt, sum, lhs);
    var mask := EmitMaskOf(b, overflow, lhs.ty);
    r := b.EmitOp(BitOr, sum, mask);
    forall at: Words | Executes(at)
      ensures at(r) == Clamp(lhs.ty, at(lhs) + at(rhs))
    {
      InRange(at, lhs);
      InRange(at, rhs);
      AddSaturates(at(lhs), at(rhs), lhs.ty.width);
    }
  }

  method EmitAndMask(b: Block, difference: Value, lhs: Value, rhs: Value) returns (r: Value)
    requires difference.ty == lhs.ty == rhs.ty && !lhs.ty.signed && lhs.ty.width > 0
    requires forall at: Words | Executes(at) :: at(difference) == Wrap(at(lhs) - at(rhs), lhs.ty.width)
    modifies b
    ensures b.Extended() && r.ty == lhs.ty
    ensures forall at: Words | Executes(at) :: at(r) == Clamp(lhs.ty, at(lhs) - at(rhs))
  {
    var noBorrow := b.EmitOp(Ge, lhs, rhs);
    var mask := EmitMaskOf(b, noBorrow, lhs.ty);
    r := b.EmitOp(BitAnd, difference, mask);
    forall at: Words | Executes(at)
      ensures at(r) == Clamp(lhs.ty, at(lhs) - at(rhs))
    {
      InRange(at, lhs);
      InRange(at, rhs);
      SubSaturates(at(lhs), at(rhs), lhs.ty.width);
    }
  }
}
