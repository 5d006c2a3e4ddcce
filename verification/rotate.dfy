/** The rotate intrinsics: two opposite shifts by an amount taken modulo the width. */
module Rotates {
  import opened Bits
  import opened Ir
  import opened BitMoves

  /** Where bit `i` of a w-bit word rotated by `k` comes from. */
  function From(i: nat, k: nat, w: nat, left: bool): nat
    requires k < w
  {
    if left then if i >= k then i - k else i + w - k
    else if i + k < w then i + k else i + k - w
  }

  ghost predicate Rotated(r: nat, x: nat, k: nat, w: nat, left: bool)
    requires k < w
  {
    forall i: nat :: Bit(r, i) <==> i < w && Bit(x, From(i, k, w, left))
  }

  lemma BitOfWrap(x: nat, w: nat, i: nat)
    ensures Bit(Wrap(x, w), i) <==> i < w && Bit(x, i)
  {
    QuotientIsDivision(x, Pow2(w));
    BitOfMod(x, w, i);
  }

  /** The amount of the opposite shift: nothing for nothing. */
  function Opposite(k: nat, w: nat): nat
    requires k < w
  {
    if k == 0 then 0 else w - k
  }

  lemma ShiftedBits(x: nat, h: nat, up: nat, down: nat, l: nat, r: nat, i: nat)
    requires l == Wrap(x * Pow2(up), h) && r == Wrap(Quotient(x, Pow2(down)), h)
    ensures Bit(Or(l, r), i) <==> i < h && ((up <= i && Bit(x, i - up)) || Bit(x, i + down))
  {
    OrBits(l, r);
    BitOfShifted(x, up, h, i);
    BitOfWrap(Quotient(x, Pow2(down)), h, i);
    BitOfQuotient(x, down, i);
  }

  lemma KeptBits(o: nat, kept: nat, w: nat, h: nat, i: nat)
    requires w <= h && kept == if w < h then And(o, Pow2(w) - 1) else o
    requires i >= h ==> !Bit(o, i)
    ensures Bit(kept, i) <==> i < w && Bit(o, i)
  {
    if w < h {
      AndMask(o, w);
      BitOfMod(o, w, i);
    }
  }

  /** Shifting up and down by opposite amounts, in h bits, and keeping w of them, rotates. */
  lemma ShiftsRotate(x: nat, k: nat, w: nat, h: nat, left: bool, up: nat, down: nat, l: nat, r: nat, kept: nat)
    requires k < w <= h && x < Pow2(w)
    requires up == (if left then k else Opposite(k, w)) && down == (if left then Opposite(k, w) else k)
    requires l == Wrap(x * Pow2(up), h) && r == Wrap(Quotient(x, Pow2(down)), h)
    requires kept == if w < h then And(Or(l, r), Pow2(w) - 1) else Or(l, r)
    ensures Rotated(kept, x, k, w, left)
  {
    forall i: nat
      ensures Bit(kept, i) <==> i < w && Bit(x, From(i, k, w, left))
    {
      ShiftedBits(x, h, up, down, l, r, i);
      KeptBits(Or(l, r), kept, w, h, i);
      if i < w {
        OneSource(x, i, k, w, left, up, down);
      }
    }
  }

  /** Only one of the two shifts brings a bit of the word to place `i`, and it is the right one. */
  lemma OneSource(x: nat, i: nat, k: nat, w: nat, left: bool, up: nat, down: nat)
    requires i < w && k < w && x < Pow2(w)
    requires up == (if left then k else Opposite(k, w)) && down == (if left then Opposite(k, w) else k)
    ensures ((up <= i && Bit(x, i - up)) || Bit(x, i + down)) <==> Bit(x, From(i, k, w, left))
  {
    if i + down >= w {
      NoHighBits(x, w, i + down);
    }
    Places(i, k, w, left, up, down);
  }

  lemma Places(i: nat, k: nat, w: nat, left: bool, up: nat, down: nat)
    requires i < w && k < w
    requires up == (if left then k else Opposite(k, w)) && down == (if left then Opposite(k, w) else k)
    ensures up <= i ==> From(i, k, w, left) == i - up && (i + down >= w || down == 0 == up)
    ensures up > i ==> From(i, k, w, left) == i + down < w
  {
  }

  /** Rotating the other way by as much undoes a rotation. */
  lemma RotatesBack(x: nat, y: nat, z: nat, k: nat, w: nat, left: bool)
    requires k < w && x < Pow2(w) && Rotated(y, x, k, w, left) && Rotated(z, y, k, w, !left)
    ensures z == x
  {
    forall i: nat
      ensures Bit(z, i) == Bit(x, i)
    {
      if i < w {
        assert Bit(z, i) == Bit(y, From(i, k, w, !left));
        assert From(From(i, k, w, !left), k, w, left) == i;
      } else {
        NoHighBits(x, w, i);
      }
    }
    BitsExtensional(z, x);
  }

  // ---- the amounts ----

  lemma LowBitsOfWrap(v: int, t: nat, h: nat)
    requires t <= h
    ensures And(Wrap(v, h), Pow2(t) - 1) == Remainder(v, Pow2(t))
  {
    var wide := Wrap(v, h);
    AndMask(wide, t);
    Pow2Add(t, h - t);
    QuotientIsDivision(v, Pow2(h));
    QuotientIsDivision(v, Pow2(t));
    ModMod(v, Pow2(t), Pow2(h - t));
  }

  lemma OppositeAmount(k: nat, t: nat, h: nat)
    requires k < Pow2(t) <= h
    ensures And(Wrap(Wrap(Pow2(t), h) - k, h), Pow2(t) - 1) == Opposite(k, Pow2(t))
  {
    var w := Pow2(t);
    BelowOwnPower(h);
    DivideUniquely(w, Pow2(h), 0, w);
    DivideUniquely(w - k, Pow2(h), 0, w - k);
    AndMask(w - k, t);
    if k == 0 {
      DivUnique(w, w, 1, 0);
    } else {
      DivUnique(w - k, w, 0, w - k);
    }
  }

  // ---- the emitted ops ----

  /** The amount modulo `w`, and the amount of the opposite shift. */
  method EmitAmounts(b: Block, amount: Value, t: nat, h: nat) returns (k: Value, inv: Value)
    requires Pow2(t) <= h && t <= h
    modifies b
    ensures b.Extended() && k.ty == inv.ty == Int(h, false)
    ensures forall at: Words | Executes(at) :: at(k) == Remainder(Read(amount.ty, at(amount)), Pow2(t))
    ensures forall at: Words | Executes(at) :: at(k) < Pow2(t) && at(inv) == Opposite(at(k), Pow2(t))
  {
    var ty, w := Int(h, false), Pow2(t);
    var shift := b.EmitCast(ty, amount);
    var modulusMask := EmitModulusMask(b, t, h);
    k := b.EmitOp(BitAnd, shift, modulusMask);
    forall at: Words | Executes(at)
      ensures at(k) == Remainder(Read(amount.ty, at(amount)), w)
    {
      LowBitsOfWrap(Read(amount.ty, at(amount)), t, h);
    }
    inv := EmitOpposite(b, k, modulusMask, t, h);
  }

  method EmitModulusMask(b: Block, t: nat, h: nat) returns (r: Value)
    requires Pow2(t) <= h
    modifies b
    ensures b.Extended() && r.ty == Int(h, false)
    ensures forall at: Words | Executes(at) :: at(r) == Pow2(t) - 1
  {
    r := b.EmitConstant(Int(h, false), Pow2(t) - 1);
    BelowOwnPower(h);
    DivideUniquely(Pow2(t) - 1, Pow2(h), 0, Pow2(t) - 1);
  }

  method EmitOpposite(b: Block, k: Value, modulusMask: Value, t: nat, h: nat) returns (inv: Value)
    requires Pow2(t) <= h && k.ty == modulusMask.ty == Int(h, false)
    requires forall at: Words | Executes(at) :: at(k) < Pow2(t) && at(modulusMask) == Pow2(t) - 1
    modifies b
    ensures b.Extended() && inv.ty == Int(h, false)
    ensures forall at: Words | Executes(at) :: at(k) < Pow2(t) && at(inv) == Opposite(at(k), Pow2(t))
  {
    var widthValue := b.EmitConstant(Int(h, false), Pow2(t));
    var complement := b.EmitOp(Sub, widthValue, k);
    inv := b.EmitOp(BitAnd, complement, modulusMask);
    forall at: Words | Executes(at)
      ensures at(inv) == Opposite(at(k), Pow2(t))
    {
      OppositeAmount(at(k), t, h);
    }
  }

  method EmitShifts(b: Block, x: Value, upBy: Value, downBy: Value, h: nat) returns (up: Value, down: Value)
    requires x.ty == upBy.ty == downBy.ty == Int(h, false)
    modifies b
    ensures b.Extended() && up.ty == down.ty == Int(h, false)
    ensures forall at: Words | Executes(at) ::
      at(up) == Wrap(at(x) * Pow2(at(upBy)), h) && at(down) == Wrap(Quotient(at(x), Pow2(at(downBy))), h)
  {
    up := b.EmitOp(Shl, x, upBy);
    down := b.EmitOp(Shr, x, downBy);
  }

  /** `rotate_left` and `rotate_right` at a width that is a power of two, computed at `h` bits: 128
      for 128, 64 for every other. */
  method EmitRotate(b: Block, input: Value, amount: Value, left: bool, t: nat, h: nat) returns (rotated: Value)
    requires input.ty.width == Pow2(t) <= h && t <= h
    modifies b
    ensures b.Extended() && rotated.ty == Int(h, false)
    ensures forall at: Words | Executes(at) ::
      Rotated(at(rotated), at(input), Remainder(Read(amount.ty, at(amount)), Pow2(t)), Pow2(t), left)
  {
    var ty, w := Int(h, false), Pow2(t);
    var x := EmitWord(b, input, h);
    var k, inv := EmitAmounts(b, amount, t, h);
    var upBy, downBy := if left then k else inv, if left then inv else k;
    var up, down := EmitShifts(b, x, upBy, downBy, h);
    var both := b.EmitOp(BitOr, up, down);
    rotated := EmitKept(b, both, w, h);
    forall at: Words | Executes(at)
      ensures Rotated(at(rotated), at(input), at(k), w, left)
    {
      InRange(at, input);
      ShiftsRotate(at(input), at(k), w, h, left, at(upBy), at(downBy), at(up), at(down), at(rotated));
    }
  }

  /** The low `w` of `h` bits: a mask, when there are others. */
  method EmitKept(b: Block, v: Value, w: nat, h: nat) returns (r: Value)
    requires v.ty == Int(h, false) && w <= h
    modifies b
    ensures b.Extended() && r.ty == Int(h, false)
    ensures forall at: Words | Executes(at) :: at(r) == if w < h then And(at(v), Pow2(w) - 1) else at(v)
  {
    r := v;
    if w < h {
      var mask := b.EmitConstant(Int(h, false), Pow2(w) - 1);
      r := b.EmitOp(BitAnd, v, mask);
      Pow2Monotone(w, h);
      DivideUniquely(Pow2(w) - 1, Pow2(h), 0, Pow2(w) - 1);
    }
  }

  /** The input, widened; a widening that extended the sign is masked off again. */
  method EmitWord(b: Block, input: Value, h: nat) returns (x: Value)
    requires input.ty.width <= h
    modifies b
    ensures b.Extended() && x.ty == Int(h, false)
    ensures forall at: Words | Executes(at) :: at(x) == at(input)
  {
    var w := input.ty.width;
    var wide := b.EmitCast(Int(h, false), input);
    x := EmitKept(b, wide, w, h);
    forall at: Words | Executes(at)
      ensures at(x) == at(input)
    {
      InRange(at, input);
      SignedRange(at(input), w);
      LowBitsOfWrap(Read(input.ty, at(input)), w, h);
    }
  }
}
