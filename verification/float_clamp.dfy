/** Saturating casts from floats to wide integers: a library call converts what is in range, and a
    branch-free clamp decides all the rest. */
module FloatClamp {
  import opened Bits
  import opened Floats
  import opened Ir
  import opened MulOverflow
  import opened Saturate

  // ---- what a saturating cast is ----

  /** Rounding toward zero. */
  function Truncated(r: real): int {
    if r >= 0.0 then r.Floor else 0 - (0.0 - r).Floor
  }

  function Least(ty: Ty): int
    requires ty.width > 0
  {
    if ty.signed then 0 - Pow2(ty.width - 1) else 0
  }

  function Greatest(ty: Ty): int
    requires ty.width > 0
  {
    Pow2(if ty.signed then ty.width - 1 else ty.width) - 1
  }

  /** Zero for what is not a number, the nearest bound out of range, the truncation in range. */
  function SaturatingCast(ty: Ty, x: Float): int
    requires ty.width > 0
  {
    match x
    case NaN => 0
    case Infinite(negative) => if negative then Least(ty) else Greatest(ty)
    case Finite(r) => Clamp(ty, Truncated(r))
  }

  /** Exactly what the type holds lies between its bounds, and so does every saturating cast; what
      the type holds is cast to its truncation, and what is beyond to the bound on that side. */
  lemma BoundsBound(ty: Ty, x: Float, z: int)
    requires ty.width > 0
    ensures Fits(ty, z) <==> Least(ty) <= z <= Greatest(ty)
    ensures Fits(ty, SaturatingCast(ty, x))
    ensures x.Finite? && Fits(ty, Truncated(x.value)) ==> SaturatingCast(ty, x) == Truncated(x.value)
    ensures x == Infinite(true) || (x.Finite? && Truncated(x.value) < Least(ty)) ==> SaturatingCast(ty, x) == Least(ty)
    ensures x == Infinite(false) || (x.Finite? && Truncated(x.value) > Greatest(ty)) ==> SaturatingCast(ty, x) == Greatest(ty)
  {
    assert Pow2(ty.width) == 2 * Pow2(ty.width - 1);
  }

  /** Truncation keeps the sign and drops less than one. */
  lemma TruncatedIs(r: real)
    ensures r >= 0.0 ==> 0.0 <= Truncated(r) as real <= r < Truncated(r) as real + 1.0
    ensures r <= 0.0 ==> Truncated(r) as real - 1.0 < r <= Truncated(r) as real <= 0.0
  {
  }

  /** All the library promises: the truncation, when the type holds it. */
  predicate Honours(ty: Ty, x: Float, raw: nat) {
    x.Finite? && Fits(ty, Truncated(x.value)) ==> raw == Wrap(Truncated(x.value), ty.width)
  }

  // ---- the bounds, as floats ----

  lemma PowerAsReal(k: nat)
    ensures Scaled(1.0, k) == Pow2(k) as real
  {
    PowerScaled(k, 0);
  }

  /** The high bound is compared exactly, even where the format rounds it to infinity. */
  lemma AtLeastPower(f: Format, bits: nat, k: nat)
    requires k <= 128
    ensures var x := Decode(f, bits);
      CompareFloats(Ge, x, Decode(f, PowerBits(f, false, k)))
      <==> x == Infinite(false) || (x.Finite? && x.value >= Pow2(k) as real)
  {
    var x, limit := Decode(f, bits), Pow2(ExponentBits(f)) - 1 - Bias(f);
    PowerDecodes(f, false, k);
    PowerAsReal(k);
    if k >= limit && x.Finite? {
      assert x.value < Scaled(1.0, limit) by { FiniteBelow(f, bits); }
      assert Scaled(1.0, limit) <= Scaled(1.0, k) by { ScaledMonotone(1.0, limit, k); }
    }
  }

  lemma BelowPower(f: Format, bits: nat, k: nat)
    requires k < 128
    ensures var x := Decode(f, bits);
      CompareFloats(Lt, x, Decode(f, PowerBits(f, true, k)))
      <==> x == Infinite(true) || (x.Finite? && x.value < 0.0 - Pow2(k) as real)
  {
    Exponents(f);
    PowerDecodes(f, true, k);
    PowerAsReal(k);
  }

  lemma AboveMinusOne(f: Format, bits: nat)
    ensures var x := Decode(f, bits);
      CompareFloats(Gt, x, Decode(f, PowerBits(f, true, 0))) <==> x == Infinite(false) || (x.Finite? && x.value > -1.0)
  {
    Exponents(f);
    PowerDecodes(f, true, 0);
  }

  // ---- the clamp, as words ----

  /** A value where the mask is clear, zero where it is set; and the other way round. */
  lemma MaskedParts(v: nat, m: nat, w: nat)
    requires IsMask(m, w) && v < Pow2(w)
    ensures And(v, Xor(m, Pow2(w) - 1)) == if m == 0 then v else 0
    ensures And(v, m) == if m == 0 then 0 else v
  {
    XorOnes(m, w);
    MaskAnd(m, v, w);
    MaskAnd(Pow2(w) - 1 - m, v, w);
  }

  lemma ClearedPart(v: nat, m: nat, ones: nat, w: nat)
    requires IsMask(m, w) && v < Pow2(w) && ones == Pow2(w) - 1
    ensures And(v, Xor(m, ones)) == if m == 0 then v else 0
  {
    MaskedParts(v, m, w);
  }

  lemma SignedCases(x: Float, raw: nat, w: nat)
    requires w > 0 && Honours(Int(w, true), x, raw)
    ensures var ty, p := Int(w, true), Pow2(w - 1) as real;
      var above := x == Infinite(false) || (x.Finite? && x.value >= p);
      var below := x == Infinite(true) || (x.Finite? && x.value < 0.0 - p);
      && !(above && below)
      && Wrap(SaturatingCast(ty, x), w) ==
           if x.NaN? then 0 else if above then Pow2(w - 1) - 1 else if below then Pow2(w - 1) else raw
  {
    WrapOnce(0 - Pow2(w - 1), w);
    WrapOnce(Pow2(w - 1) - 1, w);
  }

  lemma UnsignedCases(x: Float, raw: nat, w: nat)
    requires w > 0 && Honours(Int(w, false), x, raw)
    ensures var ty, p := Int(w, false), Pow2(w) as real;
      var above := x == Infinite(false) || (x.Finite? && x.value >= p);
      var keep := x == Infinite(false) || (x.Finite? && x.value > -1.0);
      Wrap(SaturatingCast(ty, x), w) == if !keep then 0 else if above then Pow2(w) - 1 else raw
  {
  }

  // ---- the emitted ops ----

  /** All ones where the ordered comparison holds. */
  method EmitFloatMask(b: Block, f: Format, op: Op, x: Value, y: Value, ty: Ty) returns (mask: Value)
    requires ty.width > 0
    modifies b
    ensures b.Extended() && mask.ty == ty
    ensures forall at: Words | Executes(at) ::
              at(mask) == if CompareFloats(op, Decode(f, at(x)), Decode(f, at(y))) then Pow2(ty.width) - 1 else 0
  {
    var condition := b.EmitFloatCompare(f, op, x, y);
    mask := EmitMaskOf(b, condition, ty);
  }

  method EmitPower(b: Block, f: Format, negative: bool, k: nat) returns (r: Value)
    modifies b
    ensures b.Extended() && forall at: Words | Executes(at) :: at(r) == Wrap(PowerBits(f, negative, k), Width(f))
  {
    r := b.EmitConstant(Int(Width(f), false), PowerBits(f, negative, k));
  }

  lemma ProductInWidth(top: nat, p: nat, q: nat)
    requires top < p && q > 0
    ensures top * q < p * q
  {
    MulAtLeast(q, p, top + 1);
  }

  lemma WidthOf(f: Format)
    ensures Pow2(Width(f)) == (2 * Pow2(ExponentBits(f))) * Pow2(FractionBits(f))
  {
    Pow2Add(ExponentBits(f) + 1, FractionBits(f));
    assert Width(f) == ExponentBits(f) + 1 + FractionBits(f);
  }

  /** The constants fit the format's words. */
  lemma PowerFits(f: Format, negative: bool, k: nat)
    ensures Wrap(PowerBits(f, negative, k), Width(f)) == PowerBits(f, negative, k)
  {
    var e := Pow2(ExponentBits(f));
    var exponent := if k + Bias(f) < e - 1 then k + Bias(f) else e - 1;
    var top := (if negative then e else 0) + exponent;
    WidthOf(f);
    ProductInWidth(top, 2 * e, Pow2(FractionBits(f)));
    assert PowerBits(f, negative, k) == top * Pow2(FractionBits(f));
  }

  method EmitAbove(b: Block, f: Format, x: Value, k: nat, ty: Ty) returns (mask: Value)
    requires ty.width > 0 && k <= 128
    modifies b
    ensures b.Extended() && mask.ty == ty
    ensures forall at: Words | Executes(at) ::
              var v := Decode(f, at(x));
              at(mask) == if v == Infinite(false) || (v.Finite? && v.value >= Pow2(k) as real) then Pow2(ty.width) - 1 else 0
  {
    var bound := EmitPower(b, f, false, k);
    mask := EmitFloatMask(b, f, Ge, x, bound, ty);
    forall at: Words | Executes(at)
      ensures var v := Decode(f, at(x));
        at(mask) == if v == Infinite(false) || (v.Finite? && v.value >= Pow2(k) as real) then Pow2(ty.width) - 1 else 0
    {
      PowerFits(f, false, k);
      AtLeastPower(f, at(x), k);
    }
  }

  method EmitBelow(b: Block, f: Format, x: Value, k: nat, ty: Ty) returns (mask: Value)
    requires ty.width > 0 && k < 128
    modifies b
    ensures b.Extended() && mask.ty == ty
    ensures forall at: Words | Executes(at) ::
              var v := Decode(f, at(x));
              at(mask) == if v == Infinite(true) || (v.Finite? && v.value < 0.0 - Pow2(k) as real) then Pow2(ty.width) - 1 else 0
  {
    var bound := EmitPower(b, f, true, k);
    mask := EmitFloatMask(b, f, Lt, x, bound, ty);
    forall at: Words | Executes(at)
      ensures var v := Decode(f, at(x));
        at(mask) == if v == Infinite(true) || (v.Finite? && v.value < 0.0 - Pow2(k) as real) then Pow2(ty.width) - 1 else 0
    {
      PowerFits(f, true, k);
      BelowPower(f, at(x), k);
    }
  }

  /** The library call that converts what is in range. */
  function Callee(f: Format, signed: bool): string {
    match (signed, f)
    case (true, F32) => "__fixsfti"
    case (true, F64) => "__fixdfti"
    case (false, F32) => "__fixunssfti"
    case (false, F64) => "__fixunsdfti"
  }

  /** The runtime library's own name for a conversion: signed or not, from single or double precision. */
  function LibraryName(f: Format, signed: bool): string {
    "__fix" + (if signed then "" else "uns") + (if f == F32 then "sf" else "df") + "ti"
  }

  lemma CalleeIsNamed(f: Format, signed: bool)
    ensures Callee(f, signed) == LibraryName(f, signed)
  {
    assert LibraryName(F32, true) == "__fixsfti" && LibraryName(F64, true) == "__fixdfti";
    assert LibraryName(F32, false) == "__fixunssfti" && LibraryName(F64, false) == "__fixunsdfti";
  }

  /** The library keeps its promise of every conversion. */
  ghost predicate LibraryKeeps(at: Words) {
    forall f, signed, x :: Kept(at, f, signed, x)
  }

  ghost predicate Kept(at: Words, f: Format, signed: bool, x: Value) {
    Honours(Int(128, signed), Decode(f, at(x)), at(Call(Int(128, signed), LibraryName(f, signed), x)))
  }

  /** The signed cast, of any width the constants reach. */
  method LowerSignedCast(b: Block, f: Format, x: Value, raw: Value, w: nat) returns (r: Value)
    requires raw.ty == Int(w, true) && 0 < w <= 128
    modifies b
    ensures b.Extended() && r.ty == raw.ty
    ensures forall at: Words | Executes(at) && Honours(raw.ty, Decode(f, at(x)), at(raw)) ::
              at(r) == Wrap(SaturatingCast(raw.ty, Decode(f, at(x))), w)
  {
    var ty := raw.ty;
    var maskLow := EmitBelow(b, f, x, w - 1, ty);
    var maskOrdered := EmitFloatMask(b, f, Eq, x, x, ty);
    var maskHigh := EmitAbove(b, f, x, w - 1, ty);
    r := EmitSignedNetwork(b, raw, maskHigh, maskLow, maskOrdered, w);
    forall at: Words | Executes(at) && Honours(ty, Decode(f, at(x)), at(raw))
      ensures at(r) == Wrap(SaturatingCast(ty, Decode(f, at(x))), w)
    {
      SignedCases(Decode(f, at(x)), at(raw), w);
      assert Pow2(w) > 1;
    }
  }

  method EmitCleared(b: Block, v: Value, mask: Value, ones: Value, w: nat) returns (r: Value)
    requires v.ty == mask.ty == ones.ty && v.ty.width == w
    requires forall at: Words | Executes(at) :: IsMask(at(mask), w) && at(ones) == Pow2(w) - 1
    modifies b
    ensures b.Extended() && r.ty == v.ty
    ensures forall at: Words | Executes(at) :: at(r) == if at(mask) == 0 then at(v) else 0
  {
    var not := b.EmitOp(BitXor, mask, ones);
    r := b.EmitOp(BitAnd, v, not);
    forall at: Words | Executes(at)
      ensures at(r) == if at(mask) == 0 then at(v) else 0
    {
      InRange(at, v);
      ClearedPart(at(v), at(mask), at(ones), w);
    }
  }

  method EmitMasked(b: Block, v: Value, mask: Value, w: nat) returns (r: Value)
    requires v.ty == mask.ty && v.ty.width == w && forall at: Words | Executes(at) :: IsMask(at(mask), w)
    modifies b
    ensures b.Extended() && r.ty == v.ty
    ensures forall at: Words | Executes(at) :: at(r) == if at(mask) == 0 then 0 else at(v)
  {
    r := b.EmitOp(BitAnd, v, mask);
    forall at: Words | Executes(at)
      ensures at(r) == if at(mask) == 0 then 0 else at(v)
    {
      InRange(at, v);
      MaskedParts(at(v), at(mask), w);
    }
  }

  /** An or of which one side is zero. */
  method EmitEither(b: Block, u: Value, v: Value) returns (r: Value)
    requires u.ty == v.ty && forall at: Words | Executes(at) :: at(u) == 0 || at(v) == 0
    modifies b
    ensures b.Extended() && r.ty == u.ty
    ensures forall at: Words | Executes(at) :: at(r) == at(u) + at(v)
  {
    r := b.EmitOp(BitOr, u, v);
    forall at: Words | Executes(at)
      ensures at(r) == at(u) + at(v)
    {
      OrZero(at(u));
      OrZero(at(v));
    }
  }

  method EmitSignedNetwork(b: Block, raw: Value, high: Value, low: Value, keep: Value, w: nat) returns (r: Value)
    requires raw.ty == high.ty == low.ty == keep.ty == Int(w, true) && w > 0
    requires forall at: Words | Executes(at) :: IsMask(at(high), w) && IsMask(at(low), w) && IsMask(at(keep), w)
    requires forall at: Words | Executes(at) :: at(high) == 0 || at(low) == 0
    modifies b
    ensures b.Extended() && r.ty == raw.ty
    ensures forall at: Words | Executes(at) ::
              at(r) == if at(keep) == 0 then 0 else if at(high) != 0 then Pow2(w - 1) - 1
                       else if at(low) != 0 then Pow2(w - 1) else at(raw)
  {
    var ones := EmitOnes(b, raw.ty);
    var max := EmitFitting(b, raw.ty, Pow2(w - 1) - 1);
    var highSel := EmitMasked(b, max, high, w);
    r := EmitCleared(b, raw, high, ones, w);
    r := EmitCleared(b, r, low, ones, w);
    var min := EmitFitting(b, raw.ty, Pow2(w - 1));
    var lowSel := EmitMasked(b, min, low, w);
    r := EmitEither(b, r, lowSel);
    r := EmitEither(b, r, highSel);
    r := EmitMasked(b, r, keep, w);
  }

  method EmitFitting(b: Block, ty: Ty, bits: nat) returns (r: Value)
    requires bits < Pow2(ty.width)
    modifies b
    ensures b.Extended() && r.ty == ty && forall at: Words | Executes(at) :: at(r) == bits
  {
    r := b.EmitConstant(ty, bits);
  }

  /** The unsigned cast. */
  method LowerUnsignedCast(b: Block, f: Format, x: Value, raw: Value, w: nat) returns (r: Value)
    requires raw.ty == Int(w, false) && 0 < w <= 128
    modifies b
    ensures b.Extended() && r.ty == raw.ty
    ensures forall at: Words | Executes(at) && Honours(raw.ty, Decode(f, at(x)), at(raw)) ::
              at(r) == Wrap(SaturatingCast(raw.ty, Decode(f, at(x))), w)
  {
    var minusOne := EmitPower(b, f, true, 0);
    var keep := EmitFloatMask(b, f, Gt, x, minusOne, raw.ty);
    var maskHigh := EmitAbove(b, f, x, w, raw.ty);
    r := EmitUnsignedNetwork(b, raw, maskHigh, keep, w);
    forall at: Words | Executes(at) && Honours(raw.ty, Decode(f, at(x)), at(raw))
      ensures at(r) == Wrap(SaturatingCast(raw.ty, Decode(f, at(x))), w)
    {
      PowerFits(f, true, 0);
      AboveMinusOne(f, at(x));
      UnsignedCases(Decode(f, at(x)), at(raw), w);
      assert Pow2(w) > 1;
    }
  }

  method EmitUnsignedNetwork(b: Block, raw: Value, high: Value, keep: Value, w: nat) returns (r: Value)
    requires raw.ty == high.ty == keep.ty == Int(w, false) && w > 0
    requires forall at: Words | Executes(at) :: IsMask(at(high), w) && IsMask(at(keep), w)
    modifies b
    ensures b.Extended() && r.ty == raw.ty
    ensures forall at: Words | Executes(at) ::
              at(r) == if at(keep) == 0 then 0 else if at(high) != 0 then Pow2(w) - 1 else at(raw)
  {
    var ones := EmitOnes(b, raw.ty);
    var highSel := EmitMasked(b, ones, high, w);
    r := EmitCleared(b, raw, high, ones, w);
    r := EmitEither(b, r, highSel);
    r := EmitMasked(b, r, keep, w);
  }

  /** A float cast to a 128-bit integer. Whatever the library returns outside its promise, the
      result is the saturating cast of the float. */
  method LowerFloatToI128Sat(b: Block, f: Format, x: Value, signed: bool) returns (r: Value, ghost raw: Value)
    modifies b
    ensures b.Extended() && r.ty == Int(128, signed) && raw == Call(r.ty, Callee(f, signed), x)
    ensures forall at: Words | Executes(at) && Honours(r.ty, Decode(f, at(x)), at(raw)) ::
              at(r) == Wrap(SaturatingCast(r.ty, Decode(f, at(x))), 128)
    ensures forall at: Words | Executes(at) && LibraryKeeps(at) :: at(r) == Wrap(SaturatingCast(r.ty, Decode(f, at(x))), 128)
  {
    CalleeIsNamed(f, signed);
    var call := b.EmitCall(Int(128, signed), Callee(f, signed), x);
    raw := call;
    if signed {
      r := LowerSignedCast(b, f, x, call, 128);
    } else {
      r := LowerUnsignedCast(b, f, x, call, 128);
    }
    forall at: Words | Executes(at) && LibraryKeeps(at)
      ensures at(r) == Wrap(SaturatingCast(r.ty, Decode(f, at(x))), 128)
    {
      assert Kept(at, f, signed, x);
    }
  }
}
