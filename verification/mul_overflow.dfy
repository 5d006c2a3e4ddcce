/** Multiplication that tells overflow: at twice the width where the target has words of that width,
    and by the high half of the product at 128 bits. */
module MulOverflow {
  import opened Bits
  import opened Ir
  import opened WideMultiply
  import opened Wrappers

  const BOOL_STORAGE := Int(8, false)

  /** The mathematical result fits the type. */
  predicate Fits(ty: Ty, z: int) {
    if ty.signed then ty.width > 0 && 0 - Pow2(ty.width - 1) <= z < Pow2(ty.width - 1) else 0 <= z < Pow2(ty.width)
  }

  // ---- two's complement ----

  /** Reading a wrapped number back gives it exactly when it fits. */
  lemma {:induction false} SignedOfWrap(z: int, w: nat)
    requires w > 0
    ensures Signed(Wrap(z, w), w) == z <==> Fits(Int(w, true), z)
  {
    SignedRange(Wrap(z, w), w);
    if Fits(Int(w, true), z) {
      assert Remainder(z + Pow2(w), Pow2(w)) == z + Pow2(w) || z >= 0;
      assert Wrap(z, w) == if z < 0 then z + Pow2(w) else z;
    }
  }

  lemma WrapSmall(z: int, w: nat)
    requires 0 - Pow2(w) <= z < Pow2(w)
    ensures Wrap(z, w) == if z < 0 then z + Pow2(w) else z
  {
    if z < 0 {
      assert Remainder(z + Pow2(w), Pow2(w)) == z + Pow2(w);
    }
  }

  lemma CongruentWraps(x: int, y: int, k: int, w: nat)
    requires x == y + Pow2(w) * k
    ensures Wrap(x, w) == Wrap(y, w)
  {
    var d := Pow2(w);
    QuotientRemainder(y, d);
    assert d * (Quotient(y, d) + k) == d * Quotient(y, d) + d * k;
    DivideUniquely(x, d, Quotient(y, d) + k, Remainder(y, d));
  }

  /** Wrapping the factors first does not change the wrapped product. */
  lemma WrapOfProduct(x: int, y: int, w: nat)
    ensures Wrap(Wrap(x, w) * Wrap(y, w), w) == Wrap(x * y, w)
  {
    var d := Pow2(w);
    QuotientRemainder(x, d);
    QuotientRemainder(y, d);
    ProductModulo(x, y, d, Quotient(x, d), Quotient(y, d), Wrap(x, w), Wrap(y, w));
    CongruentWraps(x * y, Wrap(x, w) * Wrap(y, w), d * (Quotient(x, d) * Quotient(y, d)) + Quotient(x, d) * Wrap(y, w) + Wrap(x, w) * Quotient(y, d), w);
  }

  lemma ProductModulo(x: int, y: int, d: int, p: int, q: int, r: int, s: int)
    requires x == d * p + r && y == d * q + s
    ensures x * y == r * s + d * (d * (p * q) + p * s + r * q)
  {
  }

  /** A product of w-bit signed numbers fits 2w bits. */
  lemma SignedProductFits(x: int, y: int, w: nat)
    requires w > 0 && Fits(Int(w, true), x) && Fits(Int(w, true), y)
    ensures Fits(Int(w + w, true), x * y)
  {
    var p := Pow2(w - 1);
    Pow2Add(w - 1, w - 1);
    assert Pow2(w + w - 1) == 2 * Pow2(w - 1 + (w - 1));
    Box(x, y, p);
  }

  lemma Box(x: int, y: int, p: nat)
    requires 0 - p <= x < p && 0 - p <= y < p
    ensures 0 - p * p <= x * y <= p * p
  {
    assert (p - x) * (p + y) == p * p + p * y - p * x - x * y;
    assert (p + x) * (p - y) == p * p - p * y + p * x - x * y;
    assert (p - x) * (p - y) == p * p - p * y - p * x + x * y;
    assert (p + x) * (p + y) == p * p + p * y + p * x + x * y;
    MulAtLeast(p - x, p + y, 0);
    MulAtLeast(p + x, p - y, 0);
    MulAtLeast(p - x, p - y, 0);
    MulAtLeast(p + x, p + y, 0);
  }

  // ---- below 128 bits: multiply at twice the width ----

  /** The signed product at twice the width is the true one. */
  lemma WideProduct(x: nat, y: nat, w: nat)
    requires w > 0 && x < Pow2(w) && y < Pow2(w)
    ensures var z := Signed(x, w) * Signed(y, w);
      && Wrap(Wrap(Signed(x, w), w + w) * Wrap(Signed(y, w), w + w), w + w) == Wrap(z, w + w)
      && Signed(Wrap(z, w + w), w + w) == z
  {
    SignedRange(x, w);
    SignedRange(y, w);
    WrapOfProduct(Signed(x, w), Signed(y, w), w + w);
    SignedProductFits(Signed(x, w), Signed(y, w), w);
    SignedOfWrap(Signed(x, w) * Signed(y, w), w + w);
  }

  /** Narrowing and widening back keeps the product exactly when it fits. */
  lemma NarrowedProductFits(z: int, w: nat)
    requires w > 0 && Fits(Int(w + w, true), z)
    ensures Wrap(z, w + w) == Wrap(Signed(Wrap(z, w), w), w + w) <==> Fits(Int(w, true), z)
  {
    SignedOfWrap(z, w);
    SignedOfWrap(z, w + w);
    SignedRange(Wrap(z, w), w);
    Pow2Monotone(w - 1, w + w - 1);
    SignedOfWrap(Signed(Wrap(z, w), w), w + w);
  }

  method LowerSignedMulOverflow(b: Block, lhs: Value, rhs: Value, w: nat) returns (wrapped: Value, overflow: Value)
    requires lhs.ty == rhs.ty == Int(w, true) && w > 0
    modifies b
    ensures b.Extended() && wrapped.ty == lhs.ty && overflow.ty == BOOL
    ensures forall at: Words | Executes(at) :: at(wrapped) == Wrap(Signed(at(lhs), w) * Signed(at(rhs), w), w)
    ensures forall at: Words | Executes(at) :: at(overflow) == Truth(!Fits(lhs.ty, Signed(at(lhs), w) * Signed(at(rhs), w)))
  {
    var wide := Int(w + w, true);
    var wideLhs := b.EmitCast(wide, lhs);
    var wideRhs := b.EmitCast(wide, rhs);
    var product := b.EmitOp(Mul, wideLhs, wideRhs);
    forall at: Words | Executes(at)
      ensures var z := Signed(at(lhs), w) * Signed(at(rhs), w);
        at(product) == Wrap(z, w + w) && Signed(at(product), w + w) == z && Fits(wide, z)
    {
      InRange(at, lhs);
      InRange(at, rhs);
      WideProduct(at(lhs), at(rhs), w);
      SignedRange(at(product), w + w);
    }
    wrapped, overflow := NarrowSigned(b, product, w);
  }

  method NarrowSigned(b: Block, product: Value, w: nat) returns (wrapped: Value, overflow: Value)
    requires product.ty == Int(w + w, true) && w > 0
    modifies b
    ensures b.Extended() && wrapped.ty == Int(w, true) && overflow.ty == BOOL
    ensures forall at: Words | Executes(at) :: at(wrapped) == Wrap(Signed(at(product), w + w), w)
    ensures forall at: Words | Executes(at) :: at(overflow) == Truth(!Fits(Int(w, true), Signed(at(product), w + w)))
  {
    wrapped := b.EmitCast(Int(w, true), product);
    var widenedBack := b.EmitCast(product.ty, wrapped);
    overflow := b.EmitOp(Ne, product, widenedBack);
    forall at: Words | Executes(at)
      ensures at(overflow) == Truth(!Fits(Int(w, true), Signed(at(product), w + w)))
    {
      InRange(at, product);
      SignedRange(at(product), w + w);
      NarrowedProductFits(Signed(at(product), w + w), w);
    }
  }

  /** The exact product of two words, in twice their width. */
  method EmitWideProduct(b: Block, lhs: Value, rhs: Value, w: nat) returns (product: Value)
    requires lhs.ty == rhs.ty == Int(w, false)
    modifies b
    ensures b.Extended() && product.ty == Double(w)
    ensures forall at: Words | Executes(at) :: at(product) == at(lhs) * at(rhs)
  {
    var wideLhs := b.EmitCast(Double(w), lhs);
    var wideRhs := b.EmitCast(Double(w), rhs);
    forall at: Words | Executes(at)
      ensures at(wideLhs) == at(lhs) && at(wideRhs) == at(rhs) && at(lhs) * at(rhs) < Pow2(w + w)
    {
      InRange(at, lhs);
      InRange(at, rhs);
      Pow2Monotone(w, w + w);
      Pow2Add(w, w);
      ProductBelow(at(lhs), at(rhs), Pow2(w), Pow2(w));
    }
    product := EmitExactMul(b, wideLhs, wideRhs, w);
  }

  method LowerUnsignedMulOverflow(b: Block, lhs: Value, rhs: Value, w: nat) returns (wrapped: Value, overflow: Value)
    requires lhs.ty == rhs.ty == Int(w, false)
    modifies b
    ensures b.Extended() && wrapped.ty == lhs.ty && overflow.ty == BOOL
    ensures forall at: Words | Executes(at) :: at(wrapped) == Wrap(at(lhs) * at(rhs), w)
    ensures forall at: Words | Executes(at) :: at(overflow) == Truth(!Fits(lhs.ty, at(lhs) * at(rhs)))
  {
    var product := EmitWideProduct(b, lhs, rhs, w);
    wrapped := b.EmitCast(lhs.ty, product);
    var narrowMax := b.EmitConstant(Double(w), Pow2(w) - 1);
    overflow := b.EmitOp(Gt, product, narrowMax);
    forall at: Words | Executes(at)
      ensures at(overflow) == Truth(!Fits(lhs.ty, at(lhs) * at(rhs)))
    {
      Pow2Monotone(w, w + w);
      WrapExact(Pow2(w) - 1, w + w);
    }
  }

  // ---- at 128 bits: the high half decides ----

  lemma SignMaskOf(x: nat, w: nat)
    requires w > 0 && x < Pow2(w)
    ensures Wrap(w - 1, w) == w - 1
    ensures Wrap(0 - Wrap(Quotient(x, Pow2(w - 1)), w), w) == if x >= Pow2(w - 1) then Pow2(w) - 1 else 0
  {
    BelowOwnPower(w);
    assert Quotient(x, Pow2(w - 1)) == if x >= Pow2(w - 1) then 1 else 0;
    assert Remainder(-1, Pow2(w)) == Pow2(w) - 1;
  }

  /** All ones when the top bit is set, zero otherwise. */
  method EmitSignMask(b: Block, value: Value, w: nat) returns (mask: Value)
    requires value.ty == Int(w, false) && w > 0
    modifies b
    ensures b.Extended() && mask.ty == value.ty
    ensures forall at: Words | Executes(at) :: at(mask) == if at(value) >= Pow2(w - 1) then Pow2(w) - 1 else 0
  {
    var shift := b.EmitConstant(value.ty, w - 1);
    var signBit := b.EmitOp(Shr, value, shift);
    var zero := b.EmitConstant(value.ty, 0);
    mask := b.EmitOp(Sub, zero, signBit);
    forall at: Words | Executes(at)
      ensures at(mask) == if at(value) >= Pow2(w - 1) then Pow2(w) - 1 else 0
    {
      InRange(at, value);
      SignMaskOf(at(value), w);
    }
  }

  lemma MaskAnd(mask: nat, y: nat, w: nat)
    requires y < Pow2(w) && mask in {0, Pow2(w) - 1}
    ensures And(mask, y) == if mask == 0 then 0 else y
    ensures And(y, mask) == And(mask, y)
  {
    AndZero(y);
    AndCommutes(mask, y);
    AndMask(y, w);
    QuotientIsDivision(y, Pow2(w));
  }

  /** `0 - (value < 0 ? other : 0)`, as a mask: the sign fixup of one factor. */
  method EmitFixup(b: Block, high: Value, sign: Value, other: Value, w: nat) returns (r: Value)
    requires high.ty == sign.ty == other.ty == Int(w, false)
    requires forall at: Words | Executes(at) :: at(sign) in {0, Pow2(w) - 1}
    modifies b
    ensures b.Extended() && r.ty == high.ty
    ensures forall at: Words | Executes(at) :: at(r) == Wrap(at(high) - if at(sign) == 0 then 0 else at(other), w)
  {
    var fix := b.EmitOp(BitAnd, sign, other);
    r := b.EmitOp(Sub, high, fix);
    forall at: Words | Executes(at)
      ensures at(r) == Wrap(at(high) - if at(sign) == 0 then 0 else at(other), w)
    {
      InRange(at, other);
      MaskAnd(at(sign), at(other), w);
    }
  }

  /** The signed product, split at bit w, is the unsigned one with its high half fixed up. */
  lemma SignFixup(x: nat, y: nat, a: nat, c: nat, d: nat, high: nat, low: nat, sx: int, sy: int)
    requires x * y == d * high + low && sx == x - d * a && sy == y - d * c
    ensures sx * sy == d * (high - a * y - c * x + d * (a * c)) + low
  {
    assert (x - d * a) * (y - d * c) == x * y - d * (a * y) - d * (c * x) + d * (d * (a * c));
  }

  lemma SignedBy(x: nat, w: nat, a: nat)
    requires a == if Negative(x, w) then 1 else 0
    ensures Signed(x, w) == x - Pow2(w) * a
  {
  }

  /** How far the signed high half can be from zero. */
  lemma HighHalfSmall(z: int, p: nat, high: int, low: nat)
    requires 0 - p * p <= z <= p * p && z == (p + p) * high + low && low < p + p && p > 0
    ensures 0 - p <= high < p
  {
    var pp, m := p * p, (p + p) * high;
    assert (p + p) * p == pp + pp;
    assert pp >= p by { MulAtLeast(p, p, 1); }
    if high >= p {
      assert m >= pp + pp by { MulAtLeast(p + p, high, p); }
    } else if high < 0 - p {
      assert 0 - m >= pp + pp + (p + p) by {
        MulAtLeast(p + p, 0 - high, p + 1);
        assert (p + p) * (0 - high) == 0 - m;
        assert (p + p) * (p + 1) == pp + pp + (p + p);
      }
    }
  }

  /** A number split at bit w fits exactly when its high half repeats the sign of its low half. */
  lemma FitsBySign(z: int, p: nat, high: int, low: nat)
    requires z == (p + p) * high + low && low < p + p && p > 0
    ensures 0 - p <= z < p <==> (high == 0 && low < p) || (high == -1 && low >= p)
  {
    if high >= 1 {
      MulAtLeast(p + p, high, 1);
    } else if high <= -2 {
      MulAtLeast(p + p, 0 - high, 2);
      assert (p + p) * (0 - high) == 0 - (p + p) * high;
    }
  }

  predicate Negative(x: nat, w: nat) {
    w > 0 && x >= Pow2(w - 1)
  }

  /** The signed product, in terms of the unsigned one's halves. */
  lemma SignedProductSplits(x: nat, y: nat, w: nat, a: nat, c: nat, high: nat, low: nat, d: nat, z: int, signedHigh: int)
    requires x < Pow2(w) && y < Pow2(w) && d == Pow2(w) && high == Quotient(x * y, d) && low == Wrap(x * y, w)
    requires a == (if Negative(x, w) then 1 else 0) && c == if Negative(y, w) then 1 else 0
    requires z == Signed(x, w) * Signed(y, w) && signedHigh == high - a * y - c * x + d * (a * c)
    ensures z == d * signedHigh + low && Wrap(z, w) == low
  {
    QuotientRemainder(x * y, d);
    SignedBy(x, w, a);
    SignedBy(y, w, c);
    SignFixup(x, y, a, c, d, high, low, Signed(x, w), Signed(y, w));
    DivideUniquely(z, d, signedHigh, low);
  }

  /** The wrapped signed high half equals the sign extension of the low half exactly when the
      product fits. */
  lemma HighHalfDecides(z: int, w: nat, signedHigh: int, low: nat)
    requires w > 0 && 0 - Pow2(w - 1) * Pow2(w - 1) <= z <= Pow2(w - 1) * Pow2(w - 1)
    requires low < Pow2(w) && z == (Pow2(w - 1) + Pow2(w - 1)) * signedHigh + low
    ensures Wrap(signedHigh, w) != (if Negative(low, w) then Pow2(w) - 1 else 0) <==> !Fits(Int(w, true), z)
  {
    var p := Pow2(w - 1);
    HighHalfSmall(z, p, signedHigh, low);
    FitsBySign(z, p, signedHigh, low);
    WrapSmall(signedHigh, w);
  }

  /** The high half after both sign fixups. */
  function SignedHigh(x: nat, y: nat, high: nat, w: nat): nat {
    Wrap(Wrap(high - if Negative(x, w) then y else 0, w) - if Negative(y, w) then x else 0, w)
  }

  function SignExtension(x: nat, w: nat): nat {
    if Negative(x, w) then Pow2(w) - 1 else 0
  }

  lemma HighTestDecides(x: nat, y: nat, w: nat, high: nat, low: nat, z: int)
    requires w > 0 && x < Pow2(w) && y < Pow2(w) && high == Quotient(x * y, Pow2(w)) && low == Wrap(x * y, w)
    requires z == Signed(x, w) * Signed(y, w)
    ensures Wrap(z, w) == low && (SignedHigh(x, y, high, w) != SignExtension(low, w) <==> !Fits(Int(w, true), z))
  {
    var a, c := if Negative(x, w) then 1 else 0, if Negative(y, w) then 1 else 0;
    var u, v, e := a * y, c * x, Pow2(w) * (a * c);
    SignedProductSplits(x, y, w, a, c, high, low, Pow2(w), z, high - u - v + e);
    FixedHigh(x, y, high, w, u, v);
    WrapOfDifferences(high, u, v, e, a * c, w);
    SignedProductRange(x, y, w, z);
    HighHalfDecides(z, w, high - u - v + e, low);
  }

  lemma FixedHigh(x: nat, y: nat, high: nat, w: nat, u: int, v: int)
    requires u == (if Negative(x, w) then y else 0) && v == if Negative(y, w) then x else 0
    ensures SignedHigh(x, y, high, w) == Wrap(Wrap(high - u, w) - v, w)
  {
  }

  lemma SignedProductRange(x: nat, y: nat, w: nat, z: int)
    requires w > 0 && x < Pow2(w) && y < Pow2(w) && z == Signed(x, w) * Signed(y, w)
    ensures 0 - Pow2(w - 1) * Pow2(w - 1) <= z <= Pow2(w - 1) * Pow2(w - 1)
  {
    SignedRange(x, w);
    SignedRange(y, w);
    Box(Signed(x, w), Signed(y, w), Pow2(w - 1));
  }

  lemma WrapOfDifferences(high: nat, u: int, v: int, e: int, k: int, w: nat)
    requires e == Pow2(w) * k
    ensures Wrap(Wrap(high - u, w) - v, w) == Wrap(high - u - v + e, w)
  {
    var d := Pow2(w);
    var q := Quotient(high - u, d);
    QuotientRemainder(high - u, d);
    Distribute(d, q, k);
    CongruentWraps(high - u - v + e, Wrap(high - u, w) - v, q + k, w);
  }

  lemma Distribute(d: int, q: int, k: int)
    ensures d * (q + k) == d * q + d * k
  {
  }

  /** The overflow test of signed words of 2h bits, from the unsigned high half and the signs. */
  method LowerSignedMulOverflowByHalves(b: Block, lhs: Value, rhs: Value, h: nat) returns (wrapped: Value, overflow: Value)
    requires lhs.ty == rhs.ty == Int(h + h, true) && h >= 2
    modifies b
    ensures b.Extended() && wrapped.ty == lhs.ty && overflow.ty == BOOL
    ensures forall at: Words | Executes(at) :: at(wrapped) == Wrap(Signed(at(lhs), h + h) * Signed(at(rhs), h + h), h + h)
    ensures forall at: Words | Executes(at) ::
              at(overflow) == Truth(!Fits(lhs.ty, Signed(at(lhs), h + h) * Signed(at(rhs), h + h)))
  {
    var w := h + h;
    var lhsBits := EmitBits(b, lhs, w);
    var rhsBits := EmitBits(b, rhs, w);
    wrapped := b.EmitOp(Mul, lhs, rhs);
    var unsignedHigh := EmitUmulh(b, lhsBits, rhsBits, h);
    overflow := EmitHighTest(b, unsignedHigh, lhsBits, rhsBits, wrapped, w);
    forall at: Words | Executes(at)
      ensures at(wrapped) == Wrap(Signed(at(lhs), w) * Signed(at(rhs), w), w)
      ensures at(overflow) == Truth(!Fits(lhs.ty, Signed(at(lhs), w) * Signed(at(rhs), w)))
    {
      InRange(at, lhs);
      InRange(at, rhs);
      HighTestDecides(at(lhs), at(rhs), w, at(unsignedHigh), at(wrapped), Signed(at(lhs), w) * Signed(at(rhs), w));
    }
  }

  method EmitHighTest(b: Block, unsignedHigh: Value, lhsBits: Value, rhsBits: Value, wrapped: Value, w: nat) returns (overflow: Value)
    requires unsignedHigh.ty == lhsBits.ty == rhsBits.ty == Int(w, false) && wrapped.ty == Int(w, true) && w > 0
    modifies b
    ensures b.Extended() && overflow.ty == BOOL
    ensures forall at: Words | Executes(at) ::
              at(overflow) == Truth(SignedHigh(at(lhsBits), at(rhsBits), at(unsignedHigh), w) != SignExtension(at(wrapped), w))
  {
    var lhsMask := EmitSignMask(b, lhsBits, w);
    var rhsMask := EmitSignMask(b, rhsBits, w);
    var fixed := EmitFixup(b, unsignedHigh, lhsMask, rhsBits, w);
    var signedHigh := EmitFixup(b, fixed, rhsMask, lhsBits, w);
    var wrappedBits := EmitBits(b, wrapped, w);
    var expectedHigh := EmitSignMask(b, wrappedBits, w);
    overflow := b.EmitOp(Ne, signedHigh, expectedHigh);
  }

  /** The bits of a signed value, as an unsigned one. */
  method EmitBits(b: Block, v: Value, w: nat) returns (r: Value)
    requires v.ty == Int(w, true)
    modifies b
    ensures b.Extended() && r.ty == Int(w, false) && forall at: Words | Executes(at) :: at(r) == at(v)
  {
    r := b.EmitCast(Int(w, false), v);
    forall at: Words | Executes(at)
      ensures at(r) == at(v)
    {
      InRange(at, v);
      SignedRange(at(v), w);
    }
  }

  /** Unsigned overflow is a non-zero high half. */
  method LowerUnsignedMulOverflowByHalves(b: Block, lhs: Value, rhs: Value, h: nat) returns (wrapped: Value, overflow: Value)
    requires lhs.ty == rhs.ty == Double(h) && h >= 2
    modifies b
    ensures b.Extended() && wrapped.ty == lhs.ty && overflow.ty == BOOL
    ensures forall at: Words | Executes(at) :: at(wrapped) == Wrap(at(lhs) * at(rhs), h + h)
    ensures forall at: Words | Executes(at) :: at(overflow) == Truth(!Fits(lhs.ty, at(lhs) * at(rhs)))
  {
    wrapped := b.EmitOp(Mul, lhs, rhs);
    var high := EmitUmulh(b, lhs, rhs, h);
    var zero := b.EmitConstant(lhs.ty, 0);
    overflow := b.EmitOp(Ne, high, zero);
    forall at: Words | Executes(at)
      ensures at(overflow) == Truth(!Fits(lhs.ty, at(lhs) * at(rhs)))
    {
      HighHalfZero(at(lhs) * at(rhs), Pow2(h + h));
    }
  }

  lemma HighHalfZero(x: nat, d: nat)
    requires d > 0
    ensures Quotient(x, d) == 0 <==> x < d
  {
  }

  // ---- the dispatch on the type ----

  datatype Overflowing = Overflowing(wrapped: Value, overflow: Value)

  /** The result pair: the wrapped value and the flag as a stored byte. */
  method PackOverflowResult(b: Block, wrapped: Value, overflow: Value) returns (r: Overflowing)
    requires overflow.ty == BOOL && forall at: Words | Executes(at) :: at(overflow) in {0, 1}
    modifies b
    ensures b.Extended() && r.wrapped == wrapped && r.overflow.ty == BOOL_STORAGE
    ensures forall at: Words | Executes(at) :: at(r.overflow) == at(overflow)
  {
    var stored := b.EmitCast(BOOL_STORAGE, overflow);
    r := Overflowing(wrapped, stored);
    Pow2Constants();
  }

  /** Multiplication with overflow, of any integer type: up to 64 bits through twice the width, at 128
      bits through the high half; other widths are refused. The value is the wrapped true product
      and the flag says whether that product does not fit the type. */
  method LowerMulOverflow(b: Block, lhs: Value, rhs: Value) returns (r: Result<Overflowing, nat>)
    requires lhs.ty == rhs.ty && lhs.ty.width > 0
    modifies b
    ensures b.Extended()
    ensures r.Ok? <==> lhs.ty.width <= 64 || lhs.ty.width == 128
    ensures r.Ok? ==> r.value.wrapped.ty == lhs.ty && r.value.overflow.ty == BOOL_STORAGE
    ensures r.Ok? ==> forall at: Words | Executes(at) :: at(r.value.wrapped) == Wrap(Read(lhs.ty, at(lhs)) * Read(lhs.ty, at(rhs)), lhs.ty.width)
    ensures r.Ok? ==> forall at: Words | Executes(at) ::
              at(r.value.overflow) == Truth(!Fits(lhs.ty, Read(lhs.ty, at(lhs)) * Read(lhs.ty, at(rhs))))
  {
    var w := lhs.ty.width;
    if w > 64 && w != 128 {
      return Err(w);
    }
    var wrapped, overflow;
    if lhs.ty.signed {
      if w == 128 {
        wrapped, overflow := LowerSignedMulOverflowByHalves(b, lhs, rhs, 64);
      } else {
        wrapped, overflow := LowerSignedMulOverflow(b, lhs, rhs, w);
      }
    } else if w == 128 {
      wrapped, overflow := LowerUnsignedMulOverflowByHalves(b, lhs, rhs, 64);
    } else {
      wrapped, overflow := LowerUnsignedMulOverflow(b, lhs, rhs, w);
    }
    var packed := PackOverflowResult(b, wrapped, overflow);
    r := Ok(packed);
  }
}
