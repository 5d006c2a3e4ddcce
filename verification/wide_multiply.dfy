/** The high half of a product of two words, from four partial products of their halves and the
    carry between them, none of which wraps. */
module WideMultiply {
  import opened Bits
  import opened Ir

  // ---- the arithmetic, on naturals ----

  lemma ProductBelow(x: nat, y: nat, p: nat, q: nat)
    requires x < p && y < q
    ensures x * y <= (p - 1) * (q - 1) && (p - 1) * (q - 1) == p * q - p - q + 1
  {
    MulAtLeast(p - 1, q - 1, y);
    MulAtLeast(y, p - 1, x);
  }

  /** The schoolbook product of two two-digit numbers in base `q`. */
  lemma Schoolbook(q: nat, x1: nat, x0: nat, y1: nat, y0: nat, mid: nat, ah: nat, al: nat, bh: nat, bl: nat, ch: nat, cl: nat,
                   mh: nat, ml: nat)
    requires x1 * y0 == q * ah + al && x0 * y1 == q * bh + bl && x0 * y0 == q * ch + cl
    requires mid == al + bl + ch == q * mh + ml
    ensures (q * x1 + x0) * (q * y1 + y0) == q * q * (x1 * y1 + ah + bh + mh) + (q * ml + cl)
  {
    Expand(q, x1, x0, y1, y0);
    Regroup(q, x1 * y1, ah, al, bh, bl, ch, cl, mh, ml);
  }

  lemma Expand(q: nat, x1: nat, x0: nat, y1: nat, y0: nat)
    ensures (q * x1 + x0) * (q * y1 + y0) == q * q * (x1 * y1) + q * (x1 * y0 + x0 * y1) + x0 * y0
  {
  }

  lemma Regroup(q: nat, hi: nat, ah: nat, al: nat, bh: nat, bl: nat, ch: nat, cl: nat, mh: nat, ml: nat)
    requires al + bl + ch == q * mh + ml
    ensures q * q * hi + q * (q * ah + al + (q * bh + bl)) + (q * ch + cl) == q * q * (hi + ah + bh + mh) + (q * ml + cl)
  {
    assert q * (q * ah + al + (q * bh + bl)) + q * ch == q * (q * ah + q * bh + (al + bl + ch));
    assert q * (q * ah + q * bh + (q * mh + ml)) == q * q * (ah + bh + mh) + q * ml;
  }

  /** From the four exact partial products, and the carry out of the middle, to the high half. */
  lemma PartialsGiveHighHalf(q: nat, x: nat, y: nat, lo: nat, a: nat, b: nat, hi: nat, carry: nat, high: nat)
    requires q > 3 && x < q * q && y < q * q
    requires lo == Remainder(x, q) * Remainder(y, q) && a == Quotient(x, q) * Remainder(y, q)
    requires b == Remainder(x, q) * Quotient(y, q) && hi == Quotient(x, q) * Quotient(y, q)
    requires carry == Quotient(Remainder(a, q) + Remainder(b, q) + Quotient(lo, q), q)
    requires high == hi + Quotient(a, q) + Quotient(b, q) + carry
    ensures high < q * q && high == Quotient(x * y, q * q)
  {
    var x1, x0, y1, y0 := Quotient(x, q), Remainder(x, q), Quotient(y, q), Remainder(y, q);
    var mid := Remainder(a, q) + Remainder(b, q) + Quotient(lo, q);
    QuotientRemainder(x, q);
    QuotientRemainder(y, q);
    QuotientRemainder(lo, q);
    QuotientRemainder(a, q);
    QuotientRemainder(b, q);
    QuotientRemainder(mid, q);
    Schoolbook(q, x1, x0, y1, y0, mid, Quotient(a, q), Remainder(a, q), Quotient(b, q), Remainder(b, q),
               Quotient(lo, q), Remainder(lo, q), carry, Remainder(mid, q));
    TopDigit(q, x, y, high, Remainder(mid, q), Remainder(lo, q));
  }

  lemma TopDigit(q: nat, x: nat, y: nat, top: nat, ml: nat, cl: nat)
    requires x < q * q && y < q * q && ml < q && cl < q && x * y == q * q * top + (q * ml + cl)
    ensures top < q * q && Quotient(x * y, q * q) == top
  {
    MulAtLeast(q, q - 1, ml);
    DivideUniquely(x * y, q * q, top, q * ml + cl);
    ProductBelow(x, y, q * q, q * q);
    if top >= q * q {
      MulAtLeast(q * q, top, q * q);
    }
  }

  lemma HalvesBelow(x: nat, q: nat)
    requires q > 0 && x < q * q
    ensures 0 <= Quotient(x, q) < q && x == q * Quotient(x, q) + Remainder(x, q)
  {
    QuotientRemainder(x, q);
    if Quotient(x, q) >= q {
      MulAtLeast(q, Quotient(x, q), q);
    }
  }

  /** The four partial products fit two digits. */
  lemma PartialsFit(q: nat, x: nat, y: nat)
    requires q > 0 && x < q * q && y < q * q
    ensures Quotient(x, q) < q && Quotient(y, q) < q
    ensures Remainder(x, q) * Remainder(y, q) < q * q && Quotient(x, q) * Remainder(y, q) < q * q
    ensures Remainder(x, q) * Quotient(y, q) < q * q && Quotient(x, q) * Quotient(y, q) < q * q
  {
    HalvesBelow(x, q);
    HalvesBelow(y, q);
    ProductBelow(Remainder(x, q), Remainder(y, q), q, q);
    ProductBelow(Quotient(x, q), Remainder(y, q), q, q);
    ProductBelow(Remainder(x, q), Quotient(y, q), q, q);
    ProductBelow(Quotient(x, q), Quotient(y, q), q, q);
  }

  /** So does what is summed in the middle. */
  lemma MiddleFits(q: nat, lo: nat, a: nat, b: nat)
    requires q > 3 && lo < q * q
    ensures Remainder(a, q) + Remainder(b, q) + Quotient(lo, q) < q * q
  {
    HalvesBelow(lo, q);
    MulAtLeast(q, q, 4);
  }

  // ---- the emitted ops ----

  /** The unsigned type of twice `h` bits. */
  function Double(h: nat): Ty {
    Int(h + h, false)
  }

  predicate Is(v: Value, h: nat) {
    v.ty == Double(h)
  }

  method EmitLow(b: Block, v: Value, mask: Value, h: nat) returns (r: Value)
    requires Is(v, h) && Is(mask, h) && forall at: Words | Executes(at) :: at(mask) == Wrap(Pow2(h) - 1, h + h)
    modifies b
    ensures b.Extended() && Is(r, h) && forall at: Words | Executes(at) :: at(r) == Remainder(at(v), Pow2(h))
  {
    r := b.EmitOp(BitAnd, v, mask);
    forall at: Words | Executes(at)
      ensures at(r) == Remainder(at(v), Pow2(h))
    {
      Pow2Monotone(h, h + h);
      AndMask(at(v), h);
      QuotientIsDivision(at(v), Pow2(h));
    }
  }

  method EmitHigh(b: Block, v: Value, amount: Value, h: nat) returns (r: Value)
    requires Is(v, h) && Is(amount, h) && forall at: Words | Executes(at) :: at(amount) == Wrap(h, h + h)
    modifies b
    ensures b.Extended() && Is(r, h) && forall at: Words | Executes(at) :: at(r) == Quotient(at(v), Pow2(h))
  {
    r := b.EmitOp(Shr, v, amount);
    forall at: Words | Executes(at)
      ensures at(r) == Quotient(at(v), Pow2(h))
    {
      InRange(at, v);
      ShiftedDown(at(v), h);
    }
  }

  lemma ShiftedDown(x: nat, h: nat)
    requires x < Pow2(h + h)
    ensures Wrap(Quotient(x, Pow2(h)), h + h) == Quotient(x, Pow2(h)) && Wrap(h, h + h) == h
  {
    BelowOwnPower(h);
    Pow2Monotone(h, h + h);
  }

  lemma WrapExact(x: nat, w: nat)
    requires x < Pow2(w)
    ensures Wrap(x, w) == x
  {
  }

  /** A product that cannot wrap. */
  method EmitExactMul(b: Block, u: Value, v: Value, h: nat) returns (r: Value)
    requires Is(u, h) && Is(v, h) && forall at: Words | Executes(at) :: at(u) * at(v) < Pow2(h + h)
    modifies b
    ensures b.Extended() && Is(r, h) && forall at: Words | Executes(at) :: at(r) == at(u) * at(v)
  {
    r := b.EmitOp(Mul, u, v);
    forall at: Words | Executes(at)
      ensures at(r) == at(u) * at(v)
    {
      WrapExact(at(u) * at(v), h + h);
    }
  }

  /** A sum that cannot wrap. */
  method EmitExactAdd(b: Block, u: Value, v: Value, h: nat) returns (r: Value)
    requires Is(u, h) && Is(v, h) && forall at: Words | Executes(at) :: at(u) + at(v) < Pow2(h + h)
    modifies b
    ensures b.Extended() && Is(r, h) && forall at: Words | Executes(at) :: at(r) == at(u) + at(v)
  {
    r := b.EmitOp(Add, u, v);
  }

  ghost predicate Partials(q: nat, x: nat, y: nat, lo: nat, a: nat, b: nat, hi: nat)
    requires q > 0
  {
    && lo == Remainder(x, q) * Remainder(y, q) && a == Quotient(x, q) * Remainder(y, q)
    && b == Remainder(x, q) * Quotient(y, q) && hi == Quotient(x, q) * Quotient(y, q)
  }

  method EmitPartials(b: Block, lhs: Value, rhs: Value, mask: Value, amount: Value, h: nat)
    returns (lo: Value, crossA: Value, crossB: Value, hi: Value)
    requires Is(lhs, h) && Is(rhs, h) && Is(mask, h) && Is(amount, h)
    requires forall at: Words | Executes(at) :: at(mask) == Wrap(Pow2(h) - 1, h + h) && at(amount) == Wrap(h, h + h)
    modifies b
    ensures b.Extended() && Is(lo, h) && Is(crossA, h) && Is(crossB, h) && Is(hi, h)
    ensures forall at: Words | Executes(at) ::
              Partials(Pow2(h), at(lhs), at(rhs), at(lo), at(crossA), at(crossB), at(hi))
  {
    var aLo := EmitLow(b, lhs, mask, h);
    var aHi := EmitHigh(b, lhs, amount, h);
    var bLo := EmitLow(b, rhs, mask, h);
    var bHi := EmitHigh(b, rhs, amount, h);
    forall at: Words | Executes(at)
      ensures at(aLo) * at(bLo) < Pow2(h + h) && at(aHi) * at(bLo) < Pow2(h + h)
      ensures at(aLo) * at(bHi) < Pow2(h + h) && at(aHi) * at(bHi) < Pow2(h + h)
    {
      InRange(at, lhs);
      InRange(at, rhs);
      Pow2Add(h, h);
      PartialsFit(Pow2(h), at(lhs), at(rhs));
    }
    lo := EmitExactMul(b, aLo, bLo, h);
    crossA := EmitExactMul(b, aHi, bLo, h);
    crossB := EmitExactMul(b, aLo, bHi, h);
    hi := EmitExactMul(b, aHi, bHi, h);
  }

  method EmitCarry(b: Block, lo: Value, crossA: Value, crossB: Value, mask: Value, amount: Value, h: nat) returns (carry: Value)
    requires Is(lo, h) && Is(crossA, h) && Is(crossB, h) && Is(mask, h) && Is(amount, h) && h >= 2
    requires forall at: Words | Executes(at) :: at(mask) == Wrap(Pow2(h) - 1, h + h) && at(amount) == Wrap(h, h + h)
    modifies b
    ensures b.Extended() && Is(carry, h)
    ensures forall at: Words | Executes(at) :: at(carry) == Quotient(Remainder(at(crossA), Pow2(h)) + Remainder(at(crossB), Pow2(h))
                                                       + Quotient(at(lo), Pow2(h)), Pow2(h))
  {
    var crossALo := EmitLow(b, crossA, mask, h);
    var crossBLo := EmitLow(b, crossB, mask, h);
    var loHi := EmitHigh(b, lo, amount, h);
    forall at: Words | Executes(at)
      ensures at(crossALo) + at(crossBLo) + at(loHi) < Pow2(h + h)
    {
      InRange(at, lo);
      Pow2Add(h, h);
      AtLeastFour(h);
      MiddleFits(Pow2(h), at(lo), at(crossA), at(crossB));
    }
    var midSum := EmitExactAdd(b, crossALo, crossBLo, h);
    midSum := EmitExactAdd(b, midSum, loHi, h);
    carry := EmitHigh(b, midSum, amount, h);
  }

  /** The high half of the exact product of two words of 2h bits, with no sum or product that wraps. */
  method EmitUmulh(b: Block, lhs: Value, rhs: Value, h: nat) returns (high: Value)
    requires Is(lhs, h) && Is(rhs, h) && h >= 2
    modifies b
    ensures b.Extended() && Is(high, h)
    ensures forall at: Words | Executes(at) :: at(high) == Quotient(at(lhs) * at(rhs), Pow2(h + h))
  {
    var mask := b.EmitConstant(Double(h), Pow2(h) - 1);
    var amount := b.EmitConstant(Double(h), h);
    var lo, crossA, crossB, hi := EmitPartials(b, lhs, rhs, mask, amount, h);
    var carry := EmitCarry(b, lo, crossA, crossB, mask, amount, h);
    var crossAHi := EmitHigh(b, crossA, amount, h);
    var crossBHi := EmitHigh(b, crossB, amount, h);
    forall at: Words | Executes(at)
      ensures at(hi) + at(crossAHi) + at(crossBHi) + at(carry) < Pow2(h + h)
      ensures at(hi) + at(crossAHi) + at(crossBHi) + at(carry)
           == Quotient(at(lhs) * at(rhs), Pow2(h + h))
    {
      InRange(at, lhs);
      InRange(at, rhs);
      HighSum(h, at(lhs), at(rhs), at(lo), at(crossA), at(crossB), at(hi), at(carry));
    }
    high := EmitSum(b, hi, crossAHi, crossBHi, carry, h);
  }

  lemma HighSum(h: nat, x: nat, y: nat, lo: nat, a: nat, b: nat, hi: nat, carry: nat)
    requires h >= 2 && x < Pow2(h + h) && y < Pow2(h + h) && Partials(Pow2(h), x, y, lo, a, b, hi)
    requires carry == Quotient(Remainder(a, Pow2(h)) + Remainder(b, Pow2(h)) + Quotient(lo, Pow2(h)), Pow2(h))
    ensures hi + Quotient(a, Pow2(h)) + Quotient(b, Pow2(h)) + carry < Pow2(h + h)
    ensures hi + Quotient(a, Pow2(h)) + Quotient(b, Pow2(h)) + carry == Quotient(x * y, Pow2(h + h))
  {
    Pow2Add(h, h);
    AtLeastFour(h);
    PartialsGiveHighHalf(Pow2(h), x, y, lo, a, b, hi, carry, hi + Quotient(a, Pow2(h)) + Quotient(b, Pow2(h)) + carry);
  }

  method EmitSum(b: Block, s: Value, t: Value, u: Value, v: Value, h: nat) returns (sum: Value)
    requires Is(s, h) && Is(t, h) && Is(u, h) && Is(v, h)
    requires forall at: Words | Executes(at) :: at(s) + at(t) + at(u) + at(v) < Pow2(h + h)
    modifies b
    ensures b.Extended() && Is(sum, h)
    ensures forall at: Words | Executes(at) :: at(sum) == at(s) + at(t) + at(u) + at(v)
  {
    sum := EmitExactAdd(b, s, t, h);
    sum := EmitExactAdd(b, sum, u, h);
    sum := EmitExactAdd(b, sum, v, h);
  }

  lemma AtLeastFour(h: nat)
    requires h >= 2
    ensures Pow2(h) > 3
  {
    assert Pow2(h) == 2 * Pow2(h - 1) && Pow2(h - 1) == 2 * Pow2(h - 2);
  }
}
