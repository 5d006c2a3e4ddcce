/** Counting trailing and leading zeros without branches. */
module ZeroCounts {
  import opened Bits
  import opened Ir
  import opened MulOverflow
  import opened PopCounts
  import opened Saturate
  import opened WideMultiply

  // ---- what is counted ----

  /** The zeros below the lowest set bit of the low `w` bits; all `w` when there is none. */
  function Cttz(x: nat, w: nat): (z: nat)
    ensures z <= w
    decreases w, x
  {
    if w == 0 then 0 else if x % 2 == 1 then 0 else 1 + Cttz(x / 2, w - 1)
  }

  /** The zeros above the highest set bit of the low `w` bits; all `w` when there is none. */
  function Ctlz(x: nat, w: nat): (z: nat)
    ensures z <= w
    decreases w, x
  {
    if w == 0 then 0 else if Bit(x, w - 1) then 0 else 1 + Ctlz(x, w - 1)
  }

  ghost predicate TrailingZeros(x: nat, w: nat, z: nat) {
    z <= w && (forall i: nat | i < z :: !Bit(x, i)) && (z < w ==> Bit(x, z))
  }

  ghost predicate LeadingZeros(x: nat, w: nat, z: nat) {
    z <= w && (forall i: nat | w - z <= i < w :: !Bit(x, i)) && (z < w ==> Bit(x, w - z - 1))
  }

  lemma {:induction false} CttzCounts(x: nat, w: nat)
    ensures TrailingZeros(x, w, Cttz(x, w))
    decreases w
  {
    if w > 0 && x % 2 == 0 {
      CttzCounts(x / 2, w - 1);
      forall i: nat | i < Cttz(x, w)
        ensures !Bit(x, i)
      {
        if i > 0 {
          assert !Bit(x / 2, i - 1);
        }
      }
    }
  }

  lemma {:induction false} CtlzCounts(x: nat, w: nat)
    ensures LeadingZeros(x, w, Ctlz(x, w))
    decreases w
  {
    if w > 0 && !Bit(x, w - 1) {
      CtlzCounts(x, w - 1);
    }
  }

  /** There is only one such count. */
  lemma CttzIs(x: nat, w: nat, z: nat)
    requires TrailingZeros(x, w, z)
    ensures Cttz(x, w) == z
  {
    CttzCounts(x, w);
  }

  lemma CtlzIs(x: nat, w: nat, z: nat)
    requires LeadingZeros(x, w, z)
    ensures Ctlz(x, w) == z
  {
    CtlzCounts(x, w);
  }

  // ---- trailing zeros: the ones below the lowest set bit ----

  lemma {:induction false} PopCountOfOnes(k: nat)
    ensures PopCount(Pow2(k) - 1) == k
  {
    if k > 0 {
      PopCountOfOnes(k - 1);
      assert (Pow2(k) - 1) / 2 == Pow2(k - 1) - 1 && (Pow2(k) - 1) % 2 == 1;
    }
  }

  lemma AndComplement(x: nat, w: nat)
    requires x < Pow2(w)
    ensures And(x, Pow2(w) - 1 - x) == 0
  {
    var c := Pow2(w) - 1 - x;
    AndBits(x, c);
    forall i: nat
      ensures Bit(And(x, c), i) == Bit(0, i)
    {
      BitOfComplement(x, w, i);
      ZeroHasNoBits(i);
    }
    BitsExtensional(And(x, c), 0);
  }

  lemma AndHalves(x: nat, y: nat)
    ensures And(x, y) == And(x / 2, y / 2) * 2 + if x % 2 == 1 && y % 2 == 1 then 1 else 0
  {
    var a, r := And(x, y), And(x / 2, y / 2) * 2 + if x % 2 == 1 && y % 2 == 1 then 1 else 0;
    AndBits(x, y);
    AndBits(x / 2, y / 2);
    forall i: nat
      ensures Bit(a, i) == Bit(r, i)
    {
      if i > 0 {
        assert r / 2 == And(x / 2, y / 2);
      }
    }
    BitsExtensional(a, r);
  }

  /** `x & -x` is the lowest set bit. */
  lemma {:induction false} LowestBit(x: nat, n: nat)
    requires 0 < x < Pow2(n)
    ensures Cttz(x, n) < n && And(x, Pow2(n) - x) == Pow2(Cttz(x, n))
    decreases n
  {
    var y, half := Pow2(n) - x, x / 2;
    AndHalves(x, y);
    if x % 2 == 1 {
      assert y / 2 == Pow2(n - 1) - 1 - half && y % 2 == 1;
      AndComplement(half, n - 1);
    } else {
      assert y / 2 == Pow2(n - 1) - half && y % 2 == 0;
      LowestBit(half, n - 1);
    }
  }

  lemma {:induction false} CttzOfLow(x: nat, w: nat, n: nat)
    requires w <= n
    ensures Cttz(x, w) == if Cttz(x, n) < w then Cttz(x, n) else w
    decreases w
  {
    if w > 0 && x % 2 == 0 {
      CttzOfLow(x / 2, w - 1, n - 1);
    }
  }

  lemma {:induction false} CttzOfZero(n: nat)
    ensures Cttz(0, n) == n
  {
    if n > 0 {
      CttzOfZero(n - 1);
    }
  }

  /** `(x & -x) - 1` is the ones below the lowest set bit; all ones when there is none. */
  lemma OnesBelow(x: nat, n: nat, below: nat)
    requires x < Pow2(n) && below == Wrap(And(x, Wrap(0 - x, n)) - 1, n)
    ensures below == Pow2(Cttz(x, n)) - 1 && Cttz(x, n) <= n
  {
    if x == 0 {
      AndZero(Wrap(0, n));
      CttzOfZero(n);
      WrapOnce(-1, n);
    } else {
      WrapOnce(0 - x, n);
      LowestBit(x, n);
      Pow2Monotone(Cttz(x, n), n);
    }
  }

  lemma MaskedOnes(t: nat, w: nat, ones: nat)
    requires ones == Pow2(t) - 1
    ensures And(ones, Pow2(w) - 1) == Pow2(if t < w then t else w) - 1
  {
    AndMask(ones, w);
    if w <= t {
      OnesUnder(t, w);
    } else {
      Pow2Monotone(t, w);
      DivUnique(ones, Pow2(w), 0, ones);
    }
  }

  /** The ones of `(x & -x) - 1`, under the mask, are the trailing zeros of the low `w` bits. */
  lemma TrailingStage(x: nat, w: nat, n: nat, below: nat)
    requires w <= n && x < Pow2(n)
    requires below == Wrap(And(x, Wrap(0 - x, n)) - 1, n)
    ensures And(below, Pow2(w) - 1) == Pow2(Cttz(x, w)) - 1
  {
    CttzOfLow(x, w, n);
    OnesBelow(x, n, below);
    MaskedOnes(Cttz(x, n), w, below);
  }

  lemma OnesUnder(n: nat, w: nat)
    requires w <= n
    ensures (Pow2(n) - 1) % Pow2(w) == Pow2(w) - 1
  {
    Pow2Add(n - w, w);
    OnesModulo(Pow2(n), Pow2(w), Pow2(n - w));
  }

  lemma OnesModulo(pq: nat, p: nat, q: nat)
    requires pq == q * p && p > 0 && q > 0
    ensures (pq - 1) % p == p - 1
  {
    assert q * p - 1 == p * (q - 1) + (p - 1);
    DivUnique(pq - 1, p, q - 1, p - 1);
  }

  // ---- leading zeros: the zeros left after smearing the highest set bit down ----

  ghost predicate SomeBit(x: nat, lo: nat, hi: nat) {
    exists j: nat :: lo <= j < hi && Bit(x, j)
  }

  /** Every bit of `r` says whether `x` has a set bit within `m` places up. */
  ghost predicate Smeared(r: nat, x: nat, m: nat) {
    forall i: nat :: Bit(r, i) <==> SomeBit(x, i, i + m)
  }

  lemma SmearStart(x: nat)
    ensures Smeared(x, x, 1)
  {
    forall i: nat
      ensures Bit(x, i) <==> SomeBit(x, i, i + 1)
    {
    }
  }

  lemma SmearStep(r: nat, x: nat, m: nat, next: nat)
    requires Smeared(r, x, m) && next == Or(r, Bits.Shr(r, m))
    ensures Smeared(next, x, m + m)
  {
    OrBits(r, Bits.Shr(r, m));
    forall i: nat
      ensures Bit(next, i) <==> SomeBit(x, i, i + (m + m))
    {
      BitOfShr(r, m, i);
      assert Bit(next, i) <==> SomeBit(x, i, i + m) || SomeBit(x, i + m, i + m + m);
    }
  }

  lemma SmearedIsOnes(r: nat, x: nat, w: nat)
    requires Smeared(r, x, w) && x < Pow2(w) && r < Pow2(w)
    ensures r == Pow2(w - Ctlz(x, w)) - 1
  {
    CtlzCounts(x, w);
    var k := w - Ctlz(x, w);
    var ones := Pow2(k) - 1;
    forall i: nat
      ensures Bit(r, i) == Bit(ones, i)
    {
      BitOfOnes(k, i);
      if i < k {
        assert i <= k - 1 < i + w && Bit(x, k - 1);
      } else if SomeBit(x, i, i + w) {
        var j: nat :| i <= j < i + w && Bit(x, j);
        NoHighBits(x, w, j);
      }
    }
    BitsExtensional(r, ones);
  }

  lemma {:induction false} PopCountOfComplement(x: nat, w: nat)
    requires x < Pow2(w)
    ensures PopCount(x) <= w && PopCount(Pow2(w) - 1 - x) == w - PopCount(x)
    decreases w
  {
    if w > 0 {
      var c := Pow2(w) - 1 - x;
      assert c / 2 == Pow2(w - 1) - 1 - x / 2 && c % 2 == 1 - x % 2;
      PopCountOfComplement(x / 2, w - 1);
      PopCountUnrolls(x);
      PopCountUnrolls(c);
    }
  }

  lemma PopCountUnrolls(x: nat)
    ensures PopCount(x) == x % 2 + PopCount(x / 2)
  {
  }

  /** Counting the ones of the smeared word's complement counts the leading zeros. */
  lemma LeadingStage(x: nat, r: nat, w: nat)
    requires Smeared(r, x, w) && x < Pow2(w) && r < Pow2(w)
    ensures PopCount(Xor(r, Pow2(w) - 1)) == Ctlz(x, w)
  {
    SmearedIsOnes(r, x, w);
    XorOnes(r, w);
    PopCountOfComplement(r, w);
    PopCountOfOnes(w - Ctlz(x, w));
    CtlzCounts(x, w);
  }

  lemma BitOfRaised(x: nat, w: nat, n: nat, i: nat)
    requires w <= n
    ensures Bit(Wrap(x * Pow2(n - w), n), i) <==> n - w <= i < n && Bit(x, i - (n - w))
  {
    QuotientIsDivision(Bits.Shl(x, n - w), Pow2(n));
    BitOfMod(Bits.Shl(x, n - w), n, i);
    BitOfShl(x, n - w, i);
  }

  /** Moving the low `w` bits to the top of an n-bit word keeps their leading zeros, unless there is
      no set bit among them: then the whole word is zeros. */
  lemma RaisedLeadingZeros(x: nat, w: nat, n: nat)
    requires w <= n
    ensures Ctlz(Wrap(x * Pow2(n - w), n), n) == if Ctlz(x, w) == w then n else Ctlz(x, w)
  {
    var raised, z := Wrap(x * Pow2(n - w), n), Ctlz(x, w);
    CtlzCounts(x, w);
    forall i: nat
      ensures Bit(raised, i) <==> n - w <= i < n && Bit(x, i - (n - w))
    {
      BitOfRaised(x, w, n, i);
    }
    if z == w {
      CtlzIs(raised, n, n);
    } else {
      assert n - z - 1 - (n - w) == w - z - 1;
      CtlzIs(raised, n, z);
    }
  }

  lemma NoSetBits(x: nat, w: nat)
    ensures Ctlz(x, w) == w <==> Wrap(x, w) == 0
  {
    CtlzCounts(x, w);
    QuotientIsDivision(x, Pow2(w));
    if Ctlz(x, w) == w {
      forall i: nat
        ensures Bit(Wrap(x, w), i) == Bit(0, i)
      {
        BitOfMod(x, w, i);
        ZeroHasNoBits(i);
      }
      BitsExtensional(Wrap(x, w), 0);
    } else {
      var i := w - Ctlz(x, w) - 1;
      BitOfMod(x, w, i);
      ZeroHasNoBits(i);
    }
  }

  // ---- the emitted ops ----

  /** Trailing zeros of the low `width` bits of a 64-bit value, whatever is above them. */
  method EmitCttz64(b: Block, x: Value, width: nat) returns (r: Value)
    requires x.ty == U64 && 0 < width <= 64
    modifies b
    ensures b.Extended() && r.ty == U64
    ensures forall at: Words | Executes(at) :: at(r) == Cttz(at(x), width)
  {
    var masked := EmitBelowLowest(b, x, width);
    r := EmitPopCount64(b, masked);
    forall at: Words | Executes(at)
      ensures at(r) == Cttz(at(x), width)
    {
      PopCountOfOnes(Cttz(at(x), width));
    }
  }

  /** One less than the lowest set bit alone. */
  ghost predicate UnderLowest(x: Value, below: Value) {
    forall at: Words | Executes(at) :: at(below) == Wrap(And(at(x), Wrap(0 - at(x), x.ty.width)) - 1, x.ty.width)
  }

  method EmitUnderLowest(b: Block, x: Value) returns (below: Value)
    requires x.ty.width > 0
    modifies b
    ensures b.Extended() && below.ty == x.ty && UnderLowest(x, below)
  {
    var zero := b.EmitConstant(x.ty, 0);
    var neg := b.EmitOp(Sub, zero, x);
    var lowBit := b.EmitOp(BitAnd, x, neg);
    var one := b.EmitConstant(x.ty, 1);
    below := b.EmitOp(Sub, lowBit, one);
    assert Pow2(x.ty.width) == 2 * Pow2(x.ty.width - 1);
  }

  lemma MaskedIsBelow(at: Words, x: Value, below: Value, width: nat)
    requires Executes(at) && width <= x.ty.width && UnderLowest(x, below)
    ensures And(at(below), Pow2(width) - 1) == Pow2(Cttz(at(x), width)) - 1
  {
    InRange(at, x);
    TrailingStage(at(x), width, x.ty.width, at(below));
  }

  /** As many ones as there are trailing zeros. */
  ghost predicate OnesOf(x: Value, r: Value, width: nat) {
    forall at: Words | Executes(at) :: at(r) == Pow2(Cttz(at(x), width)) - 1
  }

  lemma AllMasked(x: Value, below: Value, r: Value, width: nat, mask: nat)
    requires width <= x.ty.width && UnderLowest(x, below) && mask == Pow2(width) - 1
    requires forall at: Words | Executes(at) :: at(r) == And(at(below), mask)
    ensures OnesOf(x, r, width)
  {
    forall at: Words | Executes(at)
      ensures at(r) == Pow2(Cttz(at(x), width)) - 1
    {
      MaskedIsBelow(at, x, below, width);
    }
  }

  method EmitBelowLowest(b: Block, x: Value, width: nat) returns (r: Value)
    requires x.ty == U64 && 0 < width <= 64
    modifies b
    ensures b.Extended() && r.ty == U64 && OnesOf(x, r, width)
  {
    var below := EmitUnderLowest(b, x);
    Pow2Monotone(width, 64);
    r := EmitAnd(b, below, Pow2(width) - 1);
    AllMasked(x, below, r, width, Pow2(width) - 1);
  }

  /** Leading zeros of the low `width` bits of a 64-bit value, whatever is above them; 64 when
      none of them is set. */
  method EmitCtlz64(b: Block, x: Value, width: nat) returns (r: Value)
    requires x.ty == U64 && 0 < width <= 64
    modifies b
    ensures b.Extended() && r.ty == U64
    ensures forall at: Words | Executes(at) :: at(r) == if Wrap(at(x), width) == 0 then 64 else Ctlz(at(x), width)
  {
    var raised := x;
    if width < 64 {
      var up := b.EmitConstant(U64, 64 - width);
      raised := b.EmitOp(Shl, x, up);
    }
    forall at: Words | Executes(at)
      ensures at(raised) == Wrap(at(x) * Pow2(64 - width), 64)
    {
      InRange(at, x);
      Word64();
    }
    r := EmitLeading(b, raised);
    forall at: Words | Executes(at)
      ensures at(r) == if Wrap(at(x), width) == 0 then 64 else Ctlz(at(x), width)
    {
      NoSetBits(at(x), width);
      RaisedLeadingZeros(at(x), width, 64);
    }
  }

  /** The smearing loop: shifts by 1, 2, 4, up to 32. */
  method EmitLeading(b: Block, x: Value) returns (r: Value)
    requires x.ty == U64
    modifies b
    ensures b.Extended() && r.ty == U64
    ensures forall at: Words | Executes(at) :: at(r) == Ctlz(at(x), 64)
  {
    var smeared, m := x, 1;
    forall at: Words | Executes(at)
      ensures Smeared(at(smeared), at(x), 1)
    {
      SmearStart(at(x));
    }
    while m < 64
      invariant b.Extended() && smeared.ty == U64 && IsSmearStep(m)
      invariant forall at: Words | Executes(at) :: Smeared(at(smeared), at(x), m)
      decreases 64 - m
    {
      smeared := EmitSmearStep(b, smeared, x, m);
      m := m + m;
    }
    r := EmitZerosLeft(b, smeared, x);
  }

  predicate IsSmearStep(m: nat) {
    m == 1 || m == 2 || m == 4 || m == 8 || m == 16 || m == 32 || m == 64
  }

  /** The zeros left when every bit below the highest set one is set. */
  method EmitZerosLeft(b: Block, smeared: Value, ghost x: Value) returns (r: Value)
    requires smeared.ty == x.ty == U64 && AllSmeared(x, smeared)
    modifies b
    ensures b.Extended() && r.ty == U64 && ZerosOf(x, r)
  {
    var inverted := EmitInverted(b, smeared);
    r := EmitPopCount64(b, inverted);
    ZerosLeft(x, smeared, inverted, r);
  }

  ghost predicate AllSmeared(x: Value, smeared: Value) {
    forall at: Words | Executes(at) :: Smeared(at(smeared), at(x), x.ty.width)
  }

  ghost predicate Inverted(v: Value, r: Value) {
    forall at: Words | Executes(at) :: at(r) == Xor(at(v), Pow2(v.ty.width) - 1)
  }

  ghost predicate ZerosOf(x: Value, r: Value) {
    forall at: Words | Executes(at) :: at(r) == Ctlz(at(x), x.ty.width)
  }

  lemma ZerosLeft(x: Value, smeared: Value, inverted: Value, r: Value)
    requires smeared.ty == x.ty && AllSmeared(x, smeared) && Inverted(smeared, inverted)
    requires forall at: Words | Executes(at) :: at(r) == PopCount(at(inverted))
    ensures ZerosOf(x, r)
  {
    forall at: Words | Executes(at)
      ensures at(r) == Ctlz(at(x), x.ty.width)
    {
      InRange(at, x);
      InRange(at, smeared);
      LeadingStage(at(x), at(smeared), x.ty.width);
    }
  }

  method EmitInverted(b: Block, v: Value) returns (r: Value)
    modifies b
    ensures b.Extended() && r.ty == v.ty && Inverted(v, r)
  {
    var ones := EmitOnes(b, v.ty);
    r := b.EmitOp(BitXor, v, ones);
  }

  method EmitSmearStep(b: Block, r: Value, ghost x: Value, m: nat) returns (next: Value)
    requires r.ty == U64 && m < 64 && forall at: Words | Executes(at) :: Smeared(at(r), at(x), m)
    modifies b
    ensures b.Extended() && next.ty == U64
    ensures forall at: Words | Executes(at) :: Smeared(at(next), at(x), m + m)
  {
    var shifted := EmitShiftRight(b, r, m);
    next := b.EmitOp(BitOr, r, shifted);
    forall at: Words | Executes(at)
      ensures Smeared(at(next), at(x), m + m)
    {
      QuotientIsDivision(at(r), Pow2(m));
      SmearStep(at(r), at(x), m, at(next));
    }
  }

  /** What is emitted meets the intrinsic's own count exactly when a bit of the operand is set or
      the operand fills the word. */
  lemma CtlzMeetsIntrinsic(x: nat, width: nat)
    requires 0 < width <= 64
    ensures (if Wrap(x, width) == 0 then 64 else Ctlz(x, width)) == Ctlz(x, width) <==> width == 64 || Wrap(x, width) != 0
  {
    NoSetBits(x, width);
  }

  // ---- 128 bits, by halves ----

  lemma {:induction false} CttzOfHalves(x: nat, hi: nat, lo: nat, n: nat)
    requires lo < Pow2(n) && x == hi * Pow2(n) + lo
    ensures Cttz(x, n + n) == if lo == 0 then n + Cttz(hi, n) else Cttz(lo, n)
  {
    forall i: nat
      ensures Bit(x, i) == if i < n then Bit(lo, i) else Bit(hi, i - n)
    {
      BitOfSum(hi, lo, n, i);
    }
    CttzCounts(lo, n);
    CttzCounts(hi, n);
    CttzOfZero(n);
    if lo == 0 {
      CttzIs(x, n + n, n + Cttz(hi, n));
    } else {
      LowestBit(lo, n);
      CttzIs(x, n + n, Cttz(lo, n));
    }
  }

  lemma CtlzOfHalves(x: nat, hi: nat, lo: nat, n: nat)
    requires lo < Pow2(n) && x == hi * Pow2(n) + lo && hi < Pow2(n)
    ensures Ctlz(x, n + n) == if hi == 0 then n + Ctlz(lo, n) else Ctlz(hi, n)
  {
    forall i: nat
      ensures Bit(x, i) == if i < n then Bit(lo, i) else Bit(hi, i - n)
    {
      BitOfSum(hi, lo, n, i);
    }
    CtlzCounts(lo, n);
    CtlzCounts(hi, n);
    NoSetBits(hi, n);
    assert Wrap(hi, n) == hi;
    var z := if hi == 0 then n + Ctlz(lo, n) else Ctlz(hi, n);
    if hi == 0 {
      forall i: nat | n + n - z <= i < n + n
        ensures !Bit(x, i)
      {
        if i >= n {
          ZeroHasNoBits(i - n);
        }
      }
      assert z < n + n ==> n + n - z - 1 == n - Ctlz(lo, n) - 1;
    } else {
      assert n + n - z - 1 - n == n - z - 1;
    }
    CtlzIs(x, n + n, z);
  }

  lemma HalvesOf(x: nat, h: nat)
    requires x < Pow2(h + h)
    ensures var hi, lo := Quotient(x, Pow2(h)), Wrap(x, h);
      x == hi * Pow2(h) + lo && hi < Pow2(h) && Wrap(hi, h) == hi && Wrap(hi, h + h) == hi && Wrap(h, h + h) == h
  {
    Pow2Add(h, h);
    HalvesBelow(x, Pow2(h));
    BelowOwnPower(h);
    Pow2Monotone(h, h + h);
  }

  method EmitHighHalf(b: Block, bits: Value, h: nat) returns (hi: Value)
    requires bits.ty == Double(h) && forall at: Words | Executes(at) :: at(bits) < Pow2(h + h)
    modifies b
    ensures b.Extended() && hi.ty == Int(h, false)
    ensures forall at: Words | Executes(at) :: at(hi) == Quotient(at(bits), Pow2(h))
  {
    var amount := b.EmitConstant(Double(h), h);
    var hiWide := b.EmitOp(Shr, bits, amount);
    hi := b.EmitCast(Int(h, false), hiWide);
    forall at: Words | Executes(at)
      ensures at(hi) == Quotient(at(bits), Pow2(h))
    {
      HalvesOf(at(bits), h);
    }
  }

  /** The low and high h bits of a value of 2h bits. */
  method SplitHalves(b: Block, input: Value, h: nat) returns (lo: Value, hi: Value)
    requires input.ty.width == h + h
    modifies b
    ensures b.Extended() && lo.ty == hi.ty == Int(h, false)
    ensures forall at: Words | Executes(at) ::
              at(input) == at(hi) * Pow2(h) + at(lo) && at(hi) < Pow2(h) && at(lo) < Pow2(h)
  {
    var bits := b.EmitCast(Double(h), input);
    forall at: Words | Executes(at)
      ensures at(bits) == at(input) && at(bits) < Pow2(h + h)
    {
      InRange(at, input);
      SignedRange(at(input), h + h);
    }
    lo := b.EmitCast(Int(h, false), bits);
    hi := EmitHighHalf(b, bits, h);
    forall at: Words | Executes(at)
      ensures at(input) == at(hi) * Pow2(h) + at(lo) && at(hi) < Pow2(h) && at(lo) < Pow2(h)
    {
      HalvesOf(at(bits), h);
    }
  }

  /** `first == 0 ? 64 + second : first's count`, where the first's count of zero is 64. */
  method EmitCombined(b: Block, half: Value, count: Value, otherCount: Value) returns (r: Value)
    requires half.ty == count.ty == otherCount.ty == U64
    requires forall at: Words | Executes(at) :: at(count) <= 64 && at(otherCount) <= 64
    modifies b
    ensures b.Extended() && r.ty == U64
    ensures forall at: Words | Executes(at) :: at(r) == at(count) + if at(half) == 0 then at(otherCount) else 0
  {
    var zero := b.EmitConstant(U64, 0);
    var isZero := b.EmitOp(Eq, half, zero);
    var mask := EmitMaskOf(b, isZero, U64);
    var extra := b.EmitOp(BitAnd, mask, otherCount);
    r := b.EmitOp(Add, count, extra);
    forall at: Words | Executes(at)
      ensures at(r) == at(count) + if at(half) == 0 then at(otherCount) else 0
    {
      InRange(at, otherCount);
      MaskAnd(at(mask), at(otherCount), 64);
      Word64();
    }
  }

  method EmitCttz128(b: Block, input: Value) returns (r: Value)
    requires input.ty.width == 128
    modifies b
    ensures b.Extended() && r.ty == U64
    ensures forall at: Words | Executes(at) :: at(r) == Cttz(at(input), 128)
  {
    var lo, hi := SplitHalves(b, input, 64);
    var loCount := EmitCttz64(b, lo, 64);
    var hiCount := EmitCttz64(b, hi, 64);
    r := EmitCombined(b, lo, loCount, hiCount);
    forall at: Words | Executes(at)
      ensures at(r) == Cttz(at(input), 128)
    {
      CttzOfHalves(at(input), at(hi), at(lo), 64);
      CttzOfZero(64);
    }
  }

  method EmitCtlz128(b: Block, input: Value) returns (r: Value)
    requires input.ty.width == 128
    modifies b
    ensures b.Extended() && r.ty == U64
    ensures forall at: Words | Executes(at) :: at(r) == Ctlz(at(input), 128)
  {
    var lo, hi := SplitHalves(b, input, 64);
    var hiCount := EmitCtlz64(b, hi, 64);
    var loCount := EmitCtlz64(b, lo, 64);
    r := EmitCombined(b, hi, hiCount, loCount);
    forall at: Words | Executes(at)
      ensures at(r) == Ctlz(at(input), 128)
    {
      CtlzOfHalves(at(input), at(hi), at(lo), 64);
      NoSetBits(at(hi), 64);
      NoSetBits(at(lo), 64);
    }
  }
}
