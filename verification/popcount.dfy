/** The number of set bits: counts of two, four and eight bits side by side in one word, and the
    multiplication that adds the eight byte counts up. */
module PopCounts {
  import opened Bits
  import opened Ir

  // ---- masks, field by field ----

  lemma AndDigitBits(x: nat, y: nat, r: nat, xh: nat, xl: nat, yh: nat, yl: nat, h: nat, l: nat, k: nat, i: nat)
    requires xl < Pow2(k) && yl < Pow2(k) && l < Pow2(k)
    requires x == xh * Pow2(k) + xl && y == yh * Pow2(k) + yl && r == h * Pow2(k) + l
    requires forall j: nat :: Bit(h, j) <==> Bit(xh, j) && Bit(yh, j)
    requires forall j: nat :: Bit(l, j) <==> Bit(xl, j) && Bit(yl, j)
    ensures Bit(r, i) <==> Bit(x, i) && Bit(y, i)
  {
    BitOfSum(xh, xl, k, i);
    BitOfSum(yh, yl, k, i);
    BitOfSum(h, l, k, i);
  }

  lemma BitsByDigit(x: nat, y: nat, a: nat, r: nat, xh: nat, xl: nat, yh: nat, yl: nat, h: nat, l: nat, k: nat)
    requires xl < Pow2(k) && yl < Pow2(k) && l < Pow2(k)
    requires x == xh * Pow2(k) + xl && y == yh * Pow2(k) + yl && r == h * Pow2(k) + l
    requires forall j: nat :: Bit(h, j) <==> Bit(xh, j) && Bit(yh, j)
    requires forall j: nat :: Bit(l, j) <==> Bit(xl, j) && Bit(yl, j)
    requires forall j: nat :: Bit(a, j) <==> Bit(x, j) && Bit(y, j)
    ensures a == r
  {
    forall i: nat
      ensures Bit(a, i) == Bit(r, i)
    {
      AndDigitBits(x, y, r, xh, xl, yh, yl, h, l, k, i);
    }
    BitsExtensional(a, r);
  }

  /** The and of two numbers, digit by digit. */
  lemma AndDigits(x: nat, y: nat, xh: nat, xl: nat, yh: nat, yl: nat, k: nat, r: nat)
    requires xl < Pow2(k) && yl < Pow2(k)
    requires x == xh * Pow2(k) + xl && y == yh * Pow2(k) + yl && r == And(xh, yh) * Pow2(k) + And(xl, yl)
    ensures And(x, y) == r
  {
    AndBound(xl, yl, k);
    AndBits(xh, yh);
    AndBits(xl, yl);
    AndBits(x, y);
    BitsByDigit(x, y, And(x, y), r, xh, xl, yh, yl, And(xh, yh), And(xl, yl), k);
  }

  lemma And4(xh: nat, xl: nat, yh: nat)
    requires xl < 4
    ensures And(xh * 4 + xl, yh * 4 + 1) == And(xh, yh) * 4 + xl % 2
  {
    assert Pow2(2) == 4 && Pow2(1) == 2;
    AndMask(xl, 1);
    AndDigits(xh * 4 + xl, yh * 4 + 1, xh, xl, yh, 1, 2, And(xh, yh) * 4 + And(xl, 1));
  }

  lemma And16(xh: nat, xl: nat, yh: nat)
    requires xl < 16
    ensures And(xh * 16 + xl, yh * 16 + 3) == And(xh, yh) * 16 + xl % 4
  {
    assert Pow2(4) == 16 && Pow2(2) == 4;
    AndMask(xl, 2);
    AndDigits(xh * 16 + xl, yh * 16 + 3, xh, xl, yh, 3, 4, And(xh, yh) * 16 + And(xl, 3));
  }

  lemma And256(xh: nat, xl: nat, yh: nat)
    requires xl < 256
    ensures And(xh * 256 + xl, yh * 256 + 15) == And(xh, yh) * 256 + xl % 16
  {
    assert Pow2(8) == 256 && Pow2(4) == 16;
    AndMask(xl, 4);
    AndDigits(xh * 256 + xl, yh * 256 + 15, xh, xl, yh, 15, 8, And(xh, yh) * 256 + And(xl, 15));
  }

  /** `n` fields of two bits, each 1; of four bits, each 3; of eight bits, each 15. */
  function Mask5(n: nat): nat { if n == 0 then 0 else Mask5(n - 1) * 4 + 1 }

  function Mask3(n: nat): nat { if n == 0 then 0 else Mask3(n - 1) * 16 + 3 }

  function Mask0F(n: nat): nat { if n == 0 then 0 else Mask0F(n - 1) * 256 + 15 }

  // ---- the field sums, each as a function of the number counted ----

  function Pop2(x: nat): nat { PopCount(x % 4) }

  function Pop4(x: nat): nat { PopCount(x % 16) }

  function Pop8(x: nat): nat { PopCount(x % 256) }

  lemma Pop2Is(x: nat)
    ensures Pop2(x) == x % 2 + x / 2 % 2
  {
    var y := x % 4;
    assert PopCount(y / 2) == y / 2 % 2 + PopCount(y / 2 / 2);
    assert y / 2 / 2 == 0;
  }

  /** A number's count is that of its last two bits and the rest. */
  lemma PopCountShift(x: nat)
    ensures PopCount(x) == PopCount(x / 4) + Pop2(x)
  {
    Pop2Is(x);
    assert PopCount(x / 2) == x / 2 % 2 + PopCount(x / 2 / 2);
    assert x / 2 / 2 == x / 4;
  }

  lemma Pop2Small(x: nat)
    ensures Pop2(x) <= 2
  {
    Pop2Is(x);
  }

  lemma LowPairs(x: nat, y: nat)
    requires y == x % 16
    ensures y % 4 == x % 4 && y / 4 == x / 4 % 4
  {
    var q := x / 16;
    DivUnique(x, 4, 4 * q + y / 4, y % 4);
    DivUnique(x / 4, 4, q, y / 4);
  }

  lemma Pop4Is(x: nat)
    ensures Pop4(x) == Pop2(x) + Pop2(x / 4) && Pop2(x) <= 2 && Pop2(x / 4) <= 2
  {
    PopCountShift(x % 16);
    LowPairs(x, x % 16);
    Pop2Small(x);
    Pop2Small(x / 4);
  }

  lemma Pop8Is(x: nat)
    ensures Pop8(x) == Pop4(x) + Pop4(x / 16) && Pop4(x) <= 4 && Pop4(x / 16) <= 4
  {
    var y := x % 256;
    PopCountNibble(y);
    LowNibbles(x, y);
    Pop4Is(x);
    Pop4Is(x / 16);
  }

  lemma LowNibbles(x: nat, y: nat)
    requires y == x % 256
    ensures y % 16 == x % 16 && y / 16 == x / 16 % 16
  {
    var q := x / 256;
    DivUnique(x, 16, 16 * q + y / 16, y % 16);
    DivUnique(x / 16, 16, q, y / 16);
  }

  lemma PopCountNibble(x: nat)
    ensures PopCount(x) == PopCount(x / 16) + Pop4(x)
  {
    PopCountShift(x);
    PopCountShift(x / 4);
    Pop4Is(x);
    assert x / 4 / 4 == x / 16;
  }

  lemma PopCountByte(x: nat)
    ensures PopCount(x) == PopCount(x / 256) + Pop8(x)
  {
    PopCountNibble(x);
    PopCountNibble(x / 16);
    Pop8Is(x);
    assert x / 16 / 16 == x / 256;
  }

  /** Every two bits of `x` replaced by their count; every four; every eight. */
  function Pairs(x: nat, n: nat): nat
    decreases n, x
  {
    if n == 0 then 0 else Pairs(x / 4, n - 1) * 4 + Pop2(x)
  }

  function Nibbles(x: nat, n: nat): nat
    decreases n, x
  {
    if n == 0 then 0 else Nibbles(x / 16, n - 1) * 16 + Pop4(x)
  }

  function Bytes(x: nat, n: nat): nat
    decreases n, x
  {
    if n == 0 then 0 else Bytes(x / 256, n - 1) * 256 + Pop8(x)
  }

  lemma QuarterBelow(x: nat, n: nat)
    requires n > 0 && x < Pow2(2 * n)
    ensures x / 4 < Pow2(2 * (n - 1))
  {
    assert Pow2(2 * n) == 2 * Pow2(2 * n - 1) && Pow2(2 * n - 1) == 2 * Pow2(2 * (n - 1));
  }

  lemma {:induction false} PairsBySubtraction(x: nat, n: nat)
    requires x < Pow2(2 * n)
    ensures x - And(x / 2, Mask5(n)) == Pairs(x, n)
  {
    if n == 0 {
      AndZero(0);
    } else {
      QuarterBelow(x, n);
      PairsBySubtraction(x / 4, n - 1);
      PairsFrom(x, x / 2, x / 4, n);
    }
  }

  lemma PairsFrom(x: nat, h: nat, y: nat, n: nat)
    requires n > 0 && h == x / 2 && y == x / 4 && y - And(y / 2, Mask5(n - 1)) == Pairs(y, n - 1)
    ensures x - And(h, Mask5(n)) == Pairs(x, n)
  {
    Eighths(x);
    And4(y / 2, h % 4, Mask5(n - 1));
    PairsStep(x, And(h, Mask5(n)), And(y / 2, Mask5(n - 1)), Pairs(y, n - 1));
  }

  lemma Eighths(x: nat)
    ensures x / 4 / 2 == x / 8 && x / 2 == x / 8 * 4 + x / 2 % 4
  {
    var q, r := x / 8, x % 8;
    DivUnique(x, 4, 2 * q + r / 4, r % 4);
    DivUnique(2 * q + r / 4, 2, q, r / 4);
    DivUnique(x, 2, 4 * q + r / 2, r % 2);
    DivUnique(4 * q + r / 2, 4, q, r / 2);
  }

  lemma TwoBits(x: nat)
    ensures x == 4 * (x / 4) + 2 * (x / 2 % 2) + x % 2 && x / 2 % 4 % 2 == x / 2 % 2
  {
    var half := x / 2;
    DivUnique(x, 4, half / 2, 2 * (half % 2) + x % 2);
    DivUnique(half, 2, 2 * (half / 4) + half % 4 / 2, half % 4 % 2);
  }

  lemma PairsStep(x: nat, a: nat, rest: nat, pairs: nat)
    requires a == rest * 4 + x / 2 % 4 % 2 && x / 4 - rest == pairs
    ensures x - a == pairs * 4 + Pop2(x)
  {
    Pop2Is(x);
    TwoBits(x);
  }

  lemma PairsTwice(x: nat, y: nat, z: nat, n: nat)
    requires n >= 2 && y == x / 4 && z == y / 4
    ensures z == x / 16 && Pairs(x, n) == Pairs(z, n - 2) * 16 + (Pop2(y) * 4 + Pop2(x))
  {
    assert Pairs(x, n) == Pairs(y, n - 1) * 4 + Pop2(x);
    assert Pairs(y, n - 1) == Pairs(z, n - 2) * 4 + Pop2(y);
  }

  lemma {:induction false} NibblesByAddition(x: nat, n: nat)
    ensures And(Pairs(x, 2 * n), Mask3(n)) + And(Pairs(x, 2 * n) / 4, Mask3(n)) == Nibbles(x, n)
  {
    if n == 0 {
      AndZero(0);
    } else {
      NibblesByAddition(x / 16, n - 1);
      PairsTwice(x, x / 4, x / 4 / 4, 2 * n);
      Pop4Is(x);
      NibblesStep(Pairs(x, 2 * n), Pairs(x / 16, 2 * n - 2), Pop2(x / 4), Pop2(x), Mask3(n - 1), Nibbles(x / 16, n - 1));
    }
  }

  lemma NibblesStep(pairs: nat, rest: nat, hi: nat, lo: nat, mask: nat, nibbles: nat)
    requires pairs == rest * 16 + (hi * 4 + lo) && hi <= 2 && lo <= 2
    requires And(rest, mask) + And(rest / 4, mask) == nibbles
    ensures And(pairs, mask * 16 + 3) + And(pairs / 4, mask * 16 + 3) == nibbles * 16 + (lo + hi)
  {
    NibbleShift(rest, hi, lo);
    AndLow(pairs, rest, hi * 4 + lo, lo, mask);
    AndLow(pairs / 4, rest / 4, rest % 4 * 4 + hi, hi, mask);
  }

  lemma AndLow(x: nat, xh: nat, xl: nat, field: nat, mask: nat)
    requires x == xh * 16 + xl && xl < 16 && xl % 4 == field
    ensures And(x, mask * 16 + 3) == And(xh, mask) * 16 + field
  {
    And16(xh, xl, mask);
  }

  lemma NibbleShift(rest: nat, hi: nat, lo: nat)
    requires lo < 4 && hi < 4
    ensures (rest * 16 + (hi * 4 + lo)) / 4 == rest / 4 * 16 + (rest % 4 * 4 + hi)
    ensures (hi * 4 + lo) % 4 == lo && (rest % 4 * 4 + hi) % 4 == hi
  {
  }

  lemma NibblesSmall(x: nat, n: nat)
    ensures Nibbles(x, n) % 16 <= 4
  {
    if n > 0 {
      Pop4Small(x);
      DivUnique(Nibbles(x, n), 16, Nibbles(x / 16, n - 1), Pop4(x));
    }
  }

  lemma Pop4Small(x: nat)
    ensures Pop4(x) <= 4
  {
    Pop4Is(x);
  }

  lemma NibblesTwice(x: nat, y: nat, z: nat, n: nat)
    requires n >= 2 && y == x / 16 && z == y / 16
    ensures z == x / 256 && Nibbles(x, n) == Nibbles(z, n - 2) * 256 + (Pop4(y) * 16 + Pop4(x))
  {
    assert Nibbles(x, n) == Nibbles(y, n - 1) * 16 + Pop4(x);
    assert Nibbles(y, n - 1) == Nibbles(z, n - 2) * 16 + Pop4(y);
  }

  lemma {:induction false} BytesByAddition(x: nat, n: nat)
    ensures And(Nibbles(x, 2 * n) + Nibbles(x, 2 * n) / 16, Mask0F(n)) == Bytes(x, n)
  {
    if n == 0 {
      AndZero(0);
    } else {
      BytesByAddition(x / 256, n - 1);
      BytesFrom(x, x / 16, x / 256, n);
    }
  }

  lemma BytesFrom(x: nat, y: nat, z: nat, n: nat)
    requires n > 0 && y == x / 16 && z == x / 256
    requires And(Nibbles(z, 2 * n - 2) + Nibbles(z, 2 * n - 2) / 16, Mask0F(n - 1)) == Bytes(z, n - 1)
    ensures And(Nibbles(x, 2 * n) + Nibbles(x, 2 * n) / 16, Mask0F(n)) == Bytes(x, n)
  {
    assert z == y / 16;
    NibblesTwice(x, y, z, 2 * n);
    NibblesSmall(z, 2 * n - 2);
    Pop8Is(x);
    BytesStep(Nibbles(x, 2 * n), Nibbles(z, 2 * n - 2), Pop4(y), Pop4(x), Mask0F(n - 1), Bytes(z, n - 1));
  }

  lemma BytesStep(nibbles: nat, rest: nat, hi: nat, lo: nat, mask: nat, bytes: nat)
    requires nibbles == rest * 256 + (hi * 16 + lo) && rest % 16 <= 4 && hi <= 4 && lo <= 4
    requires And(rest + rest / 16, mask) == bytes
    ensures And(nibbles + nibbles / 16, mask * 256 + 15) == bytes * 256 + (lo + hi)
  {
    ByteShift(nibbles, rest, hi, lo);
    And256(rest + rest / 16, (rest % 16 + hi) * 16 + (lo + hi), mask);
  }

  lemma ByteShift(nibbles: nat, rest: nat, hi: nat, lo: nat)
    requires nibbles == rest * 256 + (hi * 16 + lo) && rest % 16 <= 4 && hi <= 4 && lo <= 4
    ensures var low := (rest % 16 + hi) * 16 + (lo + hi);
      nibbles + nibbles / 16 == (rest + rest / 16) * 256 + low && low < 256 && low % 16 == lo + hi
  {
    DivUnique(nibbles, 16, rest * 16 + hi, lo);
    DivUnique((rest % 16 + hi) * 16 + (lo + hi), 16, rest % 16 + hi, lo + hi);
  }

  // ---- adding the bytes up ----

  function ByteSum(x: nat, n: nat): nat
    decreases n, x
  {
    if n == 0 then 0 else ByteSum(x / 256, n - 1) + Pop8(x)
  }

  lemma {:induction false} PopCountIsByteSum(x: nat, n: nat)
    requires x < Pow2(8 * n)
    ensures PopCount(x) == ByteSum(x, n)
  {
    if n > 0 {
      PopCountByte(x);
      ByteBelow(x, n);
      PopCountIsByteSum(x / 256, n - 1);
    }
  }

  lemma ByteBelow(x: nat, n: nat)
    requires n > 0 && x < Pow2(8 * n)
    ensures x / 256 < Pow2(8 * (n - 1))
  {
    Pow2Add(8, 8 * (n - 1));
    Pow2Constants();
    assert Pow2(8 * n) == 256 * Pow2(8 * (n - 1));
  }

  /** Multiplying eight byte counts by 0x0101...01 adds them all up in the top byte. */
  lemma TopByte(c0: nat, c1: nat, c2: nat, c3: nat, c4: nat, c5: nat, c6: nat, c7: nat, bytes: nat)
    returns (q: nat, low: nat)
    requires c0 <= 8 && c1 <= 8 && c2 <= 8 && c3 <= 8 && c4 <= 8 && c5 <= 8 && c6 <= 8 && c7 <= 8
    requires bytes == (((((((c7 * 256 + c6) * 256 + c5) * 256 + c4) * 256 + c3) * 256 + c2) * 256 + c1) * 256 + c0)
    ensures low < 0x100_0000_0000_0000
    ensures bytes * 0x0101_0101_0101_0101
         == 0x1_0000_0000_0000_0000 * q + (0x100_0000_0000_0000 * (c0 + c1 + c2 + c3 + c4 + c5 + c6 + c7) + low)
  {
    var s0, s1, s2, s3 := c0, c0 + c1, c0 + c1 + c2, c0 + c1 + c2 + c3;
    var s4, s5, s6 := s3 + c4, s3 + c4 + c5, s3 + c4 + c5 + c6;
    var t7, t6, t5, t4 := c7, c7 + c6, c7 + c6 + c5, c7 + c6 + c5 + c4;
    var t3, t2, t1 := t4 + c3, t4 + c3 + c2, t4 + c3 + c2 + c1;
    low := (((((s6 * 256 + s5) * 256 + s4) * 256 + s3) * 256 + s2) * 256 + s1) * 256 + s0;
    q := (((((t7 * 256 + t6) * 256 + t5) * 256 + t4) * 256 + t3) * 256 + t2) * 256 + t1;
    assert bytes * 0x0101_0101_0101_0101
           == 0x1_0000_0000_0000_0000 * q + (0x100_0000_0000_0000 * (c0 + c1 + c2 + c3 + c4 + c5 + c6 + c7) + low);
  }

  lemma Unroll(x: nat, y: nat, n: nat)
    requires n > 0 && y == x / 256
    ensures Bytes(x, n) == Bytes(y, n - 1) * 256 + Pop8(x) && ByteSum(x, n) == ByteSum(y, n - 1) + Pop8(x)
    ensures Pop8(x) <= 8
  {
    Pop8Is(x);
  }

  lemma FourBytes(x: nat, n: nat) returns (c0: nat, c1: nat, c2: nat, c3: nat, rest: nat)
    requires n >= 4
    ensures c0 <= 8 && c1 <= 8 && c2 <= 8 && c3 <= 8
    ensures Bytes(x, n) == (((Bytes(rest, n - 4) * 256 + c3) * 256 + c2) * 256 + c1) * 256 + c0
    ensures ByteSum(x, n) == ByteSum(rest, n - 4) + c3 + c2 + c1 + c0
  {
    var x1 := x / 256;
    var x2 := x1 / 256;
    var x3 := x2 / 256;
    Unroll(x, x1, n);
    Unroll(x1, x2, n - 1);
    Unroll(x2, x3, n - 2);
    Unroll(x3, x3 / 256, n - 3);
    c0, c1, c2, c3, rest := Pop8(x), Pop8(x1), Pop8(x2), Pop8(x3), x3 / 256;
  }

  lemma ByteTotal(x: nat, product: nat)
    requires product == Bytes(x, 8) * 0x0101_0101_0101_0101
    ensures Quotient(Remainder(product, 0x1_0000_0000_0000_0000), 0x100_0000_0000_0000) == ByteSum(x, 8) && ByteSum(x, 8) <= 64
  {
    var c0, c1, c2, c3, high := FourBytes(x, 8);
    var c4, c5, c6, c7, none := FourBytes(high, 4);
    var q, low := TopByte(c0, c1, c2, c3, c4, c5, c6, c7, Bytes(x, 8));
    var top := 0x100_0000_0000_0000 * ByteSum(x, 8) + low;
    DivideUniquely(product, 0x1_0000_0000_0000_0000, q, top);
    DivideUniquely(top, 0x100_0000_0000_0000, ByteSum(x, 8), low);
  }

  // ---- the emitted ops ----

  const MASK55 := 0x5555_5555_5555_5555
  const MASK33 := 0x3333_3333_3333_3333
  const MASK0F := 0x0F0F_0F0F_0F0F_0F0F
  const ONES01 := 0x0101_0101_0101_0101

  lemma Widened(k: nat, p: nat, m: nat, n: nat)
    requires p == Pow2(k) && n == k + m
    ensures Pow2(n) == p * Pow2(m)
  {
    Pow2Add(k, m);
  }

  lemma {:induction false} MasksAreFractions(n: nat)
    ensures 3 * Mask5(n) + 1 == Pow2(2 * n) && 5 * Mask3(n) + 1 == Pow2(4 * n) && 17 * Mask0F(n) + 1 == Pow2(8 * n)
  {
    if n > 0 {
      MasksAreFractions(n - 1);
      assert Pow2(2) == 4 && Pow2(4) == 16 && Pow2(8) == 256;
      Widened(2, 4, 2 * (n - 1), 2 * n);
      Widened(4, 16, 4 * (n - 1), 4 * n);
      Widened(8, 256, 8 * (n - 1), 8 * n);
    }
  }

  lemma Masks()
    ensures Mask5(32) == MASK55 && Mask3(16) == MASK33 && Mask0F(8) == MASK0F
  {
    MasksAreFractions(32);
    MasksAreFractions(16);
    MasksAreFractions(8);
    Pow2Constants();
  }

  lemma {:induction false} NibblesBound(x: nat, n: nat)
    ensures 15 * Nibbles(x, n) + 4 <= 4 * Pow2(4 * n)
  {
    if n > 0 {
      NibblesBound(x / 16, n - 1);
      Pop4Small(x);
      Pow2Add(4, 4 * (n - 1));
      assert Pow2(4) == 16;
    }
  }

  const W64 := 0x1_0000_0000_0000_0000

  lemma Word64()
    ensures Pow2(64) == W64
  {
    Pow2Constants();
  }

  lemma Halved(x: nat)
    ensures Quotient(x, 2) == x / 2 && Quotient(x, 4) == x / 4 && Quotient(x, 16) == x / 16
  {
    QuotientIsDivision(x, 2);
    QuotientIsDivision(x, 4);
    QuotientIsDivision(x, 16);
  }

  lemma PairsOf64(x: nat, n: nat)
    requires x < Pow2(2 * n) && Mask5(n) == MASK55
    ensures x - And(x / 2, MASK55) == Pairs(x, n)
  {
    PairsBySubtraction(x, n);
  }

  lemma PairsStage(x: nat, pairs: nat)
    requires x < W64 && pairs == Remainder(x - And(Quotient(x, 2), MASK55), W64)
    ensures pairs == Pairs(x, 32)
  {
    assert Quotient(x, 2) == x / 2 by { Halved(x); }
    assert x - And(x / 2, MASK55) == Pairs(x, 32) by {
      Masks();
      Word64();
      PairsOf64(x, 32);
    }
  }

  lemma PairsWord(x: nat, shifted: nat, odd: nat, pairs: nat, w: nat, k: nat)
    requires w == 64 && k == 1 && x < Pow2(w) && shifted == Quotient(x, Pow2(k))
    requires odd == And(shifted, MASK55) && pairs == Wrap(x - odd, w)
    ensures pairs == Pairs(x, 32)
  {
    assert Pow2(1) == 2;
    Word64();
    PairsStage(x, pairs);
  }

  lemma NibblesOf64(x: nat, pairs: nat, n: nat)
    requires Mask3(n) == MASK33 && pairs == Pairs(x, 2 * n)
    ensures And(pairs, MASK33) + And(pairs / 4, MASK33) == Nibbles(x, n)
    ensures 15 * Nibbles(x, n) + 4 <= 4 * Pow2(4 * n)
  {
    NibblesByAddition(x, n);
    NibblesBound(x, n);
  }

  lemma SumFits(sum: nat)
    requires 15 * sum + 4 <= 4 * W64
    ensures Remainder(sum, W64) == sum
  {
  }

  lemma NibblesStage(x: nat, pairs: nat, nibbles: nat)
    requires pairs == Pairs(x, 32) && nibbles == Remainder(And(pairs, MASK33) + And(Quotient(pairs, 4), MASK33), W64)
    ensures nibbles == Nibbles(x, 16) && 15 * nibbles <= 4 * W64
  {
    assert Quotient(pairs, 4) == pairs / 4 by { Halved(pairs); }
    assert Mask3(16) == MASK33 by { Masks(); }
    assert Pow2(4 * 16) == W64 by { Word64(); }
    NibblesOf64(x, pairs, 16);
    SumFits(Nibbles(x, 16));
  }

  lemma BytesOf64(x: nat, nibbles: nat, n: nat)
    requires Mask0F(n) == MASK0F && nibbles == Nibbles(x, 2 * n)
    ensures And(nibbles + nibbles / 16, MASK0F) == Bytes(x, n)
  {
    BytesByAddition(x, n);
  }

  lemma BytesFit(nibbles: nat)
    requires 15 * nibbles <= 4 * W64
    ensures Remainder(nibbles + nibbles / 16, W64) == nibbles + nibbles / 16
  {
  }

  lemma BytesStage(x: nat, nibbles: nat, bytes: nat)
    requires nibbles == Nibbles(x, 16) && 15 * nibbles <= 4 * W64
    requires bytes == And(Remainder(nibbles + Quotient(nibbles, 16), W64), MASK0F)
    ensures bytes == Bytes(x, 8)
  {
    assert Mask0F(8) == MASK0F by { Masks(); }
    assert Quotient(nibbles, 16) == nibbles / 16 by { Halved(nibbles); }
    BytesFit(nibbles);
    BytesOf64(x, nibbles, 8);
  }

  lemma TotalStage(x: nat, bytes: nat, total: nat)
    requires x < W64 && bytes == Bytes(x, 8) && total == Quotient(Remainder(bytes * ONES01, W64), 0x100_0000_0000_0000)
    ensures total == PopCount(x) && total <= 64
  {
    Word64();
    ByteTotal(x, bytes * ONES01);
    PopCountIsByteSum(x, 8);
  }

  lemma Word(x: nat, k: nat)
    requires x < Pow2(64) && k < 64
    ensures Wrap(Quotient(x, Pow2(k)), 64) == Quotient(x, Pow2(k)) && Wrap(k, 64) == k
  {
    Word64();
  }

  method EmitShiftRight(b: Block, x: Value, k: nat) returns (r: Value)
    requires x.ty == U64 && k < 64
    modifies b
    ensures b.Extended() && r.ty == U64
    ensures forall at: Words | Executes(at) :: at(r) == Quotient(at(x), Pow2(k))
  {
    var amount := b.EmitConstant(U64, k);
    r := b.EmitOp(Shr, x, amount);
    forall at: Words | Executes(at)
      ensures at(r) == Quotient(at(x), Pow2(k))
    {
      InRange(at, x);
      Word(at(x), k);
    }
  }

  method EmitAnd(b: Block, x: Value, mask: nat) returns (r: Value)
    requires x.ty == U64 && mask < Pow2(64)
    modifies b
    ensures b.Extended() && r.ty == U64
    ensures forall at: Words | Executes(at) :: at(r) == And(at(x), mask)
  {
    var constant := b.EmitConstant(U64, mask);
    r := b.EmitOp(BitAnd, x, constant);
  }

  /** The number of set bits of a 64-bit value. */
  method EmitPopCount64(b: Block, x: Value) returns (r: Value)
    requires x.ty == U64
    modifies b
    ensures b.Extended() && r.ty == U64
    ensures forall at: Words | Executes(at) :: at(r) == PopCount(at(x)) && at(r) <= 64
  {
    var pairs := EmitPairs(b, x);
    var nibbles := EmitNibbles(b, x, pairs);
    var bytes := EmitBytes(b, x, nibbles);
    r := EmitTotal(b, x, bytes);
  }

  method EmitPairs(b: Block, x: Value) returns (r: Value)
    requires x.ty == U64
    modifies b
    ensures b.Extended() && r.ty == U64
    ensures forall at: Words | Executes(at) :: at(r) == Pairs(at(x), 32)
  {
    assert MASK55 < Pow2(64) by { Word64(); }
    var shifted := EmitShiftRight(b, x, 1);
    var odd := EmitAnd(b, shifted, MASK55);
    r := b.EmitOp(Sub, x, odd);
    forall at: Words | Executes(at)
      ensures at(r) == Pairs(at(x), 32)
    {
      InRange(at, x);
      PairsWord(at(x), at(shifted), at(odd), at(r), 64, 1);
    }
  }

  method EmitNibbles(b: Block, ghost x: Value, pairs: Value) returns (r: Value)
    requires pairs.ty == U64 && forall at: Words | Executes(at) :: at(pairs) == Pairs(at(x), 32)
    modifies b
    ensures b.Extended() && r.ty == U64
    ensures forall at: Words | Executes(at) :: at(r) == Nibbles(at(x), 16) && 15 * at(r) <= 4 * W64
  {
    Word64();
    var low := EmitAnd(b, pairs, MASK33);
    var shifted := EmitShiftRight(b, pairs, 2);
    var high := EmitAnd(b, shifted, MASK33);
    r := b.EmitOp(Add, low, high);
    forall at: Words | Executes(at)
      ensures at(r) == Nibbles(at(x), 16) && 15 * at(r) <= 4 * W64
    {
      assert Pow2(2) == 4;
      NibblesStage(at(x), at(pairs), at(r));
    }
  }

  method EmitBytes(b: Block, ghost x: Value, nibbles: Value) returns (r: Value)
    requires nibbles.ty == U64 && forall at: Words | Executes(at) :: at(nibbles) == Nibbles(at(x), 16) && 15 * at(nibbles) <= 4 * W64
    modifies b
    ensures b.Extended() && r.ty == U64
    ensures forall at: Words | Executes(at) :: at(r) == Bytes(at(x), 8)
  {
    Word64();
    var shifted := EmitShiftRight(b, nibbles, 4);
    var sum := b.EmitOp(Add, nibbles, shifted);
    r := EmitAnd(b, sum, MASK0F);
    forall at: Words | Executes(at)
      ensures at(r) == Bytes(at(x), 8)
    {
      assert Pow2(4) == 16;
      BytesStage(at(x), at(nibbles), at(r));
    }
  }

  method EmitTotal(b: Block, ghost x: Value, bytes: Value) returns (r: Value)
    requires bytes.ty == x.ty == U64 && forall at: Words | Executes(at) :: at(bytes) == Bytes(at(x), 8)
    modifies b
    ensures b.Extended() && r.ty == U64
    ensures forall at: Words | Executes(at) :: at(r) == PopCount(at(x)) && at(r) <= 64
  {
    var ones := b.EmitConstant(U64, ONES01);
    var spread := b.EmitOp(Mul, bytes, ones);
    r := EmitShiftRight(b, spread, 56);
    forall at: Words | Executes(at)
      ensures at(r) == PopCount(at(x)) && at(r) <= 64
    {
      InRange(at, x);
      TopBitsOf56();
      TotalStage(at(x), at(bytes), at(r));
    }
  }

  lemma TopBitsOf56()
    ensures Pow2(64) == W64 && Pow2(56) == 0x100_0000_0000_0000
  {
    Word64();
    Pow2Add(56, 8);
    assert Pow2(8) == 0x100;
  }
}
