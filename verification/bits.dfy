/** Bitwise operations on unbounded naturals, and the bit-level facts the encoders and the
    synthesized arithmetic rest on. A w-bit machine word is a natural below `Pow2(w)`. */
module Bits {

  function Pow2(n: nat): (p: nat)
    ensures p >= 1
  {
    if n == 0 then 1 else 2 * Pow2(n - 1)
  }

  /** Bit `i` of `x`, bit 0 being the least significant. */
  predicate Bit(x: nat, i: nat) {
    if i == 0 then x % 2 == 1 else Bit(x / 2, i - 1)
  }

  /** The number whose bits below `n` are the ones `p` picks. */
  function FromBits(p: nat -> bool, n: nat): nat {
    if n == 0 then 0 else FromBits(p, n - 1) + if p(n - 1) then Pow2(n - 1) else 0
  }

  /** The number with the bits set in both. */
  function And(x: nat, y: nat): nat {
    FromBits((i: nat) => Bit(x, i) && Bit(y, i), x + y)
  }

  /** The number with the bits set in either. */
  function Or(x: nat, y: nat): nat {
    FromBits((i: nat) => Bit(x, i) || Bit(y, i), x + y)
  }

  /** The number with the bits set in exactly one. */
  function Xor(x: nat, y: nat): nat {
    FromBits((i: nat) => Bit(x, i) != Bit(y, i), x + y)
  }

  function Shr(x: nat, k: nat): nat {
    Div(x, Pow2(k))
  }

  function Div(x: nat, d: nat): nat
    requires d > 0
  {
    x / d
  }

  function Shl(x: nat, k: nat): nat {
    x * Pow2(k)
  }

  lemma {:induction false} BitOfFromBits(p: nat -> bool, n: nat)
    ensures FromBits(p, n) < Pow2(n)
    ensures forall i: nat :: Bit(FromBits(p, n), i) <==> i < n && p(i)
  {
    if n == 0 {
      forall i: nat
        ensures !Bit(0, i)
      {
        ZeroHasNoBits(i);
      }
    } else {
      BitOfFromBits(p, n - 1);
      var lo, hi := FromBits(p, n - 1), if p(n - 1) then 1 else 0;
      forall i: nat
        ensures Bit(FromBits(p, n), i) <==> i < n && p(i)
      {
        assert hi * Pow2(n - 1) + lo == FromBits(p, n);
        BitOfSum(hi, lo, n - 1, i);
        if i > n - 1 {
          NoHighBits(hi, 1, i - (n - 1));
        }
      }
    }
  }

  /** No bit at or above a number's own value. */
  lemma {:induction false} BelowOwnPower(x: nat)
    ensures x < Pow2(x)
  {
    if x > 0 {
      BelowOwnPower(x - 1);
    }
  }

  lemma NoBitsFrom(x: nat, n: nat)
    requires x <= n
    ensures forall i: nat | i >= n :: !Bit(x, i)
  {
    BelowOwnPower(x);
    forall i: nat | i >= n
      ensures !Bit(x, i)
    {
      NoHighBits(x, x, i);
    }
  }

  lemma AndBits(x: nat, y: nat)
    ensures forall i: nat :: Bit(And(x, y), i) <==> Bit(x, i) && Bit(y, i)
  {
    NoBitsFrom(x, x + y);
    NoBitsFrom(y, x + y);
    BitOfFromBits((i: nat) => Bit(x, i) && Bit(y, i), x + y);
  }

  lemma OrBits(x: nat, y: nat)
    ensures forall i: nat :: Bit(Or(x, y), i) <==> Bit(x, i) || Bit(y, i)
  {
    NoBitsFrom(x, x + y);
    NoBitsFrom(y, x + y);
    BitOfFromBits((i: nat) => Bit(x, i) || Bit(y, i), x + y);
  }

  lemma XorBits(x: nat, y: nat)
    ensures forall i: nat :: Bit(Xor(x, y), i) <==> Bit(x, i) != Bit(y, i)
  {
    NoBitsFrom(x, x + y);
    NoBitsFrom(y, x + y);
    BitOfFromBits((i: nat) => Bit(x, i) != Bit(y, i), x + y);
  }

  /** The number of set bits of `x`. */
  function PopCount(x: nat): nat {
    if x == 0 then 0 else x % 2 + PopCount(x / 2)
  }

  lemma ZeroHasNoBits(i: nat)
    ensures !Bit(0, i)
  {
  }

  lemma {:induction false} BitOfShr(x: nat, k: nat, i: nat)
    ensures Bit(Shr(x, k), i) == Bit(x, i + k)
    decreases k
  {
    if k > 0 {
      BitOfShr(x / 2, k - 1, i);
      DivDiv(x, 2, Pow2(k - 1));
    }
  }

  lemma {:induction false} BitOfShl(x: nat, k: nat, i: nat)
    ensures Bit(Shl(x, k), i) == (i >= k && Bit(x, i - k))
    decreases k
  {
    if k > 0 {
      var h := Shl(x, k - 1);
      assert Shl(x, k) == 2 * h by { assert x * (2 * Pow2(k - 1)) == 2 * (x * Pow2(k - 1)); }
      assert (2 * h) / 2 == h && (2 * h) % 2 == 0;
      if i > 0 {
        BitOfShl(x, k - 1, i - 1);
      }
    }
  }

  lemma DivUnique(x: int, d: int, q: int, r: int)
    requires d > 0 && x == d * q + r && 0 <= r < d
    ensures x / d == q && x % d == r
  {
    var q', r' := x / d, x % d;
    var e := q' - q;
    assert d * e == r - r' by {
      assert d * e == d * q' - d * q;
    }
    assert d * (-e) == -(d * e);
    if e >= 1 {
      MulAtLeast(d, e, 1);
    } else if e <= -1 {
      MulAtLeast(d, -e, 1);
    }
  }

  lemma MulAtLeast(d: int, e: int, k: int)
    requires d >= 0 && e >= k
    ensures d * e >= d * k
  {
    assert d * e - d * k == d * (e - k);
  }

  /** A remainder modulo a multiple of `p` has the same remainder modulo `p`. */
  lemma ModMod(x: int, p: nat, q: nat)
    requires p > 0 && q > 0
    ensures p * q > 0 && (x % (p * q)) % p == x % p
  {
    MulAtLeast(p, q, 1);
    var k, r := x / (p * q), x % (p * q);
    var j, s := r / p, r % p;
    assert x == p * (q * k + j) + s by {
      assert (p * q) * k == p * (q * k);
      assert p * (q * k + j) == p * (q * k) + p * j;
    }
    DivUnique(x, p, q * k + j, s);
  }

  lemma DivDiv(x: nat, a: nat, b: nat)
    requires a > 0 && b > 0
    ensures a * b > 0 && x / a / b == x / (a * b)
  {
    var q, r := x / a, x % a;
    var p, s := q / b, q % b;
    MulAtLeast(a, b, 1);
    var low := a * s + r;
    assert x == (a * b) * p + low by {
      assert q == b * p + s;
      assert a * q == a * (b * p) + a * s;
      assert a * (b * p) == (a * b) * p;
    }
    assert 0 <= low < a * b by {
      MulAtLeast(a, b - 1, s);
      assert a * (b - 1) == a * b - a;
    }
    DivUnique(x, a * b, p, low);
  }

  lemma {:induction false} Pow2Add(m: nat, n: nat)
    ensures Pow2(m + n) == Pow2(m) * Pow2(n)
  {
    if m > 0 {
      Pow2Add(m - 1, n);
      assert Pow2(m + n) == 2 * Pow2(m - 1 + n);
    }
  }

  /** The powers the machine widths use. */
  lemma Pow2Constants()
    ensures Pow2(1) == 2 && Pow2(2) == 4 && Pow2(3) == 8 && Pow2(4) == 16 && Pow2(5) == 32
    ensures Pow2(8) == 0x100 && Pow2(9) == 0x200 && Pow2(12) == 0x1000
    ensures Pow2(16) == 0x1_0000 && Pow2(18) == 0x4_0000 && Pow2(19) == 0x8_0000
    ensures Pow2(24) == 0x100_0000 && Pow2(25) == 0x200_0000 && Pow2(26) == 0x400_0000
    ensures Pow2(32) == 0x1_0000_0000
    ensures Pow2(63) == 0x8000_0000_0000_0000
    ensures Pow2(64) == 0x1_0000_0000_0000_0000
  {
    assert Pow2(1) == 2;
    assert Pow2(2) == 2 * Pow2(1);
    assert Pow2(3) == 2 * Pow2(2);
    assert Pow2(4) == 2 * Pow2(3);
    assert Pow2(5) == 2 * Pow2(4);
    Pow2Add(4, 4);
    assert Pow2(9) == 2 * Pow2(8);
    Pow2Add(8, 4);
    Pow2Add(8, 8);
    Pow2Add(16, 2);
    Pow2Add(16, 3);
    Pow2Add(16, 8);
    assert Pow2(25) == 2 * Pow2(24);
    assert Pow2(26) == 2 * Pow2(25);
    Pow2Add(16, 16);
    Pow2Add(32, 32);
    assert Pow2(64) == 2 * Pow2(63);
  }

  lemma {:induction false} Pow2Monotone(m: nat, n: nat)
    requires m <= n
    ensures Pow2(m) <= Pow2(n)
  {
    if m < n {
      Pow2Monotone(m, n - 1);
    }
  }

  /** A number below 2^w has no bit at or above w. */
  lemma {:induction false} NoHighBits(x: nat, w: nat, i: nat)
    requires x < Pow2(w) && i >= w
    ensures !Bit(x, i)
  {
    if w == 0 {
      ZeroHasNoBits(i);
    } else {
      NoHighBits(x / 2, w - 1, i - 1);
    }
  }

  /** Conversely: no bit at or above w means below 2^w. */
  lemma {:induction false} BelowPow2(x: nat, w: nat)
    requires forall i: nat | i >= w :: !Bit(x, i)
    ensures x < Pow2(w)
    decreases x + w
  {
    if w == 0 {
      if x != 0 {
        HasSomeBit(x);
      }
    } else {
      forall i: nat | i >= w - 1
        ensures !Bit(x / 2, i)
      {
        assert Bit(x, i + 1) == Bit(x / 2, i);
      }
      BelowPow2(x / 2, w - 1);
    }
  }

  lemma {:induction false} HasSomeBit(x: nat)
    requires x > 0
    ensures exists i: nat :: Bit(x, i)
  {
    if x % 2 == 1 {
      assert Bit(x, 0);
    } else {
      HasSomeBit(x / 2);
      var i: nat :| Bit(x / 2, i);
      assert Bit(x, i + 1);
    }
  }

  /** Two numbers with the same bits are the same number. */
  lemma {:induction false} BitsExtensional(x: nat, y: nat)
    requires forall i: nat :: Bit(x, i) == Bit(y, i)
    ensures x == y
  {
    assert Bit(x, 0) == Bit(y, 0);
    if x == 0 || y == 0 {
      if x != y {
        HasSomeBit(x + y);
        var i: nat :| Bit(x + y, i);
        ZeroHasNoBits(i);
      }
    } else {
      forall i: nat
        ensures Bit(x / 2, i) == Bit(y / 2, i)
      {
        assert Bit(x, i + 1) == Bit(y, i + 1);
      }
      BitsExtensional(x / 2, y / 2);
    }
  }

  lemma {:induction false} BitOfMod(x: nat, w: nat, i: nat)
    ensures Bit(x % Pow2(w), i) == (i < w && Bit(x, i))
  {
    if w == 0 {
      ZeroHasNoBits(i);
    } else {
      ModHalf(x, w);
      if i > 0 {
        BitOfMod(x / 2, w - 1, i - 1);
      }
    }
  }

  lemma ModHalf(x: nat, w: nat)
    requires w > 0
    ensures (x % Pow2(w)) % 2 == x % 2
    ensures (x % Pow2(w)) / 2 == (x / 2) % Pow2(w - 1)
  {
    var p := Pow2(w - 1);
    var q, r := (x / 2) / p, (x / 2) % p;
    assert x == 2 * (p * q + r) + x % 2;
    assert x == (2 * p) * q + (2 * r + x % 2) by {
      assert 2 * (p * q) == (2 * p) * q;
    }
    DivUnique(x, 2 * p, q, 2 * r + x % 2);
  }

  lemma AndBound(x: nat, y: nat, w: nat)
    requires x < Pow2(w)
    ensures And(x, y) < Pow2(w)
  {
    AndBits(x, y);
    forall i: nat | i >= w
      ensures !Bit(And(x, y), i)
    {
      NoHighBits(x, w, i);
    }
    BelowPow2(And(x, y), w);
  }

  lemma OrBound(x: nat, y: nat, w: nat)
    requires x < Pow2(w) && y < Pow2(w)
    ensures Or(x, y) < Pow2(w)
  {
    OrBits(x, y);
    forall i: nat | i >= w
      ensures !Bit(Or(x, y), i)
    {
      NoHighBits(x, w, i);
      NoHighBits(y, w, i);
    }
    BelowPow2(Or(x, y), w);
  }

  lemma XorBound(x: nat, y: nat, w: nat)
    requires x < Pow2(w) && y < Pow2(w)
    ensures Xor(x, y) < Pow2(w)
  {
    XorBits(x, y);
    forall i: nat | i >= w
      ensures !Bit(Xor(x, y), i)
    {
      NoHighBits(x, w, i);
      NoHighBits(y, w, i);
    }
    BelowPow2(Xor(x, y), w);
  }

  lemma {:induction false} BitOfOnes(w: nat, i: nat)
    ensures Bit(Pow2(w) - 1, i) == (i < w)
  {
    if w == 0 {
      ZeroHasNoBits(i);
    } else {
      assert (Pow2(w) - 1) / 2 == Pow2(w - 1) - 1;
      assert (Pow2(w) - 1) % 2 == 1;
      if i > 0 {
        BitOfOnes(w - 1, i - 1);
      }
    }
  }

  /** Masking with 2^w - 1 keeps the remainder modulo 2^w. */
  lemma AndMask(x: nat, w: nat)
    ensures And(x, Pow2(w) - 1) == x % Pow2(w)
  {
    AndBits(x, Pow2(w) - 1);
    forall i: nat
      ensures Bit(And(x, Pow2(w) - 1), i) == Bit(x % Pow2(w), i)
    {
      BitOfOnes(w, i);
      BitOfMod(x, w, i);
    }
    BitsExtensional(And(x, Pow2(w) - 1), x % Pow2(w));
  }

  lemma AndZero(x: nat)
    ensures And(x, 0) == 0 && And(0, x) == 0
  {
    AndBits(x, 0);
    AndBits(0, x);
    forall i: nat
      ensures !Bit(0, i)
    {
      ZeroHasNoBits(i);
    }
    BitsExtensional(And(x, 0), 0);
    BitsExtensional(And(0, x), 0);
  }

  lemma OrZero(x: nat)
    ensures Or(x, 0) == x && Or(0, x) == x
  {
    OrBits(x, 0);
    OrBits(0, x);
    forall i: nat
      ensures !Bit(0, i)
    {
      ZeroHasNoBits(i);
    }
    BitsExtensional(Or(x, 0), x);
    BitsExtensional(Or(0, x), x);
  }

  lemma AndCommutes(x: nat, y: nat)
    ensures And(x, y) == And(y, x)
  {
    AndBits(x, y);
    AndBits(y, x);
    BitsExtensional(And(x, y), And(y, x));
  }

  /** Or of a multiple of 2^k and a number below 2^k is their sum. */
  lemma OrDisjoint(hi: nat, lo: nat, k: nat)
    requires lo < Pow2(k)
    ensures Or(hi * Pow2(k), lo) == hi * Pow2(k) + lo
  {
    var x, sum := hi * Pow2(k), hi * Pow2(k) + lo;
    forall i: nat
      ensures Bit(Or(x, lo), i) == Bit(sum, i)
    {
      OrBits(x, lo);
      DisjointBits(hi, lo, k, i);
    }
    BitsExtensional(Or(x, lo), sum);
  }

  lemma DisjointBits(hi: nat, lo: nat, k: nat, i: nat)
    requires lo < Pow2(k)
    ensures Bit(hi * Pow2(k) + lo, i) == (Bit(hi * Pow2(k), i) || Bit(lo, i))
  {
    BitOfSum(hi, lo, k, i);
    BitOfShl(hi, k, i);
    if i >= k {
      NoHighBits(lo, k, i);
    }
  }

  lemma {:induction false} BitOfSum(hi: nat, lo: nat, k: nat, i: nat)
    requires lo < Pow2(k)
    ensures Bit(hi * Pow2(k) + lo, i) == if i < k then Bit(lo, i) else Bit(hi, i - k)
    decreases k
  {
    if k > 0 {
      var x := hi * Pow2(k) + lo;
      assert x == 2 * (hi * Pow2(k - 1)) + lo by { assert hi * (2 * Pow2(k - 1)) == 2 * (hi * Pow2(k - 1)); }
      assert x / 2 == hi * Pow2(k - 1) + lo / 2 && x % 2 == lo % 2;
      if i > 0 {
        BitOfSum(hi, lo / 2, k - 1, i - 1);
      }
    }
  }

  /** Complement within w bits, as the source writes it: xor with all ones. */
  lemma XorOnes(x: nat, w: nat)
    requires x < Pow2(w)
    ensures Xor(x, Pow2(w) - 1) == Pow2(w) - 1 - x
  {
    XorBits(x, Pow2(w) - 1);
    forall i: nat
      ensures Bit(Pow2(w) - 1 - x, i) == (Bit(x, i) != Bit(Pow2(w) - 1, i))
    {
      BitOfComplement(x, w, i);
      BitOfOnes(w, i);
      if i >= w {
        NoHighBits(x, w, i);
      }
    }
    BitsExtensional(Xor(x, Pow2(w) - 1), Pow2(w) - 1 - x);
  }

  lemma {:induction false} BitOfComplement(x: nat, w: nat, i: nat)
    requires x < Pow2(w)
    ensures Bit(Pow2(w) - 1 - x, i) == (i < w && !Bit(x, i))
  {
    if w == 0 {
      ZeroHasNoBits(i);
    } else {
      var c := Pow2(w) - 1 - x;
      assert c / 2 == Pow2(w - 1) - 1 - x / 2 && c % 2 == 1 - x % 2;
      if i > 0 {
        BitOfComplement(x / 2, w - 1, i - 1);
      }
    }
  }

  /** The top bit of a w-bit word decides its half. */
  lemma {:induction false} TopBit(x: nat, w: nat)
    requires w > 0 && x < Pow2(w)
    ensures Bit(x, w - 1) == (x >= Pow2(w - 1))
  {
    if w > 1 {
      TopBit(x / 2, w - 1);
      assert Pow2(w - 1) == 2 * Pow2(w - 2);
    }
  }
}
