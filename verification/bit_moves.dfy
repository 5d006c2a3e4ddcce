/** Byte swap and bit reversal, by masks and shifts. */
module BitMoves {
  import opened Bits
  import opened Ir
  import opened PopCounts

  // ---- bits of shifted, masked words ----

  lemma BitOfQuotient(x: nat, k: nat, i: nat)
    ensures Bit(Quotient(x, Pow2(k)), i) == Bit(x, i + k)
  {
    QuotientIsDivision(x, Pow2(k));
    BitOfShr(x, k, i);
  }

  lemma BitOfShifted(x: nat, k: nat, w: nat, i: nat)
    ensures Bit(Wrap(x * Pow2(k), w), i) <==> k <= i < w && Bit(x, i - k)
  {
    QuotientIsDivision(Bits.Shl(x, k), Pow2(w));
    BitOfMod(Bits.Shl(x, k), w, i);
    BitOfShl(x, k, i);
  }

  // ---- byte swap ----

  /** Where bit `i` of a byte-swapped value of `lanes` bytes comes from. */
  function FromByte(i: nat, lanes: nat): int {
    (lanes - 1 - i / 8) * 8 + i % 8
  }

  /** The top `done` bytes of the swapped value are in place, the others are zero. */
  ghost predicate Swapped(r: nat, x: nat, lanes: nat, done: nat) {
    forall i: nat :: Bit(r, i) <==> lanes - done <= i / 8 < lanes && Bit(x, FromByte(i, lanes))
  }

  /** `r` is the `k` bits of `x` from `down` on, at `up`. */
  ghost predicate FieldAt(r: nat, x: nat, down: nat, up: nat, k: nat) {
    forall i: nat :: Bit(r, i) <==> up <= i < up + k && Bit(x, i - up + down)
  }

  lemma MaskedBits(x: nat, q: nat, field: nat, down: nat, k: nat)
    requires q == Quotient(x, Pow2(down)) && field == And(q, Pow2(k) - 1)
    ensures forall i: nat :: Bit(field, i) <==> i < k && Bit(x, i + down)
  {
    AndBits(q, Pow2(k) - 1);
    forall i: nat
      ensures Bit(field, i) <==> i < k && Bit(x, i + down)
    {
      BitOfOnes(k, i);
      BitOfQuotient(x, down, i);
    }
  }

  lemma FieldMoved(x: nat, q: nat, field: nat, down: nat, up: nat, k: nat, r: nat)
    requires up + k <= 64 && q == Quotient(x, Pow2(down)) && field == And(q, Pow2(k) - 1) && r == Wrap(field * Pow2(up), 64)
    ensures FieldAt(r, x, down, up, k)
  {
    MaskedBits(x, q, field, down, k);
    forall i: nat
      ensures Bit(r, i) <==> up <= i < up + k && Bit(x, i - up + down)
    {
      BitOfShifted(field, up, 64, i);
    }
  }

  lemma OneMoreByte(r: nat, byte: nat, x: nat, lanes: nat, done: nat)
    requires done < lanes && Swapped(r, x, lanes, done) && FieldAt(byte, x, done * 8, (lanes - 1 - done) * 8, 8)
    ensures Swapped(Or(r, byte), x, lanes, done + 1)
  {
    OrBits(r, byte);
    var up := (lanes - 1 - done) * 8;
    forall i: nat
      ensures Bit(Or(r, byte), i) <==> lanes - (done + 1) <= i / 8 < lanes && Bit(x, FromByte(i, lanes))
    {
      assert up <= i < up + 8 <==> i / 8 == lanes - 1 - done;
      if i / 8 == lanes - 1 - done {
        assert i - up + done * 8 == FromByte(i, lanes);
      }
    }
  }

  /** One byte of `x`, moved from bit `down` to bit `up`. */
  method EmitByte(b: Block, x: Value, byteMask: Value, down: nat, up: nat) returns (r: Value)
    requires x.ty == byteMask.ty == U64 && down < 64 && up + 8 <= 64
    requires forall at: Words | Executes(at) :: at(byteMask) == Pow2(8) - 1
    modifies b
    ensures b.Extended() && r.ty == U64
    ensures forall at: Words | Executes(at) :: FieldAt(at(r), at(x), down, up, 8)
  {
    var shifted := EmitShiftRight(b, x, down);
    var byte := b.EmitOp(BitAnd, shifted, byteMask);
    var amount := b.EmitConstant(U64, up);
    r := b.EmitOp(Shl, byte, amount);
    forall at: Words | Executes(at)
      ensures FieldAt(at(r), at(x), down, up, 8)
    {
      Word64();
      FieldMoved(at(x), at(shifted), at(byte), down, up, 8, at(r));
    }
  }

  /** The bytes of the low `width` bits, reversed: one lane at a time. */
  method EmitBswap64(b: Block, x: Value, width: nat) returns (result: Value)
    requires x.ty == U64 && width % 8 == 0 && width <= 64
    modifies b
    ensures b.Extended() && result.ty == U64
    ensures forall at: Words | Executes(at) :: Swapped(at(result), at(x), width / 8, width / 8)
  {
    var lanes := width / 8;
    Word64();
    assert Pow2(8) == 0x100;
    var byteMask := b.EmitConstant(U64, 0xFF);
    result := b.EmitConstant(U64, 0);
    forall at: Words | Executes(at)
      ensures Swapped(at(result), at(x), lanes, 0)
    {
      forall i: nat
        ensures !Bit(0, i)
      {
        ZeroHasNoBits(i);
      }
    }
    for lane := 0 to lanes
      invariant b.Extended() && result.ty == U64
      invariant forall at: Words | Executes(at) :: Swapped(at(result), at(x), lanes, lane)
    {
      var placed := EmitByte(b, x, byteMask, lane * 8, (lanes - 1 - lane) * 8);
      ghost var before := result;
      result := b.EmitOp(BitOr, result, placed);
      forall at: Words | Executes(at)
        ensures Swapped(at(result), at(x), lanes, lane + 1)
      {
        OneMoreByte(at(before), at(placed), at(x), lanes, lane);
      }
    }
  }

  // ---- bit reversal ----

  /** Bit `i` is set where `i` is in the first half of a group of `2 * s` bits. */
  ghost predicate GroupMask(m: nat, s: nat)
    requires s > 0
  {
    forall i: nat :: Bit(m, i) <==> i < 64 && i % (s + s) < s
  }

  lemma {:induction false} MaskGroups5(n: nat)
    ensures forall i: nat :: Bit(Mask5(n), i) <==> i < 2 * n && i % 2 < 1
  {
    forall i: nat
      ensures Bit(Mask5(n), i) <==> i < 2 * n && i % 2 < 1
    {
      if n == 0 {
        ZeroHasNoBits(i);
      } else {
        MaskGroups5(n - 1);
        assert Pow2(2) == 4;
        BitOfSum(Mask5(n - 1), 1, 2, i);
        SmallBits(i);
      }
    }
  }

  lemma {:induction false} MaskGroups3(n: nat)
    ensures forall i: nat :: Bit(Mask3(n), i) <==> i < 4 * n && i % 4 < 2
  {
    forall i: nat
      ensures Bit(Mask3(n), i) <==> i < 4 * n && i % 4 < 2
    {
      if n == 0 {
        ZeroHasNoBits(i);
      } else {
        MaskGroups3(n - 1);
        assert Pow2(4) == 16;
        BitOfSum(Mask3(n - 1), 3, 4, i);
        SmallBits(i);
      }
    }
  }

  lemma {:induction false} MaskGroups0F(n: nat)
    ensures forall i: nat :: Bit(Mask0F(n), i) <==> i < 8 * n && i % 8 < 4
  {
    forall i: nat
      ensures Bit(Mask0F(n), i) <==> i < 8 * n && i % 8 < 4
    {
      if n == 0 {
        ZeroHasNoBits(i);
      } else {
        MaskGroups0F(n - 1);
        assert Pow2(8) == 256;
        BitOfSum(Mask0F(n - 1), 15, 8, i);
        SmallBits(i);
      }
    }
  }

  /** The bits of 1, 3 and 15. */
  lemma SmallBits(i: nat)
    ensures Bit(1, i) <==> i < 1
    ensures Bit(3, i) <==> i < 2
    ensures Bit(15, i) <==> i < 4
  {
    BitOfOnes(1, i);
    BitOfOnes(2, i);
    BitOfOnes(4, i);
    assert Pow2(1) == 2 && Pow2(2) == 4 && Pow2(4) == 16;
  }

  lemma GroupMasks()
    ensures GroupMask(MASK55, 1) && GroupMask(MASK33, 2) && GroupMask(MASK0F, 4)
  {
    Masks();
    MaskGroups5(32);
    MaskGroups3(16);
    MaskGroups0F(8);
  }

  /** Where a swap of neighbouring groups of `s` bits takes bit `i` from. */
  function Flip(i: nat, s: nat): int
    requires s > 0
  {
    if i % (s + s) < s then i + s else i - s
  }

  lemma FlipStays(i: nat, s: nat)
    requires s in {1, 2, 4} && i < 64
    ensures 0 <= Flip(i, s) < 64
    ensures i >= s ==> ((i - s) % (s + s) < s <==> i % (s + s) >= s)
  {
    if s == 1 {
    } else if s == 2 {
    } else {
      assert s == 4;
    }
  }

  ghost predicate Flipped(r: nat, x: nat, s: nat)
    requires s in {1, 2, 4}
  {
    && (forall i: nat | i < 64 :: Bit(r, i) <==> 0 <= Flip(i, s) && Bit(x, Flip(i, s)))
    && (forall i: nat | i >= 64 :: !Bit(r, i))
  }

  /** `((x >> s) & m) | ((x & m) << s)` swaps neighbouring groups. */
  lemma SwapGroups(x: nat, m: nat, s: nat, down: nat, up: nat)
    requires s in {1, 2, 4} && x < Pow2(64) && GroupMask(m, s)
    requires down == And(Quotient(x, Pow2(s)), m) && up == Wrap(And(x, m) * Pow2(s), 64)
    ensures Flipped(Or(down, up), x, s)
  {
    AndBits(Quotient(x, Pow2(s)), m);
    AndBits(x, m);
    OrBits(down, up);
    forall i: nat
      ensures if i < 64 then Bit(Or(down, up), i) <==> 0 <= Flip(i, s) && Bit(x, Flip(i, s)) else !Bit(Or(down, up), i)
    {
      BitOfQuotient(x, s, i);
      BitOfShifted(And(x, m), s, 64, i);
      if i < 64 {
        FlipStays(i, s);
      }
    }
  }

  method EmitSwapGroups(b: Block, x: Value, mask: nat, s: nat) returns (r: Value)
    requires x.ty == U64 && s in {1, 2, 4} && mask < Pow2(64) && GroupMask(mask, s)
    modifies b
    ensures b.Extended() && r.ty == U64
    ensures forall at: Words | Executes(at) :: Flipped(at(r), at(x), s)
  {
    var down := EmitShiftRight(b, x, s);
    down := EmitAnd(b, down, mask);
    var up := EmitAnd(b, x, mask);
    var amount := b.EmitConstant(U64, s);
    up := b.EmitOp(Shl, up, amount);
    r := b.EmitOp(BitOr, down, up);
    forall at: Words | Executes(at)
      ensures Flipped(at(r), at(x), s)
    {
      InRange(at, x);
      Word64();
      SwapGroups(at(x), mask, s, at(down), at(up));
    }
  }

  /** The low `width` bits of `r` are those of `x` in reverse; the others are zero. */
  ghost predicate Reversed(r: nat, x: nat, width: nat) {
    forall i: nat :: Bit(r, i) <==> i < width && Bit(x, width - 1 - i)
  }

  /** Three group swaps and a byte swap together reverse 64 bits. */
  lemma WayBack(i: nat)
    requires i < 64
    ensures var j := FromByte(i, 8);
      && 0 <= j < 64 && 0 <= Flip(j, 4) < 64 && 0 <= Flip(Flip(j, 4), 2) < 64
      && Flip(Flip(Flip(j, 4), 2), 1) == 63 - i
  {
    var q, t := i / 8, i % 8;
    var j := FromByte(i, 8);
    assert j == (7 - q) * 8 + t;
    var j4 := Flip(j, 4);
    assert j4 == (7 - q) * 8 + (if t < 4 then t + 4 else t - 4);
    var j2 := Flip(j4, 2);
    assert j2 == (7 - q) * 8 + [6, 7, 4, 5, 2, 3, 0, 1][t];
    assert Flip(j2, 1) == (7 - q) * 8 + (7 - t);
  }

  lemma AllSwaps(x: nat, x1: nat, x2: nat, x3: nat, r: nat)
    requires Flipped(x1, x, 1) && Flipped(x2, x1, 2) && Flipped(x3, x2, 4) && Swapped(r, x3, 8, 8)
    ensures Reversed(r, x, 64)
  {
    forall i: nat
      ensures Bit(r, i) <==> i < 64 && Bit(x, 63 - i)
    {
      if i < 64 {
        WayBack(i);
      }
    }
  }

  /** Shifting the reversal of the word down leaves the reversal of its low bits. */
  lemma Realigned(x: nat, all: nat, width: nat)
    requires width <= 64 && Reversed(all, x, 64)
    ensures Reversed(Quotient(all, Pow2(64 - width)), x, width)
  {
    var r := Quotient(all, Pow2(64 - width));
    forall i: nat
      ensures Bit(r, i) <==> i < width && Bit(x, width - 1 - i)
    {
      BitOfQuotient(all, 64 - width, i);
      assert i < width ==> 63 - (i + (64 - width)) == width - 1 - i;
    }
  }

  /** The low `width` bits, reversed, whatever is above them. */
  method EmitBitReverse64(b: Block, x: Value, width: nat) returns (r: Value)
    requires x.ty == U64 && 0 < width <= 64
    modifies b
    ensures b.Extended() && r.ty == U64
    ensures forall at: Words | Executes(at) :: Reversed(at(r), at(x), width)
  {
    var all := EmitReverseAll(b, x, 64);
    r := all;
    if width < 64 {
      r := EmitShiftRight(b, all, 64 - width);
      forall at: Words | Executes(at)
        ensures Reversed(at(r), at(x), width)
      {
        Realigned(at(x), at(all), width);
      }
    }
  }

  /** All 64 bits reversed: neighbours, pairs, nibbles, then bytes. */
  method EmitReverseAll(b: Block, x: Value, w: nat) returns (all: Value)
    requires x.ty == U64 && w == 64
    modifies b
    ensures b.Extended() && all.ty == U64
    ensures forall at: Words | Executes(at) :: Reversed(at(all), at(x), w)
  {
    Word64();
    GroupMasks();
    var x1 := EmitSwapGroups(b, x, MASK55, 1);
    var x2 := EmitSwapGroups(b, x1, MASK33, 2);
    var x3 := EmitSwapGroups(b, x2, MASK0F, 4);
    all := EmitBswap64(b, x3, w);
    forall at: Words | Executes(at)
      ensures Reversed(at(all), at(x), w)
    {
      AllSwaps(at(x), at(x1), at(x2), at(x3), at(all));
    }
  }
}
