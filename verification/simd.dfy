/** Lane-wise comparison of eight bytes held in one 64-bit word: signed order lane by lane, and
    equality by a borrow that runs through the word. */
module Simd {
  import opened Bits
  import opened Ir
  import opened MulOverflow
  import opened PopCounts
  import opened BitMoves
  import opened Saturate
  import opened ZeroCounts

  /** Byte `j` of `x`. */
  function Lane(x: nat, j: nat): nat {
    if j == 0 then x % 256 else Lane(x / 256, j - 1)
  }

  /** `n` lanes of 1 each; of 0x80 each. */
  function Ones(n: nat): nat { if n == 0 then 0 else Ones(n - 1) * 256 + 1 }

  function Highs(n: nat): nat { if n == 0 then 0 else Highs(n - 1) * 256 + 0x80 }

  const LOW_ONES := 0x0101_0101_0101_0101
  const HIGH_BITS := 0x8080_8080_8080_8080

  // ---- subtracting one from every lane, with borrows ----

  function Borrows(lane: nat, b: nat): (r: nat)
    ensures r <= 1
  {
    if lane < 1 + b then 1 else 0
  }

  /** `t` less one in each of `n` lanes, less the borrow `b` into the lowest. */
  function Minus(t: nat, n: nat, b: nat): nat
    requires b <= 1
    decreases n, t
  {
    if n == 0 then 0
    else Minus(t / 256, n - 1, Borrows(t % 256, b)) * 256 + (t % 256 + 256 * Borrows(t % 256, b) - 1 - b)
  }

  /** What the subtraction of the low ones computes. */
  lemma {:induction false} MinusIs(t: nat, n: nat, b: nat)
    requires b <= 1 && t < Pow2(8 * n)
    ensures exists k: nat :: k <= 1 && t + k * Pow2(8 * n) == Ones(n) + b + Minus(t, n, b)
    ensures Minus(t, n, b) < Pow2(8 * n)
    decreases n
  {
    if n == 0 {
      assert t + b * Pow2(0) == Ones(0) + b + Minus(t, 0, b);
    } else {
      var borrow := Borrows(t % 256, b);
      var rest, p := Minus(t / 256, n - 1, borrow), Pow2(8 * (n - 1));
      ByteBelow(t, n);
      MinusIs(t / 256, n - 1, borrow);
      assert Pow2(8 * n) == 256 * p by {
        Pow2Add(8, 8 * (n - 1));
        assert Pow2(8) == 256;
      }
      var k: nat :| k <= 1 && t / 256 + k * p == Ones(n - 1) + borrow + rest;
      assert k * (256 * p) == 256 * (k * p);
      assert t + k * Pow2(8 * n) == Ones(n) + b + Minus(t, n, b);
    }
  }

  /** The borrow chain: a lane is marked when it is zero, or one right above a marked lane. */
  predicate Marked(t: nat, j: nat, b: nat) {
    if j == 0 then Borrows(t % 256, b) == 1 else Marked(t / 256, j - 1, Borrows(t % 256, b))
  }

  lemma {:induction false} MarkBit(t: nat, n: nat, b: nat, j: nat)
    requires b <= 1 && j < n
    ensures Bit(Minus(t, n, b), 8 * j + 7) && !Bit(t, 8 * j + 7) <==> Marked(t, j, b)
    decreases n
  {
    var low, high := t % 256 + 256 * Borrows(t % 256, b) - 1 - b, Minus(t / 256, n - 1, Borrows(t % 256, b));
    assert Pow2(8) == 256 && Pow2(7) == 128;
    BitOfSum(high, low, 8, 8 * j + 7);
    BitOfSum(t / 256, t % 256, 8, 8 * j + 7);
    if j == 0 {
      TopBit(low, 8);
      TopBit(t % 256, 8);
    } else {
      MarkBit(t / 256, n - 1, Borrows(t % 256, b), j - 1);
    }
  }

  lemma {:induction false} MarkedByLanes(t: nat, j: nat, b: nat)
    requires b <= 1
    ensures Marked(t, j, b) <==> Lane(t, j) == 0 || (Lane(t, j) == 1 && if j == 0 then b == 1 else Marked(t, j - 1, b))
  {
    if j > 0 {
      MarkedByLanes(t / 256, j - 1, Borrows(t % 256, b));
    }
  }

  // ---- what the marks say ----

  /** Every equal lane is marked, and the lowest marked lane is really equal. */
  lemma {:induction false} MarksFindEquals(t: nat, j: nat)
    ensures Lane(t, j) == 0 ==> Marked(t, j, 0)
    ensures Marked(t, j, 0) ==> exists i: nat :: i <= j && Lane(t, i) == 0 && Marked(t, i, 0)
  {
    MarkedByLanes(t, j, 0);
    if Marked(t, j, 0) && Lane(t, j) != 0 {
      MarksFindEquals(t, j - 1);
      var i: nat :| i <= j - 1 && Lane(t, i) == 0 && Marked(t, i, 0);
      assert i <= j;
    }
  }

  /** The marks are exact in the first `n` lanes precisely when no lane that is one is right above
      a zero lane. */
  lemma {:induction false} MarksExactWhen(t: nat, n: nat)
    ensures (forall j: nat | j < n :: Marked(t, j, 0) <==> Lane(t, j) == 0)
       <==> (forall j: nat | 0 < j < n :: !(Lane(t, j) == 1 && Lane(t, j - 1) == 0))
  {
    if n > 0 {
      MarksExactWhen(t, n - 1);
      MarkedByLanes(t, n - 1, 0);
      if n > 1 {
        MarkedByLanes(t, n - 2, 0);
        ExactStep(t, n);
      }
    }
  }

  lemma ExactStep(t: nat, n: nat)
    requires n > 1
    requires (forall j: nat | j < n - 1 :: Marked(t, j, 0) <==> Lane(t, j) == 0)
        <==> (forall j: nat | 0 < j < n - 1 :: !(Lane(t, j) == 1 && Lane(t, j - 1) == 0))
    requires Marked(t, n - 1, 0) <==> Lane(t, n - 1) == 0 || (Lane(t, n - 1) == 1 && Marked(t, n - 2, 0))
    ensures (forall j: nat | j < n :: Marked(t, j, 0) <==> Lane(t, j) == 0)
       <==> (forall j: nat | 0 < j < n :: !(Lane(t, j) == 1 && Lane(t, j - 1) == 0))
  {
    if forall j: nat | j < n :: Marked(t, j, 0) <==> Lane(t, j) == 0 {
      assert Marked(t, n - 1, 0) <==> Lane(t, n - 1) == 0;
      assert Marked(t, n - 2, 0) <==> Lane(t, n - 2) == 0;
    }
  }

  // ---- lanes and bits ----

  lemma {:induction false} LaneBits(x: nat, j: nat, i: nat)
    ensures Lane(x, j) < 256
    ensures Bit(Lane(x, j), i) <==> i < 8 && Bit(x, 8 * j + i)
    decreases j
  {
    assert Pow2(8) == 256;
    BitOfSum(x / 256, x % 256, 8, 8 * j + i);
    if j == 0 {
      if i >= 8 {
        NoHighBits(x % 256, 8, i);
      }
    } else {
      LaneBits(x / 256, j - 1, i);
    }
  }

  /** A lane of the xor is zero exactly when the lanes are equal. */
  lemma XorLane(x: nat, y: nat, j: nat)
    ensures Lane(Xor(x, y), j) == 0 <==> Lane(x, j) == Lane(y, j)
  {
    var l, m, n := Lane(Xor(x, y), j), Lane(x, j), Lane(y, j);
    XorBits(x, y);
    forall i: nat
      ensures Bit(l, i) <==> Bit(m, i) != Bit(n, i)
    {
      LaneBits(Xor(x, y), j, i);
      LaneBits(x, j, i);
      LaneBits(y, j, i);
    }
    if l == 0 {
      forall i: nat
        ensures Bit(m, i) == Bit(n, i)
      {
        ZeroHasNoBits(i);
      }
      BitsExtensional(m, n);
    } else {
      HasSomeBit(l);
    }
  }

  lemma BitAboveByte(hi: nat, lo: nat, i: nat)
    requires lo < 256
    ensures Bit(hi * 256 + lo, i) == if i < 8 then Bit(lo, i) else Bit(hi, i - 8)
  {
    assert Pow2(8) == 256;
    BitOfSum(hi, lo, 8, i);
  }

  lemma {:induction false} HighsBits(n: nat, i: nat)
    ensures Bit(Highs(n), i) <==> i < 8 * n && i % 8 == 7
  {
    if n == 0 {
      ZeroHasNoBits(i);
    } else {
      BitAboveByte(Highs(n - 1), 0x80, i);
      if i < 8 {
        BitOf80(i);
      } else {
        HighsBits(n - 1, i - 8);
        assert (i - 8) % 8 == i % 8;
      }
    }
  }

  lemma BitOf80(i: nat)
    ensures Bit(0x80, i) <==> i == 7
  {
    assert Pow2(7) == 0x80;
    BitOfShl(1, 7, i);
    if i > 7 {
      NoHighBits(1, 1, i - 7);
    }
  }

  lemma {:induction false} RepeatedBytes(n: nat)
    ensures 255 * Ones(n) + 1 == Pow2(8 * n) && 255 * Highs(n) + 128 == 128 * Pow2(8 * n)
  {
    if n > 0 {
      RepeatedBytes(n - 1);
      Pow2Add(8, 8 * (n - 1));
      assert Pow2(8) == 256;
    }
  }

  lemma RepeatedConstants()
    ensures Ones(8) == LOW_ONES && Highs(8) == HIGH_BITS
  {
    RepeatedBytes(8);
    Word64();
  }

  /** The marks before smearing: the top bit of each marked lane. */
  ghost predicate TopBitMarks(r: nat, t: nat) {
    forall i: nat :: Bit(r, i) <==> i < 64 && i % 8 == 7 && Marked(t, i / 8, 0)
  }

  lemma MinusAt(t: nat, n: nat, w: nat, ones: nat)
    requires n > 0 && w == 8 * n && ones == Ones(n) && t < Pow2(w)
    ensures Wrap(t - ones, w) == Minus(t, n, 0)
  {
    MinusIs(t, n, 0);
    var k: nat :| k <= 1 && t + k * Pow2(8 * n) == Ones(n) + 0 + Minus(t, n, 0);
    assert k * Pow2(w) == if k == 0 then 0 else Pow2(w);
    WrapOnce(t - ones, w);
  }

  lemma MinusWord(t: nat)
    requires t < Pow2(64)
    ensures Wrap(t - LOW_ONES, 64) == Minus(t, 8, 0)
  {
    assert Ones(8) == LOW_ONES by { RepeatedConstants(); }
    MinusAt(t, 8, 64, LOW_ONES);
  }

  lemma NotBits(t: nat, not: nat, w: nat)
    requires t < Pow2(w) && not == Xor(t, Pow2(w) - 1)
    ensures forall i: nat :: Bit(not, i) <==> i < w && !Bit(t, i)
  {
    XorOnes(t, w);
    forall i: nat
      ensures Bit(not, i) <==> i < w && !Bit(t, i)
    {
      BitOfComplement(t, w, i);
    }
  }

  lemma HighBits()
    ensures forall i: nat :: Bit(HIGH_BITS, i) <==> i < 64 && i % 8 == 7
  {
    RepeatedConstants();
    forall i: nat
      ensures Bit(HIGH_BITS, i) <==> i < 64 && i % 8 == 7
    {
      HighsBits(8, i);
    }
  }

  /** Which top bits the and of the difference and the complement keeps. */
  lemma KeptBit(t: nat, minus: nat, n: nat, i: nat)
    requires minus == Minus(t, n, 0) && i / 8 < n && i % 8 == 7
    ensures Bit(minus, i) && !Bit(t, i) <==> Marked(t, i / 8, 0)
  {
    var j := i / 8;
    assert i == 8 * j + 7;
    MarkBit(t, n, 0, j);
  }

  lemma MarkBits(t: nat, minus: nat, not: nat, highs: nat, a: nat, r: nat)
    requires minus == Minus(t, 8, 0) && a == And(minus, not) && r == And(a, highs)
    requires forall i: nat :: Bit(not, i) <==> i < 64 && !Bit(t, i)
    requires forall i: nat :: Bit(highs, i) <==> i < 64 && i % 8 == 7
    ensures TopBitMarks(r, t)
  {
    AndBits(minus, not);
    AndBits(a, highs);
    forall i: nat
      ensures Bit(r, i) <==> i < 64 && i % 8 == 7 && Marked(t, i / 8, 0)
    {
      if i < 64 && i % 8 == 7 {
        KeptBit(t, minus, 8, i);
      }
    }
  }

  /** Every bit of a lane set exactly when `chosen` holds of the lane. */
  ghost predicate LaneMask(r: nat, chosen: nat -> bool) {
    forall i: nat :: Bit(r, i) <==> i < 64 && chosen(i / 8)
  }

  lemma SmearedMarks(r: nat, marks: nat, t: nat)
    requires TopBitMarks(marks, t) && Smeared(r, marks, 8)
    ensures LaneMask(r, (j: nat) => Marked(t, j, 0))
  {
    forall i: nat
      ensures Bit(r, i) <==> i < 64 && Marked(t, i / 8, 0)
    {
      var top := i / 8 * 8 + 7;
      assert i <= top < i + 8 && top / 8 == i / 8 && top % 8 == 7;
      if SomeBit(marks, i, i + 8) {
        var k: nat :| i <= k < i + 8 && Bit(marks, k);
        assert k == top;
      } else {
        assert !Bit(marks, top);
      }
    }
  }

  // ---- the emitted ops ----

  method EmitMinus(b: Block, t: Value) returns (r: Value)
    requires t.ty == U64
    modifies b
    ensures b.Extended() && r.ty == U64
    ensures forall at: Words | Executes(at) :: at(r) == Minus(at(t), 8, 0)
  {
    Word64();
    var lowOnes := b.EmitConstant(U64, LOW_ONES);
    r := b.EmitOp(Sub, t, lowOnes);
    forall at: Words | Executes(at)
      ensures at(r) == Minus(at(t), 8, 0)
    {
      InRange(at, t);
      MinusWord(at(t));
    }
  }

  method EmitNot(b: Block, t: Value, w: nat) returns (r: Value)
    requires t.ty == Int(w, false)
    modifies b
    ensures b.Extended() && r.ty == t.ty
    ensures forall at: Words, i: nat | Executes(at) :: Bit(at(r), i) <==> i < w && !Bit(at(t), i)
  {
    var allOnes := EmitOnes(b, t.ty);
    r := b.EmitOp(BitXor, t, allOnes);
    forall at: Words, i: nat | Executes(at)
      ensures Bit(at(r), i) <==> i < w && !Bit(at(t), i)
    {
      InRange(at, t);
      NotBits(at(t), at(r), w);
    }
  }

  method EmitMarks(b: Block, t: Value) returns (mask: Value)
    requires t.ty == U64
    modifies b
    ensures b.Extended() && mask.ty == U64
    ensures forall at: Words | Executes(at) :: TopBitMarks(at(mask), at(t))
  {
    Word64();
    var minus := EmitMinus(b, t);
    var notT := EmitNot(b, t, 64);
    var both := b.EmitOp(BitAnd, minus, notT);
    mask := EmitAnd(b, both, HIGH_BITS);
    HighBits();
    forall at: Words | Executes(at)
      ensures TopBitMarks(at(mask), at(t))
    {
      MarkBits(at(t), at(minus), at(notT), HIGH_BITS, at(both), at(mask));
    }
  }

  /** Smears each lane's top bit over the lane: shifts by 1, 2 and 4. */
  method EmitSmearedLanes(b: Block, marks: Value) returns (mask: Value)
    requires marks.ty == U64
    modifies b
    ensures b.Extended() && mask.ty == U64
    ensures forall at: Words | Executes(at) :: Smeared(at(mask), at(marks), 8)
  {
    var m := 1;
    mask := marks;
    forall at: Words | Executes(at)
      ensures Smeared(at(mask), at(marks), 1)
    {
      SmearStart(at(marks));
    }
    while m < 8
      invariant b.Extended() && mask.ty == U64 && m in {1, 2, 4, 8}
      invariant forall at: Words | Executes(at) :: Smeared(at(mask), at(marks), m)
      decreases 8 - m
    {
      mask := EmitSmearStep(b, mask, marks, m);
      m := m + m;
    }
  }

  /** `simd_eq`: each marked lane of the xor filled with ones. */
  method EmitSimdEq(b: Block, lhs: Value, rhs: Value) returns (mask: Value)
    requires lhs.ty == rhs.ty == U64
    modifies b
    ensures b.Extended() && mask.ty == U64
    ensures forall at: Words | Executes(at) :: LaneMask(at(mask), (j: nat) => Marked(Xor(at(lhs), at(rhs)), j, 0))
  {
    var t := b.EmitOp(BitXor, lhs, rhs);
    var marks := EmitMarks(b, t);
    mask := EmitSmearedLanes(b, marks);
    forall at: Words | Executes(at)
      ensures LaneMask(at(mask), (j: nat) => Marked(Xor(at(lhs), at(rhs)), j, 0))
    {
      SmearedMarks(at(mask), at(marks), at(t));
    }
  }

  /** What a user of the mask may rely on: every pair of equal lanes is marked, and at or below any
      marked lane there is a pair of equal lanes. */
  lemma MarksOfEquality(x: nat, y: nat, j: nat)
    ensures Lane(x, j) == Lane(y, j) ==> Marked(Xor(x, y), j, 0)
    ensures Marked(Xor(x, y), j, 0) ==> exists i: nat :: i <= j && Lane(x, i) == Lane(y, i)
  {
    var t := Xor(x, y);
    XorLane(x, y, j);
    MarksFindEquals(t, j);
    if Marked(t, j, 0) {
      var i: nat :| i <= j && Lane(t, i) == 0 && Marked(t, i, 0);
      XorLane(x, y, i);
    }
  }

  /** The marks are the equal lanes, exactly when no lane whose xor is one is right above a pair of
      equal lanes. */
  lemma MarksAreEquality(x: nat, y: nat, n: nat)
    ensures (forall j: nat | j < n :: Marked(Xor(x, y), j, 0) <==> Lane(x, j) == Lane(y, j))
       <==> (forall j: nat | 0 < j < n :: !(Lane(Xor(x, y), j) == 1 && Lane(x, j - 1) == Lane(y, j - 1)))
  {
    var t := Xor(x, y);
    forall j: nat
      ensures Lane(t, j) == 0 <==> Lane(x, j) == Lane(y, j)
    {
      XorLane(x, y, j);
    }
    MarksExactWhen(t, n);
  }

  /** So equality lane by lane is not what is computed: comparing 0x0100 with 0, lane 1 differs and
      is marked. */
  lemma MarksCanLie()
    ensures var x, y := 0x0100, 0; Lane(x, 1) != Lane(y, 1) && Marked(Xor(x, y), 1, 0)
  {
    var t := Xor(0x0100, 0);
    XorBits(0x0100, 0);
    forall i: nat
      ensures Bit(t, i) <==> Bit(0x0100, i)
    {
      ZeroHasNoBits(i);
    }
    BitsExtensional(t, 0x0100);
    assert Lane(0x0100, 1) == Lane(1, 0) && Lane(0, 1) == Lane(0, 0);
    assert Marked(0x0100, 1, 0) == Marked(1, 0, Borrows(0, 0));
  }

  // ---- signed comparison, one lane at a time ----

  lemma {:induction false} LaneByShift(x: nat, j: nat)
    ensures Wrap(Quotient(x, Pow2(8 * j)), 8) == Lane(x, j)
  {
    var l := Wrap(Quotient(x, Pow2(8 * j)), 8);
    QuotientIsDivision(Quotient(x, Pow2(8 * j)), Pow2(8));
    forall i: nat
      ensures Bit(l, i) == Bit(Lane(x, j), i)
    {
      BitOfMod(Quotient(x, Pow2(8 * j)), 8, i);
      BitOfQuotient(x, 8 * j, i);
      LaneBits(x, j, i);
    }
    BitsExtensional(l, Lane(x, j));
  }

  predicate LaneCompare(isLt: bool, x: nat, y: nat, j: nat) {
    var l, m := Signed(Lane(x, j), 8), Signed(Lane(y, j), 8);
    if isLt then l < m else l >= m
  }

  method EmitLane(b: Block, x: Value, lane: nat) returns (r: Value)
    requires x.ty == U64 && lane < 8
    modifies b
    ensures b.Extended() && r.ty == Int(8, true)
    ensures forall at: Words | Executes(at) :: at(r) == Lane(at(x), lane)
  {
    var shifted := EmitShiftRight(b, x, 8 * lane);
    r := b.EmitCast(Int(8, true), shifted);
    forall at: Words | Executes(at)
      ensures at(r) == Lane(at(x), lane)
    {
      LaneByShift(at(x), lane);
    }
  }

  lemma LowOnes(condition: bool, k: nat, w: nat, ones: nat, i: nat)
    requires k <= w && ones == if condition then Pow2(w) - 1 else 0
    ensures Bit(And(ones, Pow2(k) - 1), i) <==> condition && i < k
  {
    AndBits(ones, Pow2(k) - 1);
    BitOfOnes(k, i);
    BitOfOnes(w, i);
    ZeroHasNoBits(i);
  }

  lemma MovedOnes(condition: bool, k: nat, w: nat, field: nat, up: nat, r: nat, i: nat)
    requires up + k <= w && r == Wrap(field * Pow2(up), w)
    requires forall j: nat :: Bit(field, j) <==> condition && j < k
    ensures Bit(r, i) <==> condition && up <= i < up + k
  {
    BitOfShifted(field, up, w, i);
  }

  lemma PlacedMask(condition: bool, w: nat, ones: nat, mask: nat, lane: nat, r: nat)
    requires 8 * lane + 8 <= w && ones == (if condition then Pow2(w) - 1 else 0) && mask == Pow2(8) - 1
    requires r == Wrap(And(ones, mask) * Pow2(8 * lane), w)
    ensures forall i: nat :: Bit(r, i) <==> condition && i / 8 == lane
  {
    OnesInPlace(condition, 8, w, ones, mask, And(ones, mask), 8 * lane, r);
    forall i: nat
      ensures Bit(r, i) <==> condition && i / 8 == lane
    {
      assert 8 * lane <= i < 8 * lane + 8 <==> i / 8 == lane;
    }
  }

  lemma OnesInPlace(condition: bool, k: nat, w: nat, ones: nat, mask: nat, field: nat, up: nat, r: nat)
    requires up + k <= w && ones == (if condition then Pow2(w) - 1 else 0) && mask == Pow2(k) - 1
    requires field == And(ones, mask) && r == Wrap(field * Pow2(up), w)
    ensures forall i: nat :: Bit(r, i) <==> condition && up <= i < up + k
  {
    forall j: nat
      ensures Bit(field, j) <==> condition && j < k
    {
      LowOnes(condition, k, w, ones, j);
    }
    forall i: nat
      ensures Bit(r, i) <==> condition && up <= i < up + k
    {
      MovedOnes(condition, k, w, field, up, r, i);
    }
  }

  /** All ones in the lane when the condition holds, zero elsewhere. */
  method EmitPlaced(b: Block, condition: Value, lane: nat) returns (placed: Value)
    requires condition.ty == BOOL && lane < 8
    modifies b
    ensures b.Extended() && placed.ty == U64
    ensures forall at: Words, i: nat | Executes(at) :: Bit(at(placed), i) <==> at(condition) != 0 && i < 64 && i / 8 == lane
  {
    var neg := EmitMaskOf(b, condition, U64);
    Word64();
    assert Pow2(8) == 0x100;
    var laneMask := EmitAnd(b, neg, 0xFF);
    var amount := b.EmitConstant(U64, 8 * lane);
    placed := b.EmitOp(Shl, laneMask, amount);
    forall at: Words, i: nat | Executes(at)
      ensures Bit(at(placed), i) <==> at(condition) != 0 && i < 64 && i / 8 == lane
    {
      PlacedMask(at(condition) != 0, 64, at(neg), 0xFF, lane, at(placed));
    }
  }

  /** The first `done` lanes of the comparison are in place. */
  ghost predicate LanesCompared(r: nat, x: nat, y: nat, isLt: bool, done: nat) {
    forall i: nat :: Bit(r, i) <==> i < 64 && i / 8 < done && LaneCompare(isLt, x, y, i / 8)
  }

  /** `simd_lt` and `simd_ge`: exactly the lanes where the signed comparison holds. */
  method EmitSimdCompare(b: Block, isLt: bool, lhs: Value, rhs: Value) returns (result: Value)
    requires lhs.ty == rhs.ty == U64
    modifies b
    ensures b.Extended() && result.ty == U64
    ensures forall at: Words | Executes(at) :: LanesCompared(at(result), at(lhs), at(rhs), isLt, 8)
  {
    result := b.EmitConstant(U64, 0);
    forall at: Words | Executes(at)
      ensures LanesCompared(at(result), at(lhs), at(rhs), isLt, 0)
    {
      forall i: nat
        ensures !Bit(0, i)
      {
        ZeroHasNoBits(i);
      }
    }
    for lane := 0 to 8
      invariant b.Extended() && result.ty == U64
      invariant forall at: Words | Executes(at) :: LanesCompared(at(result), at(lhs), at(rhs), isLt, lane)
    {
      result := EmitOneLane(b, isLt, lhs, rhs, result, lane);
    }
  }

  lemma LaneAdded(before: nat, placed: nat, x: nat, y: nat, isLt: bool, lane: nat)
    requires LanesCompared(before, x, y, isLt, lane)
    requires forall i: nat :: Bit(placed, i) <==> LaneCompare(isLt, x, y, lane) && i < 64 && i / 8 == lane
    ensures LanesCompared(Or(before, placed), x, y, isLt, lane + 1)
  {
    OrBits(before, placed);
  }

  method EmitOneLane(b: Block, isLt: bool, lhs: Value, rhs: Value, before: Value, lane: nat) returns (result: Value)
    requires lhs.ty == rhs.ty == before.ty == U64 && lane < 8
    requires forall at: Words | Executes(at) :: LanesCompared(at(before), at(lhs), at(rhs), isLt, lane)
    modifies b
    ensures b.Extended() && result.ty == U64
    ensures forall at: Words | Executes(at) :: LanesCompared(at(result), at(lhs), at(rhs), isLt, lane + 1)
  {
    var lhsLane := EmitLane(b, lhs, lane);
    var rhsLane := EmitLane(b, rhs, lane);
    var condition := b.EmitOp(if isLt then Lt else Ge, lhsLane, rhsLane);
    var placed := EmitPlaced(b, condition, lane);
    result := b.EmitOp(BitOr, before, placed);
    forall at: Words | Executes(at)
      ensures LanesCompared(at(result), at(lhs), at(rhs), isLt, lane + 1)
    {
      assert at(condition) != 0 <==> LaneCompare(isLt, at(lhs), at(rhs), lane);
      LaneAdded(at(before), at(placed), at(lhs), at(rhs), isLt, lane);
    }
  }
}
