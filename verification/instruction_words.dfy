/** Loads and stores, pushes and pops, wide moves, vector shifts and calls: what the fields packed
    into their words decode to, and which operands are refused. */
module InstructionWords {
  import opened Bits
  import opened Wrappers
  import opened A64
  import opened Encoding
  import opened Immediates

  // ---- packing ----

  lemma OrSwap(a: nat, b: nat, c: nat)
    ensures Or(Or(a, b), c) == Or(Or(a, c), b)
  {
    OrBits(a, b);
    OrBits(a, c);
    OrBits(Or(a, b), c);
    OrBits(Or(a, c), b);
    BitsExtensional(Or(Or(a, b), c), Or(Or(a, c), b));
  }

  lemma OrAt(hi: nat, lo: nat, k: nat, q: nat, top: nat)
    requires q == Pow2(k) && lo < q && top == hi * q
    ensures Or(top, lo) == top + lo
  {
    OrDisjoint(hi, lo, k);
  }

  /** A field of `j` bits goes into its place at bit `k`, between what is above and below it. */
  lemma InsertField(h: nat, j: nat, k: nat, field: nat, low: nat, p: nat, q: nat)
    requires p == Pow2(j) && q == Pow2(k) && field < p && low < q
    ensures Or(h * (p * q) + low, field * q) == (h * p + field) * q + low
  {
    InsertProducts(h, j, k, field, low, p, q, p * q, h * (p * q), field * q, (h * p + field) * q);
  }

  lemma Pow2Product(j: nat, k: nat, p: nat, q: nat)
    requires p == Pow2(j) && q == Pow2(k)
    ensures p * q == Pow2(j + k)
  {
    Pow2Add(j, k);
  }

  lemma InsertProducts(h: nat, j: nat, k: nat, field: nat, low: nat, p: nat, q: nat, pq: nat, top: nat, mid: nat, both: nat)
    requires p == Pow2(j) && q == Pow2(k) && field < p && low < q
    requires pq == p * q && top == h * pq && mid == field * q && both == (h * p + field) * q
    ensures Or(top + low, mid) == both + low
  {
    Pow2Product(j, k, p, q);
    InsertAt(h, p, q, field);
    InsertIn(h, j, k, field, low, p, q, pq, top, mid, both);
  }

  lemma InsertIn(h: nat, j: nat, k: nat, field: nat, low: nat, p: nat, q: nat, pq: nat, top: nat, mid: nat, both: nat)
    requires q == Pow2(k) && pq == Pow2(j + k) && low < q && mid < pq
    requires top == h * pq == (h * p) * q && mid == field * q && both == (h * p + field) * q == top + mid
    ensures Or(top + low, mid) == both + low
  {
    OrAt(h * p, low, k, q, top);
    OrAt(h, mid, j + k, pq, top);
    OrAt(h * p + field, low, k, q, both);
    InsertBetween(top, low, mid, both);
  }

  lemma InsertBetween(top: nat, low: nat, mid: nat, both: nat)
    requires Or(top, low) == top + low && Or(top, mid) == both && Or(both, low) == both + low
    ensures Or(top + low, mid) == both + low
  {
    OrSwap(top, low, mid);
  }

  lemma InsertAt(h: nat, p: nat, q: nat, field: nat)
    requires field < p && q > 0
    ensures h * (p * q) == (h * p) * q && (h * p + field) * q == (h * p) * q + field * q && field * q < p * q
  {
    MulAtLeast(q, p, field + 1);
  }

  /** The two register fields at the bottom of most words. */
  function Operands(upper: nat, rn: Reg, rt: Reg): nat {
    (upper * 32 + rn) * 32 + rt
  }

  lemma PackOperands(upper: nat, rn: Reg, rt: Reg)
    ensures Or(Or(upper * 0x400, Shl(rn, 5)), rt) == Operands(upper, rn, rt)
  {
    Pow2Twenties();
    OrDisjoint(upper, rn * 32, 10);
    OrDisjoint(upper * 32 + rn, rt, 5);
  }

  lemma UnpackOperands(upper: nat, rn: Reg, rt: Reg)
    ensures var w := Operands(upper, rn, rt);
      w / 0x400 == upper && (w / 32) % 32 == rn && w % 32 == rt
  {
    var w := Operands(upper, rn, rt);
    Bits.DivUnique(w, 32, upper * 32 + rn, rt);
    Bits.DivUnique(upper * 32 + rn, 32, upper, rn);
    Bits.DivUnique(w, 0x400, upper, rn * 32 + rt);
  }

  // ---- loads and stores ----

  /** A load or store: which one (the ten bits above the offset, in their scaled form), its byte
      offset from the base register, and the registers. */
  datatype Access = Access(which: nat, offset: int, rn: nat, rt: nat)

  /** Bit 24 tells the scaled 12-bit offset from the unscaled signed 9-bit one. */
  function DecodeAccess(w: nat, scale: nat): Option<Access> {
    var upper, rn, rt := w / 0x400, (w / 32) % 32, w % 32;
    var which, field := upper / 4096, upper % 4096;
    if which / 4 % 2 == 1 then Some(Access(which, field * scale, rn, rt))
    else if field < 2048 && field % 4 == 0 then Some(Access(which + 4, SignExtend(field / 4, 9), rn, rt))
    else None
  }

  predicate IsScaled(bytes: nat, scale: nat)
    requires scale > 0
  {
    bytes <= 4095 * scale && bytes % scale == 0
  }

  function ScaledWord(base: nat, field: nat, rn: Reg, rt: Reg): nat {
    Or(Or(Or(base, Shl(field, 10)), Shl(rn, 5)), rt)
  }

  function UnscaledWord(base: nat, bytes: nat, rn: Reg, rt: Reg): nat {
    Or(Or(Or(base, Shl(bytes, 12)), Shl(rn, 5)), rt)
  }

  /** The scaled form where the offset allows it, the unscaled form otherwise. */
  function EncodeMemOffset(base: nat, bytes: nat, scale: nat, rn: Reg, rt: Reg): Option<nat>
    requires scale > 0
  {
    if IsScaled(bytes, scale) then Some(ScaledWord(base, bytes / scale, rn, rt))
    else if bytes > 255 || base < 0x100_0000 then None
    else Some(UnscaledWord(base - 0x100_0000, bytes, rn, rt))
  }

  lemma AccessWord(which: nat, field: nat, scale: nat, rn: Reg, rt: Reg)
    requires field < 4096
    ensures DecodeAccess(Word12(which, field, rn, rt), scale) ==
      if which / 4 % 2 == 1 then Some(Access(which, field * scale, rn, rt))
      else if field < 2048 && field % 4 == 0 then Some(Access(which + 4, SignExtend(field / 4, 9), rn, rt))
      else None
  {
    UnpackOperands(which * 4096 + field, rn, rt);
    Bits.DivUnique(which * 4096 + field, 4096, which, field);
  }

  lemma SmallSigned(bytes: nat)
    requires bytes <= 255
    ensures SignExtend(bytes, 9) == bytes && (4 * bytes) / 4 == bytes && (4 * bytes) % 4 == 0
  {
    Pow2Constants();
  }

  /** Whatever offset is encoded, the word decodes to it, with the same op and registers. */
  lemma EncodedOffsetDecodes(which: nat, bytes: nat, scale: nat, rn: Reg, rt: Reg)
    requires scale > 0 && which / 4 % 2 == 1
    ensures var w := EncodeMemOffset(which * 0x40_0000, bytes, scale, rn, rt);
      w.Some? ==> DecodeAccess(w.value, scale) == Some(Access(which, bytes, rn, rt))
  {
    var base := which * 0x40_0000;
    if IsScaled(bytes, scale) {
      ScaledDecodes(which, bytes, scale, bytes / scale, rn, rt);
    } else if bytes <= 255 {
      assert base - 0x100_0000 == (which - 4) * 0x40_0000;
      UnscaledDecodes(which - 4, base - 0x100_0000, bytes, scale, rn, rt);
    }
  }

  lemma ScaledDecodes(which: nat, bytes: nat, scale: nat, field: nat, rn: Reg, rt: Reg)
    requires which / 4 % 2 == 1 && scale > 0 && IsScaled(bytes, scale) && field == bytes / scale
    ensures DecodeAccess(ScaledWord(which * 0x40_0000, field, rn, rt), scale) == Some(Access(which, bytes, rn, rt))
  {
    ScaledField(bytes, scale, field);
    Packed12(which, field, rn, rt);
    AccessWord(which, field, scale, rn, rt);
  }

  lemma UnscaledDecodes(which: nat, base: nat, bytes: nat, scale: nat, rn: Reg, rt: Reg)
    requires which / 4 % 2 == 0 && base == which * 0x40_0000 && bytes <= 255
    ensures DecodeAccess(UnscaledWord(base, bytes, rn, rt), scale) == Some(Access(which + 4, bytes, rn, rt))
  {
    SmallSigned(bytes);
    assert Shl(bytes, 12) == Shl(4 * bytes, 10) by {
      Pow2Twenties();
      Pow2Constants();
    }
    Packed12(which, 4 * bytes, rn, rt);
    AccessWord(which, 4 * bytes, scale, rn, rt);
  }

  lemma ScaledField(bytes: nat, scale: nat, field: nat)
    requires scale > 0 && IsScaled(bytes, scale) && field == bytes / scale
    ensures field < 4096 && field * scale == bytes
  {
    assert bytes == scale * field;
    FieldBound(scale, field);
  }

  lemma FieldBound(scale: nat, field: nat)
    requires scale > 0 && scale * field <= scale * 4095
    ensures field <= 4095
  {
    if field >= 4096 {
      MulAtLeast(scale, field, 4096);
    }
  }

  /** And an offset that is refused has no word at all. */
  lemma RefusedOffsetHasNoWord(which: nat, bytes: nat, scale: nat, rn: Reg, rt: Reg, w: nat)
    requires scale > 0 && which / 4 % 2 == 1 && DecodeAccess(w, scale) == Some(Access(which, bytes, rn, rt))
    ensures EncodeMemOffset(which * 0x40_0000, bytes, scale, rn, rt).Some?
  {
    var field := w / 0x400 % 4096;
    if w / 0x400 / 4096 / 4 % 2 == 1 {
      MulAtLeast(scale, 4095, field);
      Bits.DivUnique(bytes, scale, field, 0);
    } else {
      Pow2Constants();
      assert SignExtend(field / 4, 9) == bytes;
    }
  }

  // ---- pushes and pops ----

  /** A push or a pop of one register: `str rt, [sp, #-bytes]!` and `ldr rt, [sp], #bytes`. The
      amount the stack pointer moves by is a signed 9-bit field. */
  datatype StackMove = Push(rt: nat, moved: int) | Pop(rt: nat, moved: int)

  function DecodeStackMove(w: nat): Option<StackMove> {
    var field, low := (w / 0x1000) % 512, (w / 0x400) % 4;
    if (w / 32) % 32 != 31 then None
    else if w / 0x20_0000 == 0x7c0 && low == 3 then Some(Push(w % 32, SignExtend(field, 9)))
    else if w / 0x20_0000 == 0x7c2 && low == 1 then Some(Pop(w % 32, SignExtend(field, 9)))
    else None
  }

  function EncodePush(bytes: nat, rt: Reg): Option<nat> {
    if bytes > 256 || bytes % 8 != 0 then None
    else Some(Or(Or(Or(0xf800_0c00, Shl(And(512 - bytes, 0x1ff), 12)), Shl(31, 5)), rt))
  }

  function EncodePop(bytes: nat, rt: Reg): Option<nat> {
    if bytes > 255 || bytes % 8 != 0 then None
    else Some(Or(Or(Or(0xf840_0400, Shl(bytes, 12)), Shl(31, 5)), rt))
  }

  lemma StackWord(h: nat, field: nat, low: nat, rt: Reg)
    requires field < 512 && low < 4
    ensures Or(Or(Or(h * 0x20_0000 + low * 0x400, Shl(field, 12)), Shl(31, 5)), rt)
         == Operands((h * 512 + field) * 4 + low, 31, rt)
  {
    StackUpper(h, field, low);
    PackOperands((h * 512 + field) * 4 + low, 31, rt);
  }

  lemma StackUpper(h: nat, field: nat, low: nat)
    requires field < 512 && low < 4
    ensures Or(h * 0x20_0000 + low * 0x400, Shl(field, 12)) == ((h * 512 + field) * 4 + low) * 0x400
  {
    assert Pow2(9) == 512 && Pow2(12) == 0x1000 by { Pow2Constants(); }
    InsertField(h, 9, 12, field, low * 0x400, 512, 0x1000);
  }

  lemma StackFields(h: nat, field: nat, low: nat, rt: Reg)
    requires field < 512 && low < 4
    ensures var w := Operands((h * 512 + field) * 4 + low, 31, rt);
      && w / 0x20_0000 == h && (w / 0x1000) % 512 == field && (w / 0x400) % 4 == low
      && (w / 32) % 32 == 31 && w % 32 == rt
  {
    var upper := (h * 512 + field) * 4 + low;
    var w := Operands(upper, 31, rt);
    UnpackOperands(upper, 31, rt);
    Bits.DivUnique(upper, 4, h * 512 + field, low);
    Bits.DivUnique(w, 0x1000, h * 512 + field, low * 0x400 + 31 * 32 + rt);
    Bits.DivUnique(h * 512 + field, 512, h, field);
    Bits.DivUnique(w, 0x20_0000, h, field * 0x1000 + low * 0x400 + 31 * 32 + rt);
  }

  lemma PushField(bytes: nat)
    requires bytes <= 256
    ensures And(512 - bytes, 0x1ff) < 512 && SignExtend(And(512 - bytes, 0x1ff), 9) == 0 - bytes
  {
    Pow2Constants();
    AndMask(512 - bytes, 9);
  }

  lemma PushDecodes(bytes: nat, field: nat, rt: Reg)
    requires bytes <= 256 && field == And(512 - bytes, 0x1ff)
    ensures DecodeStackMove(Or(Or(Or(0xf800_0c00, Shl(field, 12)), Shl(31, 5)), rt)) == Some(Push(rt, 0 - bytes))
  {
    PushField(bytes);
    StackWord(0x7c0, field, 3, rt);
    StackFields(0x7c0, field, 3, rt);
  }

  lemma PopDecodes(bytes: nat, rt: Reg)
    requires bytes <= 255
    ensures DecodeStackMove(Or(Or(Or(0xf840_0400, Shl(bytes, 12)), Shl(31, 5)), rt)) == Some(Pop(rt, bytes))
  {
    SmallSigned(bytes);
    StackWord(0x7c2, bytes, 1, rt);
    StackFields(0x7c2, bytes, 1, rt);
  }

  /** A push moves the stack pointer down by its bytes and a pop of as many moves it back; the one
      amount that can be pushed and not popped is 256. */
  lemma PopUndoesPush(bytes: nat, rt: Reg)
    ensures EncodePush(bytes, rt).Some? ==> DecodeStackMove(EncodePush(bytes, rt).value) == Some(Push(rt, 0 - bytes))
    ensures EncodePop(bytes, rt).Some? ==> DecodeStackMove(EncodePop(bytes, rt).value) == Some(Pop(rt, bytes))
    ensures EncodePush(bytes, rt).Some? ==> (EncodePop(bytes, rt).Some? <==> bytes != 256)
  {
    if EncodePush(bytes, rt).Some? {
      PushDecodes(bytes, And(512 - bytes, 0x1ff), rt);
    }
    if EncodePop(bytes, rt).Some? {
      PopDecodes(bytes, rt);
    }
  }

  lemma NineBits(w: nat)
    ensures -256 <= SignExtend((w / 0x1000) % 512, 9) < 256
  {
    Pow2Constants();
  }

  /** What is refused: amounts that no word moves by, and those that are no multiple of eight. */
  lemma StackMovesTaken(bytes: nat, rt: Reg)
    ensures EncodePush(bytes, rt).Some? <==> bytes % 8 == 0 && exists w: nat :: DecodeStackMove(w) == Some(Push(rt, 0 - bytes))
    ensures EncodePop(bytes, rt).Some? <==> bytes % 8 == 0 && exists w: nat :: DecodeStackMove(w) == Some(Pop(rt, bytes))
  {
    PopUndoesPush(bytes, rt);
    if w: nat :| DecodeStackMove(w) == Some(Push(rt, 0 - bytes)) {
      NineBits(w);
    }
    if w: nat :| DecodeStackMove(w) == Some(Pop(rt, bytes)) {
      NineBits(w);
    }
  }

  // ---- wide moves ----

  /** `movz`, `movn` and `movk`: which (the nine bits above the shift), the immediate and the shift. */
  datatype WideMove = WideMove(which: nat, imm: nat, shift: nat, rd: nat)

  function DecodeWideMove(w: nat): WideMove {
    WideMove(w / 0x80_0000, (w / 32) % 0x1_0000, 16 * ((w / 0x20_0000) % 4), w % 32)
  }

  function EncodeWideMove(base: nat, imm: nat, shift: nat, rd: Reg): Option<nat> {
    if shift > 48 || shift % 16 != 0 then None
    else Some(Or(Or(Or(base, Shl(shift / 16, 21)), Shl(And(imm, 0xffff), 5)), rd))
  }

  /** The word moves the low 16 bits of the immediate: it moves the immediate itself exactly when
      that is below 2^16. */
  lemma WideMoveKeepsLowBits(which: nat, imm: nat, shift: nat, rd: Reg)
    requires EncodeWideMove(which * 0x80_0000, imm, shift, rd).Some?
    ensures var m := DecodeWideMove(EncodeWideMove(which * 0x80_0000, imm, shift, rd).value);
      && m == WideMove(which, imm % 0x1_0000, shift, rd)
      && (m.imm == imm <==> imm < 0x1_0000)
  {
    LowHalfWord(imm);
    WideMoveDecodes(which, shift / 16, And(imm, 0xffff), rd);
  }

  /** What is refused: shifts that no word has. */
  lemma WideMovesTaken(which: nat, imm: nat, shift: nat, rd: Reg)
    ensures EncodeWideMove(which * 0x80_0000, imm, shift, rd).Some? <==> exists w: nat :: DecodeWideMove(w).shift == shift
  {
    if EncodeWideMove(which * 0x80_0000, imm, shift, rd).Some? {
      WideMoveKeepsLowBits(which, imm, shift, rd);
      assert DecodeWideMove(EncodeWideMove(which * 0x80_0000, imm, shift, rd).value).shift == shift;
    }
    if w: nat :| DecodeWideMove(w).shift == shift {
      assert shift == 16 * ((w / 0x20_0000) % 4);
    }
  }

  lemma WideMoveDecodes(which: nat, hw: nat, low: nat, rd: Reg)
    requires hw < 4 && low < 0x1_0000
    ensures DecodeWideMove(Or(Or(Or(which * 0x80_0000, Shl(hw, 21)), Shl(low, 5)), rd)) == WideMove(which, low, 16 * hw, rd)
  {
    WideMoveWord(which, hw, low, rd);
    WideMoveFields(which, hw, low, rd, Or(Or(Or(which * 0x80_0000, Shl(hw, 21)), Shl(low, 5)), rd));
  }

  lemma LowHalfWord(imm: nat)
    ensures And(imm, 0xffff) == imm % 0x1_0000 < 0x1_0000
    ensures imm % 0x1_0000 == imm <==> imm < 0x1_0000
  {
    Pow2Constants();
    AndMask(imm, 16);
  }

  lemma WideMoveWord(which: nat, hw: nat, low: nat, rd: Reg)
    requires hw < 4 && low < 0x1_0000
    ensures Or(Or(Or(which * 0x80_0000, Shl(hw, 21)), Shl(low, 5)), rd)
         == ((which * 4 + hw) * 0x1_0000 + low) * 32 + rd
  {
    ShiftUpper(which, hw);
    ImmediateUpper(which * 4 + hw, low);
    LowestField((which * 4 + hw) * 0x1_0000 + low, rd);
    OrTwice(which * 0x80_0000, Shl(hw, 21), Shl(low, 5), rd,
            (which * 4 + hw) * 0x20_0000, ((which * 4 + hw) * 0x1_0000 + low) * 32);
  }

  lemma OrTwice(a: nat, b: nat, c: nat, d: nat, ab: nat, abc: nat)
    requires Or(a, b) == ab && Or(ab, c) == abc
    ensures Or(Or(Or(a, b), c), d) == Or(abc, d)
  {
  }

  lemma LowestField(upper: nat, rd: Reg)
    ensures Or(upper * 32, rd) == upper * 32 + rd
  {
    assert Pow2(5) == 32;
    OrDisjoint(upper, rd, 5);
  }

  lemma ShiftUpper(which: nat, hw: nat)
    requires hw < 4
    ensures Or(which * 0x80_0000, Shl(hw, 21)) == (which * 4 + hw) * 0x20_0000
  {
    assert Pow2(21) == 0x20_0000 && Pow2(23) == 0x80_0000 by {
      Pow2Constants();
      Pow2Add(16, 5);
      Pow2Add(18, 5);
    }
    OrAt(which, hw * 0x20_0000, 23, 0x80_0000, which * 0x80_0000);
  }

  lemma ImmediateUpper(u: nat, low: nat)
    requires low < 0x1_0000
    ensures Or(u * 0x20_0000, Shl(low, 5)) == (u * 0x1_0000 + low) * 32
  {
    assert Pow2(21) == 0x20_0000 && Pow2(5) == 32 by {
      Pow2Constants();
      Pow2Add(16, 5);
    }
    OrAt(u, low * 32, 21, 0x20_0000, u * 0x20_0000);
  }

  lemma WideMoveFields(which: nat, hw: nat, low: nat, rd: Reg, w: nat)
    requires hw < 4 && low < 0x1_0000 && w == ((which * 4 + hw) * 0x1_0000 + low) * 32 + rd
    ensures DecodeWideMove(w) == WideMove(which, low, 16 * hw, rd)
  {
    var upper := (which * 4 + hw) * 0x1_0000 + low;
    Bits.DivUnique(w, 32, upper, rd);
    Bits.DivUnique(upper, 0x1_0000, which * 4 + hw, low);
    Bits.DivUnique(w, 0x20_0000, which * 4 + hw, low * 32 + rd);
    Bits.DivUnique(which * 4 + hw, 4, which, hw);
    Bits.DivUnique(w, 0x80_0000, which, hw * 0x20_0000 + low * 32 + rd);
  }

  // ---- vector shifts by an immediate ----

  /** The lane width and the shift that the seven-bit field stands for: the lane is the power of
      two at its top, the shift what the field is above that, or below its double. */
  function LaneOf(field: nat): nat {
    if field < 16 then 8 else if field < 32 then 16 else if field < 64 then 32 else 64
  }

  function ShiftOf(field: nat, right: bool): int {
    if right then 2 * LaneOf(field) - field else field - LaneOf(field)
  }

  function ShiftField(lane: nat, amount: nat, right: bool): Option<nat> {
    if right then if amount == 0 || amount > lane then None else Some(2 * lane - amount)
    else if amount >= lane then None else Some(lane + amount)
  }

  function EncodeVectorShift(base: nat, lane: nat, amount: nat, right: bool, rn: Reg, rd: Reg): Option<nat> {
    match ShiftField(lane, amount, right)
    case None => None
    case Some(field) => Some(Or(Or(Or(base, Shl(field, 16)), Shl(rn, 5)), rd))
  }

  /** The field and the parts of the word around it. */
  lemma VectorShiftDecodes(h: nat, low: nat, lane: nat, amount: nat, right: bool, rn: Reg, rd: Reg)
    requires lane in {8, 16, 32, 64} && low < 64
    ensures var w := EncodeVectorShift(h * 0x80_0000 + low * 0x400, lane, amount, right, rn, rd);
      && (w.Some? <==> if right then 1 <= amount <= lane else amount < lane)
      && (w.Some? ==>
            var field := (w.value / 0x1_0000) % 128;
            && LaneOf(field) == lane && ShiftOf(field, right) == amount
            && w.value / 0x80_0000 == h && (w.value / 0x400) % 64 == low
            && (w.value / 32) % 32 == rn && w.value % 32 == rd)
  {
    var field := ShiftField(lane, amount, right);
    if field.Some? {
      VectorWord(h, field.value, low, rn, rd);
      VectorFields(h, field.value, low, rn, rd);
    }
  }

  lemma VectorWord(h: nat, field: nat, low: nat, rn: Reg, rd: Reg)
    requires field < 128 && low < 64
    ensures Or(Or(Or(h * 0x80_0000 + low * 0x400, Shl(field, 16)), Shl(rn, 5)), rd)
         == Operands((h * 128 + field) * 64 + low, rn, rd)
  {
    VectorUpper(h, field, low);
    PackOperands((h * 128 + field) * 64 + low, rn, rd);
  }

  lemma VectorUpper(h: nat, field: nat, low: nat)
    requires field < 128 && low < 64
    ensures Or(h * 0x80_0000 + low * 0x400, Shl(field, 16)) == ((h * 128 + field) * 64 + low) * 0x400
  {
    assert Pow2(7) == 128 && Pow2(16) == 0x1_0000 by {
      Pow2Constants();
      Pow2Add(4, 3);
    }
    InsertField(h, 7, 16, field, low * 0x400, 128, 0x1_0000);
  }

  lemma VectorFields(h: nat, field: nat, low: nat, rn: Reg, rd: Reg)
    requires field < 128 && low < 64
    ensures var w := Operands((h * 128 + field) * 64 + low, rn, rd);
      && w / 0x80_0000 == h && (w / 0x1_0000) % 128 == field && (w / 0x400) % 64 == low
      && (w / 32) % 32 == rn && w % 32 == rd
  {
    var upper := (h * 128 + field) * 64 + low;
    var w := Operands(upper, rn, rd);
    UnpackOperands(upper, rn, rd);
    Bits.DivUnique(upper, 64, h * 128 + field, low);
    Bits.DivUnique(w, 0x1_0000, h * 128 + field, low * 0x400 + rn * 32 + rd);
    Bits.DivUnique(h * 128 + field, 128, h, field);
    Bits.DivUnique(w, 0x80_0000, h, field * 0x1_0000 + low * 0x400 + rn * 32 + rd);
  }

  // ---- calls ----

  datatype Call = Local(word: nat) | External(callee: string) | OutOfRange

  /** A callee of the module is reached by `bl`, any other by a relocation. */
  function EncodeCall(offsets: map<string, nat>, callee: string, pc: nat): Call {
    if callee !in offsets then External(callee)
    else
      var words := TruncDiv4(offsets[callee] - pc);
      if !(-0x200_0000 <= words < 0x200_0000) then OutOfRange
      else Local(Or(0x9400_0000, And(AsU32(words), 0x03ff_ffff)))
  }

  /** `bl` adds its signed 26-bit word distance to the pc. */
  function CallTarget(w: nat, pc: nat): Option<int> {
    if w / 0x400_0000 == 0x25 then Some(pc + 4 * SignExtend(w % 0x400_0000, 26)) else None
  }

  /** A local call lands on the callee; it is refused exactly when the callee is 128 MiB away or
      more. */
  lemma CallLands(offsets: map<string, nat>, callee: string, pc: nat)
    requires callee in offsets && (offsets[callee] - pc) % 4 == 0
    ensures EncodeCall(offsets, callee, pc).OutOfRange? <==> !(-0x800_0000 <= offsets[callee] - pc < 0x800_0000)
    ensures !EncodeCall(offsets, callee, pc).OutOfRange? ==>
      EncodeCall(offsets, callee, pc).Local? && CallTarget(EncodeCall(offsets, callee, pc).word, pc) == Some(offsets[callee])
  {
    AlignedDelta(offsets[callee], pc);
    var words := TruncDiv4(offsets[callee] - pc);
    if -0x200_0000 <= words < 0x200_0000 {
      CallWord(words, And(AsU32(words), 0x03ff_ffff), pc);
    }
  }

  lemma CallWord(words: int, field: nat, pc: nat)
    requires -0x200_0000 <= words < 0x200_0000 && field == And(AsU32(words), 0x03ff_ffff)
    ensures CallTarget(Or(0x9400_0000, field), pc) == Some(pc + 4 * words)
  {
    FieldB(words);
    CallBits(field);
  }

  lemma CallBits(field: nat)
    requires field < 0x400_0000
    ensures var w := Or(0x9400_0000, field); w / 0x400_0000 == 0x25 && w % 0x400_0000 == field
  {
    Pow2Constants();
    OrDisjoint(0x25, field, 26);
    Bits.DivUnique(0x9400_0000 + field, 0x400_0000, 0x25, field);
  }
}
