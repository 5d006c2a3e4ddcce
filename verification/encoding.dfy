/** Branch encoding: which words a branch terminator becomes depends on the block that follows it. */
module Encoding {
  import opened Bits
  import opened Wrappers
  import opened A64

  type Reg = r: nat | r < 32

  /** A non-branch instruction: one word, or the three words of a pc-relative address. */
  datatype Inst = One(word: Word) | Address(adr: Word, low: Word, high: Word)

  datatype Term =
    | B(target: nat)
    | BCond(cond: Cond, taken: nat, notTaken: nat)
    | Cbnz(rn: Reg, taken: nat, notTaken: nat)
    | Exit(word: Word)

  datatype Block = Block(body: seq<Inst>, term: Term)

  /** One machine word of a branch terminator. */
  datatype BranchWord = WordB(target: nat) | WordBCond(cond: Cond, target: nat) | WordCbnz(rn: Reg, target: nat)

  /** The words a terminator encodes to when `next` follows its block; `ret`/`brk` has none. */
  function BranchWords(t: Term, next: Option<nat>): (words: seq<BranchWord>)
    ensures |words| <= 2
  {
    match t
    case B(target) => if Some(target) == next then [] else [WordB(target)]
    case Cbnz(rn, taken, notTaken) =>
      [WordCbnz(rn, taken)] + if Some(notTaken) != next then [WordB(notTaken)] else []
    case BCond(cond, taken, notTaken) =>
      if Some(notTaken) == next then [WordBCond(cond, taken)]
      else if Some(taken) == next then [WordBCond(Invert(cond), notTaken)]
      else [WordBCond(cond, taken), WordB(notTaken)]
    case Exit(_) => []
  }

  /** A branch costs nothing exactly when it goes to the block that follows, and two words exactly
      when it is conditional and what a single word falls through to is not that block; `cbnz` is
      never inverted for it. */
  lemma BranchLength(t: Term, next: Option<nat>)
    requires !t.Exit?
    ensures |BranchWords(t, next)| == 0 <==> t.B? && next == Some(t.target)
    ensures |BranchWords(t, next)| == 2 <==> !t.B? && next != Some(t.notTaken) && (t.Cbnz? || next != Some(t.taken))
  {
  }

  /** Rust's integer division truncates toward zero. */
  function TruncDiv4(x: int): int {
    if x >= 0 then x / 4 else -((-x) / 4)
  }

  function AsU32(x: int): (w: Word) {
    x % 0x1_0000_0000
  }

  /** The range checks: 26 signed bits of words for `b`, 19 for `b.cond` and `cbnz`. */
  predicate InRange(w: BranchWord, target: nat, pc: nat) {
    var reach := if w.WordB? then 0x200_0000 else 0x4_0000;
    -reach <= TruncDiv4(target - pc) < reach
  }

  /** How far a branch reaches, in bytes: 128 MiB for `b`, 1 MiB for `b.cond` and `cbnz`. */
  function Reach(w: BranchWord): int {
    if w.WordB? then 0x800_0000 else 0x10_0000
  }

  /** A distance a word can hold. Truncation lets up to three bytes more through at the far end,
      which whole words apart never are. */
  predicate Near(w: BranchWord, distance: int) {
    -Reach(w) - 4 < distance < Reach(w)
  }

  /** The check accepts exactly the distances within reach. */
  lemma InRangeIsNear(w: BranchWord, target: nat, pc: nat)
    ensures InRange(w, target, pc) <==> Near(w, target - pc)
    ensures (target - pc) % 4 == 0 ==> (InRange(w, target, pc) <==> -Reach(w) <= target - pc < Reach(w))
  {
  }

  /** The branch that a word stands for, once its distance in words is known. */
  function Meaning(w: BranchWord, words: int): Decoded {
    match w
    case WordB(_) => DecB(words)
    case WordBCond(cond, _) => DecBCond(CondEncoding(cond), words)
    case WordCbnz(rn, _) => DecCbnz(rn, words)
  }

  lemma FieldReaches(field: nat, bits: nat)
    requires bits > 0 && field < Pow2(bits)
    ensures 0 - Pow2(bits - 1) <= SignExtend(field, bits) < Pow2(bits - 1)
  {
    assert Pow2(bits) == 2 * Pow2(bits - 1);
  }

  /** Nothing is refused that could be encoded: no word is that branch over a refused distance. */
  lemma RefusedBranchHasNoWord(w: BranchWord, target: nat, pc: nat, word: Word)
    requires (target - pc) % 4 == 0 && Decode(word) == Meaning(w, (target - pc) / 4)
    ensures InRange(w, target, pc)
  {
    Pow2Constants();
    FieldReaches(word % 0x400_0000, 26);
    FieldReaches((word / 32) % 0x8_0000, 19);
    AlignedDelta(target, pc);
  }

  function EncodeB(target: nat, pc: nat): Word
    requires InRange(WordB(0), target, pc)
  {
    var delta := TruncDiv4(target - pc);
    FieldB(delta);
    Or(0x1400_0000, And(AsU32(delta), 0x03ff_ffff))
  }

  function EncodeCbnz(rn: Reg, target: nat, pc: nat): Word
    requires InRange(WordCbnz(rn, 0), target, pc)
  {
    var delta := TruncDiv4(target - pc);
    ImmediateField19(0xb5, delta, rn);
    Or(Or(0xb500_0000, Shl(And(AsU32(delta), 0x7ffff), 5)), rn)
  }

  function EncodeBCond(cond: Cond, target: nat, pc: nat): Word
    requires InRange(WordBCond(cond, 0), target, pc)
  {
    var delta := TruncDiv4(target - pc);
    ImmediateField19(0x54, delta, CondEncoding(cond));
    Or(Or(0x5400_0000, Shl(And(AsU32(delta), 0x7ffff), 5)), CondEncoding(cond))
  }

  /** The machine word of a branch word, once its target's offset is known. */
  function EncodeWord(w: BranchWord, target: nat, pc: nat): (r: Result<Word, string>)
    ensures r.Ok? <==> Near(w, target - pc)
  {
    InRangeIsNear(w, target, pc);
    if !InRange(w, target, pc) then
      Err(match w
          case WordB(_) => "branch target is out of B range"
          case WordBCond(_, _) => "branch target is out of B.cond range"
          case WordCbnz(_, _) => "branch target is out of CBNZ range")
    else
      Ok(match w
         case WordB(_) => EncodeB(target, pc)
         case WordBCond(cond, _) => EncodeBCond(cond, target, pc)
         case WordCbnz(rn, _) => EncodeCbnz(rn, target, pc))
  }

  /** The signed word distance of a 4-aligned byte distance, and its field of `bits` bits. */
  lemma FieldRoundTrip(delta: int, bits: nat)
    requires 0 < bits < 32 && 0 <= delta + Pow2(bits - 1) < Pow2(bits)
    ensures SignExtend(And(AsU32(delta), Pow2(bits) - 1), bits) == delta
    ensures And(AsU32(delta), Pow2(bits) - 1) < Pow2(bits)
  {
    var u, p := AsU32(delta), Pow2(bits);
    AndMask(u, bits);
    Pow2Add(bits, 32 - bits);
    Pow2Constants();
    Bits.ModMod(delta, p, Pow2(32 - bits));
    if delta >= 0 {
      Bits.DivUnique(delta, p, 0, delta);
    } else {
      Bits.DivUnique(delta, p, -1, delta + p);
    }
  }

  lemma AlignedDelta(target: nat, pc: nat)
    requires (target - pc) % 4 == 0
    ensures TruncDiv4(target - pc) == (target - pc) / 4 && pc + 4 * ((target - pc) / 4) == target
  {
  }

  lemma DecodeB(field: nat)
    requires field < 0x400_0000
    ensures Decode(0x1400_0000 + field) == DecB(SignExtend(field, 26))
  {
    Bits.DivUnique(0x1400_0000 + field, 0x400_0000, 0x05, field);
  }

  lemma FieldB(delta: int)
    requires -0x200_0000 <= delta < 0x200_0000
    ensures var field := And(AsU32(delta), 0x03ff_ffff);
      && field < 0x400_0000 && SignExtend(field, 26) == delta
      && Or(0x1400_0000, field) == 0x1400_0000 + field
  {
    Pow2Constants();
    FieldRoundTrip(delta, 26);
    OrDisjoint(0x05, And(AsU32(delta), 0x03ff_ffff), 26);
  }

  /** An accepted, 4-aligned `b` decodes to a branch that lands on its target. */
  lemma EncodedBLands(target: nat, pc: nat)
    requires (target - pc) % 4 == 0 && InRange(WordB(0), target, pc)
    ensures Decode(EncodeB(target, pc)) == DecB((target - pc) / 4)
    ensures pc + 4 * ((target - pc) / 4) == target
  {
    AlignedDelta(target, pc);
    var delta := TruncDiv4(target - pc);
    FieldB(delta);
    DecodeB(And(AsU32(delta), 0x03ff_ffff));
  }

  /** The shape B.cond and CBNZ share: eight opcode bits, a signed 19-bit word distance and a
      five-bit low field. */
  lemma ImmediateField19(base: nat, delta: int, low: nat)
    requires base < 256 && low < 32 && -0x4_0000 <= delta < 0x4_0000
    ensures var w := Or(Or(base * 0x100_0000, Shl(And(AsU32(delta), 0x7ffff), 5)), low);
      && w < U32 && w / 0x100_0000 == base && w % 32 == low
      && SignExtend((w / 32) % 0x8_0000, 19) == delta
  {
    var field := And(AsU32(delta), 0x7ffff);
    FieldRoundTrip19(delta);
    OrIsPacking(base, field, low);
    PackedFields(base, field, low, Or(Or(base * 0x100_0000, Shl(field, 5)), low));
  }

  lemma FieldRoundTrip19(delta: int)
    requires -0x4_0000 <= delta < 0x4_0000
    ensures And(AsU32(delta), 0x7ffff) < 0x8_0000
    ensures SignExtend(And(AsU32(delta), 0x7ffff), 19) == delta
  {
    Pow2Constants();
    FieldRoundTrip(delta, 19);
  }

  lemma OrIsPacking(base: nat, field: nat, low: nat)
    requires field < 0x8_0000 && low < 32
    ensures Or(Or(base * 0x100_0000, Shl(field, 5)), low) == (base * 0x8_0000 + field) * 32 + low
  {
    Pow2Constants();
    OrDisjoint(base, field * 32, 24);
    OrDisjoint(base * 0x8_0000 + field, low, 5);
  }

  lemma PackedFields(base: nat, field: nat, low: nat, w: nat)
    requires base < 256 && field < 0x8_0000 && low < 32 && w == (base * 0x8_0000 + field) * 32 + low
    ensures w < U32 && w / 0x100_0000 == base && w % 32 == low && (w / 32) % 0x8_0000 == field
  {
    var hi := base * 0x8_0000 + field;
    Bits.DivUnique(hi * 32 + low, 32, hi, low);
    Bits.DivUnique(hi, 0x8_0000, base, field);
    Bits.DivUnique(hi * 32 + low, 0x100_0000, base, field * 32 + low);
  }

  lemma DecodeCbnz(w: Word)
    requires w / 0x100_0000 == 0xb5
    ensures Decode(w) == DecCbnz(w % 32, SignExtend((w / 32) % 0x8_0000, 19))
  {
  }

  lemma DecodeBCond(w: Word)
    requires w / 0x100_0000 == 0x54 && w % 32 < 16
    ensures Decode(w) == DecBCond(w % 32, SignExtend((w / 32) % 0x8_0000, 19))
  {
    assert w % 16 == w % 32 && (w / 16) % 2 == 0;
  }

  lemma EncodedCbnzLands(rn: Reg, target: nat, pc: nat)
    requires (target - pc) % 4 == 0 && InRange(WordCbnz(rn, 0), target, pc)
    ensures Decode(EncodeCbnz(rn, target, pc)) == DecCbnz(rn, (target - pc) / 4)
    ensures pc + 4 * ((target - pc) / 4) == target
  {
    AlignedDelta(target, pc);
    ImmediateField19(0xb5, TruncDiv4(target - pc), rn);
    DecodeCbnz(EncodeCbnz(rn, target, pc));
  }

  lemma EncodedBCondLands(cond: Cond, target: nat, pc: nat)
    requires (target - pc) % 4 == 0 && InRange(WordBCond(cond, 0), target, pc)
    ensures Decode(EncodeBCond(cond, target, pc)) == DecBCond(CondEncoding(cond), (target - pc) / 4)
    ensures pc + 4 * ((target - pc) / 4) == target
  {
    AlignedDelta(target, pc);
    ImmediateField19(0x54, TruncDiv4(target - pc), CondEncoding(cond));
    DecodeBCond(EncodeBCond(cond, target, pc));
  }
}
