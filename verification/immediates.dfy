/** The three words that compute an address from the program counter: what their packed immediates
    decode to, and for which distances they land. */
module Immediates {
  import opened Bits
  import opened Wrappers
  import opened A64
  import opened Encoding

  const U64: nat := 0x1_0000_0000_0000_0000

  /** A 12-bit field above two register fields. */
  lemma Packed12(top: nat, imm: nat, rn: Reg, rd: Reg)
    requires imm < 4096
    ensures Or(Or(Or(top * 0x40_0000, Shl(imm, 10)), Shl(rn, 5)), rd) == Word12(top, imm, rn, rd)
  {
    var head := top * 4096 + imm;
    Pow2Twenties();
    assert Or(top * 0x40_0000, Shl(imm, 10)) == head * 0x400 by {
      OrDisjoint(top, imm * 0x400, 22);
    }
    assert Or(head * 0x400, Shl(rn, 5)) == (head * 32 + rn) * 32 by {
      OrDisjoint(head, rn * 32, 10);
    }
    OrDisjoint(head * 32 + rn, rd, 5);
  }

  function Word12(top: nat, imm: nat, rn: Reg, rd: Reg): nat {
    ((top * 4096 + imm) * 32 + rn) * 32 + rd
  }

  lemma Fields12(top: nat, imm: nat, rn: Reg, rd: Reg)
    requires imm < 4096
    ensures var w := Word12(top, imm, rn, rd);
      w / 0x40_0000 == top && (w / 0x400) % 4096 == imm && (w / 32) % 32 == rn && w % 32 == rd
  {
    var w, head := Word12(top, imm, rn, rd), top * 4096 + imm;
    Bits.DivUnique(w, 32, head * 32 + rn, rd);
    Bits.DivUnique(head * 32 + rn, 32, head, rn);
    Bits.DivUnique(w, 0x400, head, rn * 32 + rd);
    Bits.DivUnique(head, 4096, top, imm);
    Bits.DivUnique(w, 0x40_0000, top, imm * 0x400 + rn * 32 + rd);
  }

  // ---- pc-relative addresses ----

  /** ADR with a zero immediate, and ADD/SUB (immediate) on 64-bit registers. */
  datatype AddressOp = Adr(rd: nat) | AddImm(imm: nat, rn: nat, rd: nat) | SubImm(imm: nat, rn: nat, rd: nat) | NotAddress

  function DecodeAddress(w: nat): AddressOp {
    var imm := (w / 0x400) % 4096 * (if (w / 0x40_0000) % 2 == 1 then 4096 else 1);
    if w / 32 == 0x80_0000 then Adr(w % 32)
    else if w / 0x80_0000 == 0x122 then AddImm(imm, (w / 32) % 32, w % 32)
    else if w / 0x80_0000 == 0x1a2 then SubImm(imm, (w / 32) % 32, w % 32)
    else NotAddress
  }

  function RunAddress(op: AddressOp, pc: nat, x: seq<nat>): (after: seq<nat>)
    requires |x| == 31
    ensures |after| == 31
  {
    match op
    case Adr(rd) => if rd < 31 then x[rd := pc % U64] else x
    case AddImm(imm, rn, rd) => if rn < 31 && rd < 31 then x[rd := (x[rn] + imm) % U64] else x
    case SubImm(imm, rn, rd) => if rn < 31 && rd < 31 then x[rd := (x[rn] - imm) % U64] else x
    case NotAddress => x
  }

  function LowWord(negative: bool, lo12: nat, rd: Reg): nat {
    var base := if negative then 0xd100_0000 else 0x9100_0000;
    Or(Or(Or(base, Shl(lo12, 10)), Shl(rd, 5)), rd)
  }

  function HighWord(negative: bool, hi12: nat, rd: Reg): nat {
    var base := if negative then 0xd100_0000 else 0x9100_0000;
    Or(Or(Or(Or(base, Shl(1, 22)), Shl(hi12, 10)), Shl(rd, 5)), rd)
  }

  function Low12(magnitude: nat): nat {
    And(magnitude, 0xfff)
  }

  function High12(magnitude: nat): nat {
    And(Shr(magnitude, 12), 0xfff)
  }

  /** The three words that materialize `pc + delta`. */
  function PcRelativeAddress(rd: Reg, delta: int): Result<seq<nat>, string> {
    if !(-0x100_0000 <= delta < 0x100_0000) then Err("out of the 16MiB pc-relative addressing range")
    else
      var magnitude: nat := if delta < 0 then -delta else delta;
      Ok([Or(0x1000_0000, rd),
          LowWord(delta < 0, Low12(magnitude), rd),
          HighWord(delta < 0, High12(magnitude), rd)])
  }

  /** The halves of a magnitude below 2^24 add up to it; 2^24 itself loses its only bit. */
  lemma Halves(magnitude: nat)
    requires magnitude <= 0x100_0000
    ensures Low12(magnitude) < 4096 && High12(magnitude) < 4096
    ensures Low12(magnitude) + 4096 * High12(magnitude) == if magnitude == 0x100_0000 then 0 else magnitude
  {
    HalvesAreRemainders(magnitude);
    var q := magnitude / 4096;
    assert q <= 4096;
    assert q % 4096 == if q == 4096 then 0 else q;
  }

  lemma HalvesAreRemainders(magnitude: nat)
    ensures Low12(magnitude) == magnitude % 4096 && High12(magnitude) == magnitude / 4096 % 4096
  {
    Pow2Constants();
    AndMask(magnitude, 12);
    AndMask(Shr(magnitude, 12), 12);
  }

  lemma AdrWord(rd: Reg)
    ensures DecodeAddress(Or(0x1000_0000, rd)) == Adr(rd)
  {
    Pow2Constants();
    OrDisjoint(0x80_0000, rd, 5);
  }

  lemma LowWordDecodes(negative: bool, lo12: nat, rd: Reg)
    requires lo12 < 4096
    ensures DecodeAddress(LowWord(negative, lo12, rd))
         == if negative then SubImm(lo12, rd, rd) else AddImm(lo12, rd, rd)
  {
    var top := if negative then 0x344 else 0x244;
    Packed12(top, lo12, rd, rd);
    DecodeAddSub(top, lo12, rd, rd);
  }

  lemma HighWordDecodes(negative: bool, hi12: nat, rd: Reg)
    requires hi12 < 4096
    ensures DecodeAddress(HighWord(negative, hi12, rd))
         == if negative then SubImm(4096 * hi12, rd, rd) else AddImm(4096 * hi12, rd, rd)
  {
    var top := if negative then 0x345 else 0x245;
    ShiftBit(negative);
    Packed12(top, hi12, rd, rd);
    DecodeAddSub(top, hi12, rd, rd);
  }

  lemma ShiftBit(negative: bool)
    ensures Or(if negative then 0xd100_0000 else 0x9100_0000, Shl(1, 22))
         == (if negative then 0x345 else 0x245) * 0x40_0000
  {
    Pow2Twenties();
    OrDisjoint(if negative then 0x1a2 else 0x122, 0x40_0000, 23);
  }

  lemma Pow2Twenties()
    ensures Pow2(22) == 0x40_0000 && Pow2(23) == 0x80_0000 && Pow2(10) == 0x400 && Pow2(5) == 32
  {
    Pow2Constants();
    Pow2Add(18, 4);
    Pow2Add(18, 5);
    Pow2Add(8, 2);
  }

  lemma DecodeAddSub(top: nat, imm: nat, rn: Reg, rd: Reg)
    requires top in {0x244, 0x245, 0x344, 0x345} && imm < 4096
    ensures DecodeAddress(Word12(top, imm, rn, rd))
         == var value := if top % 2 == 1 then imm * 4096 else imm;
            if top < 0x300 then AddImm(value, rn, rd) else SubImm(value, rn, rd)
  {
    var w := Word12(top, imm, rn, rd);
    Fields12(top, imm, rn, rd);
    Bits.DivUnique(w, 0x80_0000, top / 2, (top % 2) * 0x40_0000 + imm * 0x400 + rn * 32 + rd);
  }

  /** Decoded, the words are `adr` and two additions (or subtractions) of the halves. */
  lemma AddressWordsDecode(rd: Reg, delta: int, magnitude: nat)
    requires -0x100_0000 <= delta < 0x100_0000 && magnitude == if delta < 0 then -delta else delta
    ensures var words, lo, hi := PcRelativeAddress(rd, delta).value, Low12(magnitude), 4096 * High12(magnitude);
      && DecodeAddress(words[0]) == Adr(rd)
      && DecodeAddress(words[1]) == (if delta < 0 then SubImm(lo, rd, rd) else AddImm(lo, rd, rd))
      && DecodeAddress(words[2]) == (if delta < 0 then SubImm(hi, rd, rd) else AddImm(hi, rd, rd))
  {
    Halves(magnitude);
    AdrWord(rd);
    LowWordDecodes(delta < 0, Low12(magnitude), rd);
    HighWordDecodes(delta < 0, High12(magnitude), rd);
  }

  function RunThree(ops: (AddressOp, AddressOp, AddressOp), pc: nat, x: seq<nat>): seq<nat>
    requires |x| == 31
  {
    RunAddress(ops.2, pc + 8, RunAddress(ops.1, pc + 4, RunAddress(ops.0, pc, x)))
  }

  /** Run from `pc`, the three words leave `pc + delta` in the register and nothing else
      changed, for every accepted delta but -2^24: there both halves are zero, and the register
      gets `pc`. */
  lemma PcRelativeAddressLands(rd: Reg, delta: int, pc: nat, x: seq<nat>)
    requires rd < 31 && |x| == 31 && PcRelativeAddress(rd, delta).Ok?
    ensures var words := PcRelativeAddress(rd, delta).value;
      var after := RunThree((DecodeAddress(words[0]), DecodeAddress(words[1]), DecodeAddress(words[2])), pc, x);
      && after == x[rd := (if delta == -0x100_0000 then pc else pc + delta) % U64]
      && (after[rd] == (pc + delta) % U64 <==> delta != -0x100_0000)
  {
    var magnitude: nat := if delta < 0 then -delta else delta;
    var words := PcRelativeAddress(rd, delta).value;
    AddressWordsDecode(rd, delta, magnitude);
    Halves(magnitude);
    OpsLand((DecodeAddress(words[0]), DecodeAddress(words[1]), DecodeAddress(words[2])), rd, delta,
            Low12(magnitude), 4096 * High12(magnitude), pc, x);
  }

  lemma OpsLand(ops: (AddressOp, AddressOp, AddressOp), rd: Reg, delta: int, lo: nat, hi: nat, pc: nat, x: seq<nat>)
    requires rd < 31 && |x| == 31 && ops.0 == Adr(rd)
    requires ops.1 == (if delta < 0 then SubImm(lo, rd, rd) else AddImm(lo, rd, rd))
    requires ops.2 == (if delta < 0 then SubImm(hi, rd, rd) else AddImm(hi, rd, rd))
    requires lo + hi == if delta == -0x100_0000 then 0 else if delta < 0 then -delta else delta
    ensures var after := RunThree(ops, pc, x);
      && after == x[rd := (if delta == -0x100_0000 then pc else pc + delta) % U64]
      && (after[rd] == (pc + delta) % U64 <==> delta != -0x100_0000)
  {
    ThreeOps(rd, delta < 0, lo, hi, pc, x);
    if delta == -0x100_0000 {
      NotCongruent(pc);
    }
  }

  lemma ThreeOps(rd: Reg, negative: bool, lo: nat, hi: nat, pc: nat, x: seq<nat>)
    requires rd < 31 && |x| == 31
    ensures RunThree((Adr(rd),
                      if negative then SubImm(lo, rd, rd) else AddImm(lo, rd, rd),
                      if negative then SubImm(hi, rd, rd) else AddImm(hi, rd, rd)), pc, x)
         == x[rd := (if negative then pc - (lo + hi) else pc + (lo + hi)) % U64]
  {
    if negative {
      ModChain(pc, 0 - lo, 0 - hi);
    } else {
      ModChain(pc, lo, hi);
    }
  }

  lemma ModChain(pc: int, lo: int, hi: int)
    ensures ((pc % U64 + lo) % U64 + hi) % U64 == (pc + (lo + hi)) % U64
  {
  }

  lemma NotCongruent(pc: int)
    ensures (pc - 0x100_0000) % U64 != pc % U64
  {
  }
}
