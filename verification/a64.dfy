/** A small A64 interpreter of branch and exit words (Arm ARM DDI 0487, section C6.2); other words are opaque steps. */
module A64 {
  import opened Bits
  import opened Wrappers

  const U32: nat := 0x1_0000_0000

  type Code = c: nat | c < 16
  type Word = w: nat | w < 0x1_0000_0000
  type Byte = b: nat | b < 256

  /** The condition codes of `b.cond`; `al` and `nv` are not representable. */
  datatype Cond = Eq | Ne | Hs | Lo | Mi | Pl | Vs | Vc | Hi | Ls | Ge | Lt | Gt | Le

  function CondEncoding(c: Cond): (code: nat)
    ensures code < 14
  {
    match c
    case Eq => 0x0 case Ne => 0x1 case Hs => 0x2 case Lo => 0x3
    case Mi => 0x4 case Pl => 0x5 case Vs => 0x6 case Vc => 0x7
    case Hi => 0x8 case Ls => 0x9 case Ge => 0xa case Lt => 0xb
    case Gt => 0xc case Le => 0xd
  }

  function Invert(c: Cond): Cond {
    match c
    case Eq => Ne case Ne => Eq case Hs => Lo case Lo => Hs
    case Mi => Pl case Pl => Mi case Vs => Vc case Vc => Vs
    case Hi => Ls case Ls => Hi case Ge => Lt case Lt => Ge
    case Gt => Le case Le => Gt
  }

  datatype Flags = Flags(n: bool, z: bool, c: bool, v: bool)

  /** What a condition means, by name. */
  predicate Holds(c: Cond, f: Flags) {
    match c
    case Eq => f.z
    case Ne => !f.z
    case Hs => f.c
    case Lo => !f.c
    case Mi => f.n
    case Pl => !f.n
    case Vs => f.v
    case Vc => !f.v
    case Hi => f.c && !f.z
    case Ls => !f.c || f.z
    case Ge => f.n == f.v
    case Lt => f.n != f.v
    case Gt => f.n == f.v && !f.z
    case Le => f.n != f.v || f.z
  }

  /** ConditionHolds of the Arm pseudocode: bits 3..1 pick the test, bit 0 negates it. */
  predicate ConditionHolds(code: Code, f: Flags) {
    var test := match code / 2
      case 0 => f.z
      case 1 => f.c
      case 2 => f.n
      case 3 => f.v
      case 4 => f.c && !f.z
      case 5 => f.n == f.v
      case 6 => f.n == f.v && !f.z
      case _ => true;
    if code % 2 == 1 && code != 15 then !test else test
  }

  /** The hardware test of a condition's code is its meaning, and inverting the condition
      negates it on every flag setting. */
  lemma ConditionCodesMeanTheirNames(c: Cond, f: Flags)
    ensures ConditionHolds(CondEncoding(c), f) == Holds(c, f)
    ensures Holds(Invert(c), f) == !Holds(c, f)
    ensures Invert(Invert(c)) == c
  {
    match c {
      case _ =>
    }
  }

  datatype Decoded =
    | DecB(words: int)
    | DecBCond(code: Code, words: int)
    | DecCbnz(rt: nat, words: int)
    | DecExit
    | DecOther(word: Word)

  /** SignExtend of a `bits`-wide field. */
  function SignExtend(field: nat, bits: nat): int
    requires bits > 0
  {
    if field < Pow2(bits - 1) then field else field - Pow2(bits)
  }

  /** B, B.cond, CBNZ (64-bit), RET and BRK; anything else is opaque. */
  function Decode(w: Word): Decoded {
    if w / 0x400_0000 == 0x05 then DecB(SignExtend(w % 0x400_0000, 26))
    else if w / 0x100_0000 == 0x54 && (w / 16) % 2 == 0 then
      DecBCond(w % 16, SignExtend((w / 32) % 0x8_0000, 19))
    else if w / 0x100_0000 == 0xb5 then DecCbnz(w % 32, SignExtend((w / 32) % 0x8_0000, 19))
    else if w / 1024 == 0x35_97c0 && w % 32 == 0 then DecExit
    else if w / 0x20_0000 == 0x6a1 && w % 32 == 0 then DecExit
    else DecOther(w)
  }

  /** The exits are `ret` by any register and `brk` with any number, and no other word. */
  lemma ExitsAre(w: Word)
    ensures Decode(w) == DecExit
      <==> (exists rn: nat :: rn < 32 && w == 0xd65f_0000 + 32 * rn) || (exists n: nat :: n < 0x1_0000 && w == 0xd420_0000 + 32 * n)
  {
    if Decode(w) == DecExit {
      if w / 1024 == 0x35_97c0 {
        HighAndLow(w, 32, 0x35_97c0);
      } else {
        HighAndLow(w, 0x1_0000, 0x6a1);
      }
    }
    if rn: nat :| rn < 32 && w == 0xd65f_0000 + 32 * rn {
      assert w / 1024 == 0x35_97c0 && w % 32 == 0;
    }
    if n: nat :| n < 0x1_0000 && w == 0xd420_0000 + 32 * n {
      assert w / 0x20_0000 == 0x6a1 && w % 32 == 0;
    }
  }

  /** A word of a field `low` above five clear bits and below `high`. */
  lemma HighAndLow(w: nat, size: nat, high: nat)
    requires size in {32, 0x1_0000} && w / (32 * size) == high && w % 32 == 0
    ensures (w / 32) % size < size && w == 32 * size * high + 32 * ((w / 32) % size)
  {
    var v := w / 32;
    assert w == 32 * v;
    DivDiv(w, 32, size);
    assert v == size * (v / size) + v % size;
  }

  /** The machine state a branch can read: the general registers and the flags. `rest` stands
      for everything else. */
  datatype Cpu = Cpu(x: seq<nat>, flags: Flags, rest: int)

  /** Register 31 of `cbnz` is the zero register. */
  function X(cpu: Cpu, n: nat): nat {
    if n < |cpu.x| && n != 31 then cpu.x[n] else 0
  }

  /** Effect of an opaque word at an address. */
  type Effect = (int, Word, Cpu) -> Cpu

  datatype Machine = Running(pc: int, cpu: Cpu) | Halted(cpu: Cpu) | Fault

  function LittleEndian(b: seq<Byte>): (w: Word)
    requires |b| == 4
  {
    var b0: int, b1: int, b2: int, b3: int := b[0], b[1], b[2], b[3];
    b0 + 0x100 * b1 + 0x1_0000 * b2 + 0x100_0000 * b3
  }

  function WordBytes(w: Word): (b: seq<Byte>)
    ensures |b| == 4 && LittleEndian(b) == w
  {
    [w % 256, (w / 256) % 256, (w / 256 / 256) % 256, w / 256 / 256 / 256]
  }

  /** The words of an image, decoded. */
  function DecodeImage(bytes: seq<Byte>): seq<Decoded> {
    seq(|bytes| / 4, i requires 0 <= i < |bytes| / 4 => Decode(LittleEndian(bytes[4 * i..4 * i + 4])))
  }

  /** One decoded instruction. */
  function Execute(d: Decoded, pc: int, effect: Effect, cpu: Cpu): Machine {
    match d
    case DecB(words) => Running(pc + 4 * words, cpu)
    case DecBCond(code, words) => Running(if ConditionHolds(code, cpu.flags) then pc + 4 * words else pc + 4, cpu)
    case DecCbnz(rt, words) => Running(if X(cpu, rt) != 0 then pc + 4 * words else pc + 4, cpu)
    case DecExit => Halted(cpu)
    case DecOther(w) => Running(pc + 4, effect(pc, w, cpu))
  }

  /** One step of the decoded image loaded at `base`. An address outside it, or one that is not
      4-aligned within it, faults. */
  function Step(image: seq<Decoded>, base: int, effect: Effect, m: Machine): Machine {
    if !m.Running? then m
    else if m.pc < base || (m.pc - base) % 4 != 0 || (m.pc - base) / 4 >= |image| then Fault
    else Execute(image[(m.pc - base) / 4], m.pc, effect, m.cpu)
  }

  function Steps(image: seq<Decoded>, base: int, effect: Effect, m: Machine, k: nat): Machine
    decreases k
  {
    if k == 0 then m else Steps(image, base, effect, Step(image, base, effect, m), k - 1)
  }

  lemma {:induction false} StepsAdd(image: seq<Decoded>, base: int, effect: Effect, m: Machine, j: nat, k: nat)
    ensures Steps(image, base, effect, m, j + k)
         == Steps(image, base, effect, Steps(image, base, effect, m, j), k)
    decreases j
  {
    if j > 0 {
      StepsAdd(image, base, effect, Step(image, base, effect, m), j - 1, k);
    }
  }

  /** A machine that has halted (or faulted) stays so. */
  lemma {:induction false} StoppedStays(image: seq<Decoded>, base: int, effect: Effect, m: Machine, k: nat)
    requires !m.Running?
    ensures Steps(image, base, effect, m, k) == m
  {
    if k > 0 {
      StoppedStays(image, base, effect, m, k - 1);
    }
  }
}
