/** The encoded function runs as its control-flow graph does. */
module Simulation {
  import opened Wrappers
  import opened Sequences
  import opened A64
  import opened Encoding
  import opened CodeLayout

  /** The body words are not branches, exits are exits, and the function is 4-aligned. */
  ghost predicate WellFormed(f: Func) {
    && f.base % 4 == 0
    && forall b: nat | b < |f.blocks| :: WellFormedBlock(f.blocks[b])
  }

  ghost predicate WellFormedBlock(block: Block) {
    && Opaque(BodyWords(block.body))
    && (block.term.Exit? ==> Decode(block.term.word) == DecExit)
  }

  function DecodeAll(words: seq<Word>): seq<Decoded> {
    seq(|words|, i requires 0 <= i < |words| => Decode(words[i]))
  }

  function Others(words: seq<Word>): seq<Decoded> {
    seq(|words|, i requires 0 <= i < |words| => DecOther(words[i]))
  }

  predicate Opaque(words: seq<Word>) {
    DecodeAll(words) == Others(words)
  }

  /** A run of the control-flow graph: at a block's entry, or finished. */
  datatype Cfg = At(block: nat, cpu: Cpu) | Done(cpu: Cpu)

  function RunBody(words: seq<Word>, pc: int, effect: Effect, cpu: Cpu): Cpu {
    if words == [] then cpu else RunBody(words[1..], pc + 4, effect, effect(pc, words[0], cpu))
  }

  /** Where a terminator goes. */
  function Successor(t: Term, cpu: Cpu): Option<nat> {
    match t
    case B(target) => Some(target)
    case BCond(cond, taken, notTaken) => Some(if Holds(cond, cpu.flags) then taken else notTaken)
    case Cbnz(rn, taken, notTaken) => Some(if X(cpu, rn) != 0 then taken else notTaken)
    case Exit(_) => None
  }

  function CfgStep(f: Func, effect: Effect, s: Cfg): Cfg {
    if s.Done? || s.block >= |f.blocks| then s
    else
      var block := f.blocks[s.block];
      var cpu := RunBody(BodyWords(block.body), Offset(f, s.block), effect, s.cpu);
      match Successor(block.term, cpu)
      case Some(next) => At(next, cpu)
      case None => Done(cpu)
  }

  function CfgSteps(f: Func, effect: Effect, s: Cfg, n: nat): Cfg
    decreases n
  {
    if n == 0 then s else CfgSteps(f, effect, CfgStep(f, effect, s), n - 1)
  }

  /** The machine state a graph state corresponds to. */
  function Located(f: Func, s: Cfg): Machine {
    match s
    case At(block, cpu) => if block < |f.blocks| then Running(Offset(f, block), cpu) else Fault
    case Done(cpu) => Halted(cpu)
  }

  predicate InFunction(f: Func, s: Cfg) {
    s.At? ==> s.block < |f.blocks|
  }

  /** The branch word's own test. */
  predicate Taken(w: BranchWord, cpu: Cpu) {
    match w
    case WordB(_) => true
    case WordBCond(cond, _) => Holds(cond, cpu.flags)
    case WordCbnz(rn, _) => X(cpu, rn) != 0
  }

  /** The index of block `b`'s first word, and of its first terminator word. */
  function BlockIndex(f: Func, b: nat): nat
    requires b <= |f.blocks|
  {
    Sum(BlockLens(f), b)
  }

  function TermIndex(f: Func, b: nat): nat
    requires b < |f.blocks|
  {
    BlockIndex(f, b) + Sum(BodyLens(f.blocks[b].body), |f.blocks[b].body|)
  }

  /** The branch a branch word at `pc` stands for: as many words away as its target is. */
  function WordMeaning(w: BranchWord, offsets: map<nat, nat>, pc: nat): Decoded {
    Meaning(w, ((if w.target in offsets then offsets[w.target] else 0) - pc) / 4)
  }

  function WordMeanings(ws: seq<BranchWord>, offsets: map<nat, nat>, pc: nat): seq<Decoded> {
    seq(|ws|, i requires 0 <= i < |ws| => WordMeaning(ws[i], offsets, pc + 4 * i))
  }

  /** What block `b`'s terminator stands for. */
  function TermMeaning(f: Func, b: nat): seq<Decoded>
    requires b < |f.blocks|
  {
    if f.blocks[b].term.Exit? then [DecExit]
    else WordMeanings(BranchWords(f.blocks[b].term, Next(f, b)), OffsetMap(f), TermPc(f, b))
  }

  /** What an image must hold for block `b`: its opaque words, then its branches. */
  ghost predicate HoldsBlock(f: Func, image: seq<Decoded>, b: nat)
    requires b < |f.blocks|
  {
    var at, body, term := BlockIndex(f, b), BodyWords(f.blocks[b].body), TermMeaning(f, b);
    && at + |body| == TermIndex(f, b) && TermIndex(f, b) + |term| == BlockIndex(f, b + 1) <= |image|
    && image[at..TermIndex(f, b)] == Others(body)
    && image[TermIndex(f, b)..BlockIndex(f, b + 1)] == term
    && TargetsExist(f, BranchWords(f.blocks[b].term, Next(f, b)))
  }

  predicate TargetsExist(f: Func, ws: seq<BranchWord>) {
    forall w | w in ws :: w.target < |f.blocks|
  }

  ghost predicate HoldsCode(f: Func, image: seq<Decoded>) {
    forall b: nat | b < |f.blocks| :: HoldsBlock(f, image, b)
  }

  // ---- from bytes to the decoded image ----

  lemma ImageDecodes(code: seq<Word>)
    ensures DecodeImage(Bytes(code)) == DecodeAll(code)
  {
    forall i: nat | i < |code|
      ensures DecodeImage(Bytes(code))[i] == DecodeAll(code)[i]
    {
      BytesAt(code, i);
    }
  }

  lemma DecodeSlice(code: seq<Word>, lo: nat, hi: nat)
    requires lo <= hi <= |code|
    ensures DecodeAll(code)[lo..hi] == DecodeAll(code[lo..hi])
  {
  }

  ghost predicate Aligned(offsets: map<nat, nat>) {
    forall t | t in offsets :: offsets[t] % 4 == 0
  }

  /** One branch word decodes to a branch to its target. */
  lemma WordDecodes(w: BranchWord, offsets: map<nat, nat>, pc: nat)
    requires Aligned(offsets) && pc % 4 == 0 && WordEncodes(w, offsets, pc)
    ensures Decode(WordValue(w, offsets, pc)) == WordMeaning(w, offsets, pc)
  {
    var target := offsets[w.target];
    match w {
      case WordB(_) => EncodedBLands(target, pc);
      case WordBCond(cond, _) => EncodedBCondLands(cond, target, pc);
      case WordCbnz(rn, _) => EncodedCbnzLands(rn, target, pc);
    }
  }

  /** The words of a branch decode to what they stand for, and their targets are blocks. */
  lemma WordsDecode(ws: seq<BranchWord>, offsets: map<nat, nat>, pc: nat)
    requires Aligned(offsets) && pc % 4 == 0 && Encodes(ws, offsets, pc)
    ensures DecodeAll(EncodedWords(ws, offsets, pc)) == WordMeanings(ws, offsets, pc)
    ensures forall w | w in ws :: w.target in offsets
  {
    forall i: nat | i < |ws|
      ensures Decode(EncodedWords(ws, offsets, pc)[i]) == WordMeanings(ws, offsets, pc)[i] && ws[i].target in offsets
    {
      assert WordVerdicts(ws, offsets, pc)[i];
      WordDecodes(ws[i], offsets, pc + 4 * i);
    }
  }

  lemma BlockSlices(f: Func, b: nat)
    requires b < |f.blocks|
    ensures var code, at, body, term := CodeUpTo(f, |f.blocks|), BlockIndex(f, b), BodyWords(f.blocks[b].body), TermWords(f, b);
      && at + |body| == TermIndex(f, b) && TermIndex(f, b) + |term| == BlockIndex(f, b + 1) <= |code|
      && code[at..TermIndex(f, b)] == body
      && code[TermIndex(f, b)..BlockIndex(f, b + 1)] == term
  {
    var code, at, body, term := CodeUpTo(f, |f.blocks|), BlockIndex(f, b), BodyWords(f.blocks[b].body), TermWords(f, b);
    BlockInCode(f, b);
    EncodedLength(f, b);
    assert CodeParts(f)[b] == body + term;
    SliceOfSlice(code, at, body, term);
  }

  lemma SliceOfSlice<T>(s: seq<T>, at: nat, u: seq<T>, v: seq<T>)
    requires at + |u + v| <= |s| && s[at..at + |u + v|] == u + v
    ensures s[at..at + |u|] == u && s[at + |u|..at + |u| + |v|] == v
  {
    assert (u + v)[..|u|] == u && (u + v)[|u|..] == v;
    assert s[at..at + |u + v|][..|u|] == s[at..at + |u|];
    assert s[at..at + |u + v|][|u|..] == s[at + |u|..at + |u| + |v|];
  }

  function Image(f: Func): seq<Decoded> {
    DecodeImage(Bytes(CodeUpTo(f, |f.blocks|)))
  }

  lemma MapAligned(f: Func, b: nat)
    requires f.base % 4 == 0 && b < |f.blocks|
    ensures Aligned(OffsetMap(f)) && TermPc(f, b) % 4 == 0
  {
  }

  lemma BranchesDecode(f: Func, b: nat, ws: seq<BranchWord>, offsets: map<nat, nat>, pc: nat)
    requires f.base % 4 == 0 && b < |f.blocks|
    requires ws == BranchWords(f.blocks[b].term, Next(f, b)) && offsets == OffsetMap(f) && pc == TermPc(f, b)
    requires Encodes(ws, offsets, pc)
    ensures DecodeAll(EncodedWords(ws, offsets, pc)) == WordMeanings(ws, offsets, pc) && TargetsExist(f, ws)
  {
    MapAligned(f, b);
    WordsDecode(ws, offsets, pc);
  }

  lemma TermDecodes(f: Func, b: nat)
    requires f.base % 4 == 0 && Encodable(f) && b < |f.blocks| && WellFormedBlock(f.blocks[b])
    ensures DecodeAll(TermWords(f, b)) == TermMeaning(f, b)
    ensures TargetsExist(f, BranchWords(f.blocks[b].term, Next(f, b)))
  {
    if f.blocks[b].term.Exit? {
      assert DecodeAll(TermWords(f, b))[0] == DecExit;
    } else {
      assert Verdicts(f)[b];
      BranchesDecode(f, b, BranchWords(f.blocks[b].term, Next(f, b)), OffsetMap(f), TermPc(f, b));
    }
  }

  lemma BlockHeld(f: Func, b: nat)
    requires f.base % 4 == 0 && Encodable(f) && b < |f.blocks| && WellFormedBlock(f.blocks[b])
    ensures HoldsBlock(f, Image(f), b)
  {
    var code := CodeUpTo(f, |f.blocks|);
    BlockSlices(f, b);
    ImageDecodes(code);
    DecodeSlice(code, BlockIndex(f, b), TermIndex(f, b));
    DecodeSlice(code, TermIndex(f, b), BlockIndex(f, b + 1));
    TermDecodes(f, b);
  }

  /** The encoded bytes hold, at every block's offset, that block's words and branches. */
  lemma CodeHeld(f: Func)
    requires WellFormed(f) && Encodable(f)
    ensures HoldsCode(f, Image(f))
  {
    forall b: nat | b < |f.blocks|
      ensures HoldsBlock(f, Image(f), b)
    {
      assert WellFormedBlock(f.blocks[b]);
      BlockHeld(f, b);
    }
  }

  // ---- from the decoded image to the graph ----

  lemma StepInside(image: seq<Decoded>, base: int, effect: Effect, i: nat, cpu: Cpu)
    requires i < |image|
    ensures Step(image, base, effect, Running(base + 4 * i, cpu)) == Execute(image[i], base + 4 * i, effect, cpu)
  {
  }

  /** Opaque words run one after the other. */
  lemma {:induction false} OpaqueRuns(image: seq<Decoded>, base: int, effect: Effect, i: nat, words: seq<Word>, cpu: Cpu)
    requires i + |words| <= |image| && image[i..i + |words|] == Others(words)
    ensures Steps(image, base, effect, Running(base + 4 * i, cpu), |words|)
         == Running(base + 4 * (i + |words|), RunBody(words, base + 4 * i, effect, cpu))
    decreases |words|
  {
    if words != [] {
      assert image[i..i + |words|][0] == image[i];
      StepInside(image, base, effect, i, cpu);
      assert image[i + 1..i + |words|] == image[i..i + |words|][1..] == Others(words[1..]);
      OpaqueRuns(image, base, effect, i + 1, words[1..], effect(base + 4 * i, words[0], cpu));
    }
  }

  /** A branch word goes to its target block when its test holds, else to the next word. */
  lemma WordRuns(w: BranchWord, offsets: map<nat, nat>, pc: nat, effect: Effect, cpu: Cpu)
    requires pc % 4 == 0 && w.target in offsets && offsets[w.target] % 4 == 0
    ensures Execute(WordMeaning(w, offsets, pc), pc, effect, cpu)
         == Running(if Taken(w, cpu) then offsets[w.target] else pc + 4, cpu)
  {
    var words := (offsets[w.target] - pc) / 4;
    assert pc + 4 * words == offsets[w.target];
    if w.WordBCond? {
      ConditionCodesMeanTheirNames(w.cond, cpu.flags);
    }
  }

  /** What the words of a terminator amount to, read as a chain of tests that falls through to
      the next block. */
  lemma BranchWordsMeanTheTerminator(t: Term, next: Option<nat>, cpu: Cpu)
    requires !t.Exit?
    ensures var ws := BranchWords(t, next);
      && (ws == [] ==> next.Some? && Successor(t, cpu) == next)
      && (|ws| == 1 ==> Successor(t, cpu) == (if Taken(ws[0], cpu) then Some(ws[0].target) else next) != None)
      && (|ws| == 2 ==> Taken(ws[1], cpu) && Successor(t, cpu) == Some(if Taken(ws[0], cpu) then ws[0].target else ws[1].target))
  {
    if t.BCond? {
      ConditionCodesMeanTheirNames(t.cond, cpu.flags);
    }
  }

  /** How many branch words of a terminator execute before control leaves the block. */
  function TermCost(t: Term, next: Option<nat>, cpu: Cpu): nat {
    var ws := BranchWords(t, next);
    if t.Exit? then 1 else if |ws| == 2 && Taken(ws[0], cpu) then 1 else |ws|
  }

  /** Word `i` of a terminator's code, executed. */
  lemma WordStep(ws: seq<BranchWord>, offsets: map<nat, nat>, image: seq<Decoded>, base: nat, at: nat, i: nat,
                 effect: Effect, cpu: Cpu)
    requires base % 4 == 0 && Aligned(offsets) && i < |ws| && ws[i].target in offsets
    requires at + |ws| <= |image| && image[at..at + |ws|] == WordMeanings(ws, offsets, base + 4 * at)
    ensures Step(image, base, effect, Running(base + 4 * (at + i), cpu))
         == Running(if Taken(ws[i], cpu) then offsets[ws[i].target] else base + 4 * (at + i + 1), cpu)
  {
    var pc := base + 4 * (at + i);
    assert image[at..at + |ws|][i] == image[at + i] == WordMeaning(ws[i], offsets, pc);
    StepInside(image, base, effect, at + i, cpu);
    WordRuns(ws[i], offsets, pc, effect, cpu);
  }

  lemma OneStep(image: seq<Decoded>, base: int, effect: Effect, m: Machine)
    ensures Steps(image, base, effect, m, 1) == Step(image, base, effect, m)
  {
    assert Steps(image, base, effect, Step(image, base, effect, m), 0) == Step(image, base, effect, m);
  }

  lemma TwoLegs(image: seq<Decoded>, base: int, effect: Effect, m: Machine, j: nat, middle: Machine, k: nat, end: Machine)
    requires Steps(image, base, effect, m, j) == middle && Steps(image, base, effect, middle, k) == end
    ensures Steps(image, base, effect, m, j + k) == end
  {
    StepsAdd(image, base, effect, m, j, k);
  }

  /** The image holds the branches `ws` from word `at` on, and what they leave falls into `next`. */
  ghost predicate BranchesAt(ws: seq<BranchWord>, next: Option<nat>, offsets: map<nat, nat>, image: seq<Decoded>, base: nat, at: nat) {
    && Aligned(offsets)
    && (forall w | w in ws :: w.target in offsets)
    && (next.Some? ==> next.value in offsets && offsets[next.value] == base + 4 * (at + |ws|))
    && at + |ws| <= |image|
    && image[at..at + |ws|] == WordMeanings(ws, offsets, base + 4 * at)
  }

  /** Where a terminator's code at `pc` takes the machine, whatever image it lies in. */
  lemma TermRuns(t: Term, next: Option<nat>, offsets: map<nat, nat>, image: seq<Decoded>, base: nat, at: nat,
                 effect: Effect, cpu: Cpu)
    requires base % 4 == 0 && !t.Exit?
    requires BranchesAt(BranchWords(t, next), next, offsets, image, base, at)
    ensures Successor(t, cpu).Some? && Successor(t, cpu).value in offsets
    ensures Steps(image, base, effect, Running(base + 4 * at, cpu), TermCost(t, next, cpu))
         == Running(offsets[Successor(t, cpu).value], cpu)
  {
    var ws, m := BranchWords(t, next), Running(base + 4 * at, cpu);
    BranchWordsMeanTheTerminator(t, next, cpu);
    if |ws| >= 1 {
      WordStep(ws, offsets, image, base, at, 0, effect, cpu);
      OneStep(image, base, effect, m);
    }
    if |ws| == 2 && !Taken(ws[0], cpu) {
      var m1 := Running(base + 4 * (at + 1), cpu);
      WordStep(ws, offsets, image, base, at, 1, effect, cpu);
      OneStep(image, base, effect, m1);
      TwoLegs(image, base, effect, m, 1, m1, 1, Running(offsets[ws[1].target], cpu));
    }
  }

  /** Machine steps one block takes. Zero when the block is nothing but a branch to the next. */
  function BlockCost(f: Func, effect: Effect, s: Cfg): nat {
    if s.Done? || s.block >= |f.blocks| then 0
    else
      var words := BodyWords(f.blocks[s.block].body);
      |words| + TermCost(f.blocks[s.block].term, Next(f, s.block), RunBody(words, Offset(f, s.block), effect, s.cpu))
  }

  /** One terminator of the function, from the address the layout gave it. */
  lemma BlockTermRuns(f: Func, image: seq<Decoded>, b: nat, effect: Effect, cpu: Cpu)
    requires f.base % 4 == 0 && b < |f.blocks| && HoldsBlock(f, image, b)
    ensures var t, next := f.blocks[b].term, Successor(f.blocks[b].term, cpu);
      && (next.Some? ==> next.value < |f.blocks|)
      && Steps(image, f.base, effect, Running(f.base + 4 * TermIndex(f, b), cpu), TermCost(t, Next(f, b), cpu))
         == (if next.Some? then Running(Offset(f, next.value), cpu) else Halted(cpu))
  {
    if f.blocks[b].term.Exit? {
      ExitRuns(f, image, b, effect, cpu);
    } else {
      var t, next := f.blocks[b].term, Next(f, b);
      TermLies(f, image, b);
      TermRuns(t, next, OffsetMap(f), image, f.base, TermIndex(f, b), effect, cpu);
    }
  }

  lemma TermLies(f: Func, image: seq<Decoded>, b: nat)
    requires f.base % 4 == 0 && b < |f.blocks| && HoldsBlock(f, image, b) && !f.blocks[b].term.Exit?
    ensures BranchesAt(BranchWords(f.blocks[b].term, Next(f, b)), Next(f, b), OffsetMap(f), image, f.base, TermIndex(f, b))
  {
    OffsetsAligned(f);
    TermPcIs(f, b);
    TermSlice(f, image, b, BranchWords(f.blocks[b].term, Next(f, b)));
  }

  lemma OffsetsAligned(f: Func)
    requires f.base % 4 == 0
    ensures Aligned(OffsetMap(f))
  {
  }

  lemma TermPcIs(f: Func, b: nat)
    requires b < |f.blocks|
    ensures TermPc(f, b) == f.base + 4 * TermIndex(f, b)
  {
  }

  lemma TermSlice(f: Func, image: seq<Decoded>, b: nat, ws: seq<BranchWord>)
    requires b < |f.blocks| && HoldsBlock(f, image, b) && !f.blocks[b].term.Exit?
    requires ws == BranchWords(f.blocks[b].term, Next(f, b))
    ensures var at := TermIndex(f, b);
      && at + |ws| == BlockIndex(f, b + 1) <= |image|
      && image[at..at + |ws|] == WordMeanings(ws, OffsetMap(f), TermPc(f, b))
  {
    assert |TermMeaning(f, b)| == |ws|;
  }

  lemma ExitRuns(f: Func, image: seq<Decoded>, b: nat, effect: Effect, cpu: Cpu)
    requires b < |f.blocks| && HoldsBlock(f, image, b) && f.blocks[b].term.Exit?
    ensures Steps(image, f.base, effect, Running(f.base + 4 * TermIndex(f, b), cpu), 1) == Halted(cpu)
  {
    var at := TermIndex(f, b);
    assert image[at..BlockIndex(f, b + 1)][0] == image[at];
    StepInside(image, f.base, effect, at, cpu);
    OneStep(image, f.base, effect, Running(f.base + 4 * at, cpu));
  }

  /** Simulation of one block. */
  lemma BlockSimulates(f: Func, image: seq<Decoded>, effect: Effect, s: Cfg)
    requires f.base % 4 == 0 && HoldsCode(f, image) && InFunction(f, s)
    ensures InFunction(f, CfgStep(f, effect, s))
    ensures Steps(image, f.base, effect, Located(f, s), BlockCost(f, effect, s)) == Located(f, CfgStep(f, effect, s))
  {
    if s.At? {
      assert HoldsBlock(f, image, s.block);
      AtSimulates(f, image, effect, s.block, s.cpu);
    }
  }

  lemma AtSimulates(f: Func, image: seq<Decoded>, effect: Effect, b: nat, cpu: Cpu)
    requires f.base % 4 == 0 && b < |f.blocks| && HoldsBlock(f, image, b)
    ensures InFunction(f, CfgStep(f, effect, At(b, cpu)))
    ensures Steps(image, f.base, effect, Running(Offset(f, b), cpu), BlockCost(f, effect, At(b, cpu)))
         == Located(f, CfgStep(f, effect, At(b, cpu)))
  {
    var words := BodyWords(f.blocks[b].body);
    var after := RunBody(words, Offset(f, b), effect, cpu);
    var cost := TermCost(f.blocks[b].term, Next(f, b), after);
    StepIs(f, effect, b, cpu, words, after);
    BodyRuns(f, image, effect, b, cpu, words, after);
    BlockTermRuns(f, image, b, effect, after);
    StepLocated(f, effect, b, cpu, after, Successor(f.blocks[b].term, after));
    TwoLegs(image, f.base, effect, Running(Offset(f, b), cpu),
            |words|, Running(f.base + 4 * TermIndex(f, b), after), cost, Located(f, CfgStep(f, effect, At(b, cpu))));
  }

  lemma BodyLies(f: Func, image: seq<Decoded>, b: nat, words: seq<Word>, at: nat)
    requires b < |f.blocks| && HoldsBlock(f, image, b) && words == BodyWords(f.blocks[b].body) && at == BlockIndex(f, b)
    ensures at + |words| == TermIndex(f, b) <= |image| && image[at..at + |words|] == Others(words)
    ensures Offset(f, b) == f.base + 4 * at
  {
  }

  lemma BodyRuns(f: Func, image: seq<Decoded>, effect: Effect, b: nat, cpu: Cpu, words: seq<Word>, after: Cpu)
    requires f.base % 4 == 0 && b < |f.blocks| && HoldsBlock(f, image, b)
    requires words == BodyWords(f.blocks[b].body) && after == RunBody(words, Offset(f, b), effect, cpu)
    ensures Steps(image, f.base, effect, Running(Offset(f, b), cpu), |words|) == Running(f.base + 4 * TermIndex(f, b), after)
  {
    var at := BlockIndex(f, b);
    BodyLies(f, image, b, words, at);
    OpaqueRuns(image, f.base, effect, at, words, cpu);
  }

  lemma StepLocated(f: Func, effect: Effect, b: nat, cpu: Cpu, after: Cpu, next: Option<nat>)
    requires b < |f.blocks| && (next.Some? ==> next.value < |f.blocks|)
    requires CfgStep(f, effect, At(b, cpu)) == match next { case Some(n) => At(n, after) case None => Done(after) }
    ensures InFunction(f, CfgStep(f, effect, At(b, cpu)))
    ensures Located(f, CfgStep(f, effect, At(b, cpu)))
         == if next.Some? then Running(Offset(f, next.value), after) else Halted(after)
  {
  }

  /** The parts of one block's step. */
  lemma StepIs(f: Func, effect: Effect, b: nat, cpu: Cpu, words: seq<Word>, after: Cpu)
    requires b < |f.blocks| && words == BodyWords(f.blocks[b].body) && after == RunBody(words, Offset(f, b), effect, cpu)
    ensures Offset(f, b) == f.base + 4 * BlockIndex(f, b)
    ensures BlockCost(f, effect, At(b, cpu)) == |words| + TermCost(f.blocks[b].term, Next(f, b), after)
    ensures CfgStep(f, effect, At(b, cpu))
         == match Successor(f.blocks[b].term, after) { case Some(next) => At(next, after) case None => Done(after) }
  {
  }

  function RunCost(f: Func, effect: Effect, s: Cfg, n: nat): nat
    decreases n
  {
    if n == 0 then 0 else BlockCost(f, effect, s) + RunCost(f, effect, CfgStep(f, effect, s), n - 1)
  }

  /** Simulation of whole runs: every state the graph reaches, the machine reaches, at that
      block's address and with the same registers and flags. */
  lemma {:induction false} RunSimulates(f: Func, image: seq<Decoded>, effect: Effect, s: Cfg, n: nat)
    requires f.base % 4 == 0 && HoldsCode(f, image) && InFunction(f, s)
    ensures InFunction(f, CfgSteps(f, effect, s, n))
    ensures Steps(image, f.base, effect, Located(f, s), RunCost(f, effect, s, n)) == Located(f, CfgSteps(f, effect, s, n))
    decreases n
  {
    if n > 0 {
      var t := CfgStep(f, effect, s);
      BlockSimulates(f, image, effect, s);
      RunSimulates(f, image, effect, t, n - 1);
      TwoLegs(image, f.base, effect, Located(f, s), BlockCost(f, effect, s), Located(f, t),
              RunCost(f, effect, t, n - 1), Located(f, CfgSteps(f, effect, t, n - 1)));
    }
  }

  /** Conversely: the machine never faults, and it halts only where the graph finishes, in the
      same state. */
  lemma {:induction false} MachineStopsAsGraph(f: Func, image: seq<Decoded>, effect: Effect, s: Cfg, k: nat)
    returns (n: nat)
    requires f.base % 4 == 0 && HoldsCode(f, image) && InFunction(f, s)
    requires !Steps(image, f.base, effect, Located(f, s), k).Running?
    ensures CfgSteps(f, effect, s, n).Done?
    ensures Steps(image, f.base, effect, Located(f, s), k) == Halted(CfgSteps(f, effect, s, n).cpu)
    decreases k, if s.At? then |f.blocks| - s.block else 0
  {
    if s.Done? {
      StoppedStays(image, f.base, effect, Located(f, s), k);
      return 0;
    }
    var t, cost := CfgStep(f, effect, s), BlockCost(f, effect, s);
    BlockSimulates(f, image, effect, s);
    if cost <= k {
      StepsAdd(image, f.base, effect, Located(f, s), cost, k - cost);
      if cost == 0 {
        assert HoldsBlock(f, image, s.block);
        ZeroCostFallsThrough(f, image, effect, s.block, s.cpu);
      }
      n := MachineStopsAsGraph(f, image, effect, t, k - cost);
      n := n + 1;
    } else {
      StepsAdd(image, f.base, effect, Located(f, s), k, cost - k);
      StoppedStays(image, f.base, effect, Steps(image, f.base, effect, Located(f, s), k), cost - k);
      n := 1;
      assert CfgSteps(f, effect, t, 0) == t;
    }
  }

  /** The only blocks that share an address are chains of empty fall-throughs: a block of no
      cost goes to the block after it, at the same address, changing nothing. */
  lemma ZeroCostFallsThrough(f: Func, image: seq<Decoded>, effect: Effect, b: nat, cpu: Cpu)
    requires b < |f.blocks| && HoldsBlock(f, image, b) && BlockCost(f, effect, At(b, cpu)) == 0
    ensures b + 1 < |f.blocks| && CfgStep(f, effect, At(b, cpu)) == At(b + 1, cpu)
    ensures Offset(f, b + 1) == Offset(f, b)
  {
    assert BodyWords(f.blocks[b].body) == [];
    if !f.blocks[b].term.Exit? {
      BranchWordsMeanTheTerminator(f.blocks[b].term, Next(f, b), cpu);
      assert |TermMeaning(f, b)| == |BranchWords(f.blocks[b].term, Next(f, b))|;
    }
  }

  /** A step of the graph that costs the machine nothing. */
  ghost predicate FreeStep(f: Func, effect: Effect, s: Cfg, t: Cfg) {
    t == CfgStep(f, effect, s) && BlockCost(f, effect, s) == 0
  }

  /** So a run of the graph without a machine step only walks forward in the layout. */
  lemma {:induction false} NoStall(f: Func, image: seq<Decoded>, effect: Effect, run: seq<Cfg>, b: nat, cpu: Cpu, n: nat)
    requires HoldsCode(f, image) && b < |f.blocks| && n < |run| && run[0] == At(b, cpu)
    requires forall i | 0 <= i < n :: FreeStep(f, effect, run[i], run[i + 1])
    ensures b + n < |f.blocks| && run[n] == At(b + n, cpu)
    decreases n
  {
    if n > 0 {
      NoStall(f, image, effect, run, b, cpu, n - 1);
      assert FreeStep(f, effect, run[n - 1], run[n - 1 + 1]);
      FreeStepAdvances(f, image, effect, b + n - 1, cpu, run[n]);
    }
  }

  lemma FreeStepAdvances(f: Func, image: seq<Decoded>, effect: Effect, b: nat, cpu: Cpu, t: Cfg)
    requires HoldsCode(f, image) && b < |f.blocks| && FreeStep(f, effect, At(b, cpu), t)
    ensures b + 1 < |f.blocks| && t == At(b + 1, cpu)
  {
    assert HoldsBlock(f, image, b);
    ZeroCostFallsThrough(f, image, effect, b, cpu);
  }

  // ---- the theorems, about the emitted bytes ----

  /** For every function that encodes, from every block and machine state: each state of the
      graph's run is a state of the machine's run over the emitted bytes. */
  lemma EncodedRunSimulates(f: Func, effect: Effect, s: Cfg, n: nat)
    requires WellFormed(f) && Encodable(f) && InFunction(f, s)
    ensures InFunction(f, CfgSteps(f, effect, s, n))
    ensures Steps(Image(f), f.base, effect, Located(f, s), RunCost(f, effect, s, n)) == Located(f, CfgSteps(f, effect, s, n))
  {
    CodeHeld(f);
    RunSimulates(f, Image(f), effect, s, n);
  }

  /** The machine halts over the emitted bytes exactly where the graph finishes. */
  lemma EncodedHaltsAsGraph(f: Func, effect: Effect, s: Cfg, cpu: Cpu)
    requires WellFormed(f) && Encodable(f) && InFunction(f, s)
    ensures (exists k: nat :: Steps(Image(f), f.base, effect, Located(f, s), k) == Halted(cpu))
       <==> (exists n: nat :: CfgSteps(f, effect, s, n) == Done(cpu))
  {
    CodeHeld(f);
    if k: nat :| Steps(Image(f), f.base, effect, Located(f, s), k) == Halted(cpu) {
      var n := MachineStopsAsGraph(f, Image(f), effect, s, k);
      assert CfgSteps(f, effect, s, n) == Done(cpu);
    }
    if n: nat :| CfgSteps(f, effect, s, n) == Done(cpu) {
      RunSimulates(f, Image(f), effect, s, n);
    }
  }

  /** Nor does it ever fault. */
  lemma EncodedNeverFaults(f: Func, effect: Effect, s: Cfg, k: nat)
    requires WellFormed(f) && Encodable(f) && InFunction(f, s)
    ensures Steps(Image(f), f.base, effect, Located(f, s), k) != Fault
  {
    CodeHeld(f);
    if !Steps(Image(f), f.base, effect, Located(f, s), k).Running? {
      var n := MachineStopsAsGraph(f, Image(f), effect, s, k);
    }
  }
}
