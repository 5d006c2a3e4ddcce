/** Layout and emission of one function: lengths, offsets, bytes. */
module CodeLayout {
  import opened Wrappers
  import opened Sequences
  import opened A64
  import opened Encoding

  datatype Func = Func(blocks: seq<Block>, base: nat)

  function InstWords(i: Inst): seq<Word> {
    match i
    case One(w) => [w]
    case Address(w0, w1, w2) => [w0, w1, w2]
  }

  /** Length in words of a non-branch instruction, as the layout passes assume it. */
  function InstLen(i: Inst): nat {
    if i.Address? then 3 else 1
  }

  function TermLen(t: Term, next: Option<nat>): nat {
    if t.Exit? then 1 else |BranchWords(t, next)|
  }

  function BodyParts(body: seq<Inst>): seq<seq<Word>> {
    seq(|body|, i requires 0 <= i < |body| => InstWords(body[i]))
  }

  function BodyLens(body: seq<Inst>): seq<nat> {
    seq(|body|, i requires 0 <= i < |body| => InstLen(body[i]))
  }

  function Next(f: Func, b: nat): Option<nat> {
    if b + 1 < |f.blocks| then Some(b + 1) else None
  }

  function BlockLen(f: Func, b: nat): nat
    requires b < |f.blocks|
  {
    Sum(BodyLens(f.blocks[b].body), |f.blocks[b].body|) + TermLen(f.blocks[b].term, Next(f, b))
  }

  function BlockLens(f: Func): seq<nat> {
    seq(|f.blocks|, b requires 0 <= b < |f.blocks| => BlockLen(f, b))
  }

  /** Where block `b` starts; `Offset(f, |f.blocks|)` is where the function ends. */
  function Offset(f: Func, b: nat): nat
    requires b <= |f.blocks|
  {
    f.base + 4 * Sum(BlockLens(f), b)
  }

  /** The address of block `b`'s terminator. */
  function TermPc(f: Func, b: nat): nat
    requires b < |f.blocks|
  {
    Offset(f, b) + 4 * Sum(BodyLens(f.blocks[b].body), |f.blocks[b].body|)
  }

  method BodyLength(body: seq<Inst>) returns (len: nat)
    ensures len == 4 * Sum(BodyLens(body), |body|)
  {
    len := 0;
    for i := 0 to |body|
      invariant len == 4 * Sum(BodyLens(body), i)
    {
      len := len + 4 * InstLen(body[i]);
    }
  }

  function OffsetMap(f: Func): map<nat, nat> {
    map b: nat | b < |f.blocks| :: Offset(f, b)
  }

  method BlockOffsets(f: Func) returns (offsets: map<nat, nat>)
    ensures offsets == OffsetMap(f)
  {
    offsets := map[];
    var nextOffset := f.base;
    for b := 0 to |f.blocks|
      invariant nextOffset == Offset(f, b)
      invariant offsets == map i: nat | i < b :: Offset(f, i)
    {
      offsets := offsets[b := nextOffset];
      var body := BodyLength(f.blocks[b].body);
      nextOffset := nextOffset + body + 4 * TermLen(f.blocks[b].term, Next(f, b));
    }
  }

  /** Whether one branch word encodes: its target is a block of the function, and in range. */
  predicate WordEncodes(w: BranchWord, offsets: map<nat, nat>, pc: nat) {
    w.target in offsets && Near(w, offsets[w.target] - pc)
  }

  /** Whether each word encodes, the pc advancing by four. */
  function WordVerdicts(ws: seq<BranchWord>, offsets: map<nat, nat>, pc: nat): seq<bool> {
    seq(|ws|, i requires 0 <= i < |ws| => WordEncodes(ws[i], offsets, pc + 4 * i))
  }

  predicate Encodes(ws: seq<BranchWord>, offsets: map<nat, nat>, pc: nat) {
    forall i: nat | i < |ws| :: WordVerdicts(ws, offsets, pc)[i]
  }

  /** The word itself (one that does not encode has no meaning here). */
  function WordValue(w: BranchWord, offsets: map<nat, nat>, pc: nat): Word {
    if WordEncodes(w, offsets, pc) then EncodeWord(w, offsets[w.target], pc).value else 0
  }

  function EncodedWords(ws: seq<BranchWord>, offsets: map<nat, nat>, pc: nat): seq<Word> {
    seq(|ws|, i requires 0 <= i < |ws| => WordValue(ws[i], offsets, pc + 4 * i))
  }

  function Bytes(words: seq<Word>): (b: seq<Byte>)
    ensures |b| == 4 * |words|
  {
    if words == [] then [] else Bytes(words[..|words| - 1]) + WordBytes(words[|words| - 1])
  }

  lemma BytesPush(words: seq<Word>, w: Word)
    ensures Bytes(words + [w]) == Bytes(words) + WordBytes(w)
  {
    assert (words + [w])[..|words|] == words;
  }

  lemma {:induction false} BytesConcat(u: seq<Word>, v: seq<Word>)
    ensures Bytes(u + v) == Bytes(u) + Bytes(v)
  {
    if v == [] {
      assert u + v == u;
    } else {
      assert (u + v)[..|u + v| - 1] == u + v[..|v| - 1];
      BytesConcat(u, v[..|v| - 1]);
    }
  }

  lemma {:induction false} BytesAt(words: seq<Word>, i: nat)
    requires i < |words|
    ensures Bytes(words)[4 * i..4 * i + 4] == WordBytes(words[i])
  {
    if i < |words| - 1 {
      BytesAt(words[..|words| - 1], i);
      var init := Bytes(words[..|words| - 1]);
      assert Bytes(words)[4 * i..4 * i + 4] == init[4 * i..4 * i + 4];
    }
  }

  method EmitWord(w: BranchWord, offsets: map<nat, nat>, pc: nat) returns (r: Result<seq<Byte>, string>)
    ensures r.Ok? <==> WordEncodes(w, offsets, pc)
    ensures r.Ok? ==> r.value == WordBytes(WordValue(w, offsets, pc))
  {
    if w.target !in offsets {
      return Err("branch target is outside the enclosing function");
    }
    var word := EncodeWord(w, offsets[w.target], pc);
    r := if word.Ok? then Ok(WordBytes(word.value)) else Err(word.error);
  }

  method EncodeBranch(t: Term, next: Option<nat>, offsets: map<nat, nat>, pc: nat)
    returns (r: Result<seq<Byte>, string>)
    ensures r.Ok? <==> Encodes(BranchWords(t, next), offsets, pc)
    ensures r.Ok? ==> r.value == Bytes(EncodedWords(BranchWords(t, next), offsets, pc))
  {
    var words := BranchWords(t, next);
    r := EncodeWords(words, offsets, pc);
  }

  ghost predicate FirstEncode(words: seq<BranchWord>, offsets: map<nat, nat>, pc: nat, n: nat)
    requires n <= |words|
  {
    forall i: nat | i < n :: WordVerdicts(words, offsets, pc)[i]
  }

  lemma OneRefused(words: seq<BranchWord>, offsets: map<nat, nat>, pc: nat, i: nat)
    requires i < |words| && !WordEncodes(words[i], offsets, pc + 4 * i)
    ensures !Encodes(words, offsets, pc)
  {
    assert !WordVerdicts(words, offsets, pc)[i];
  }

  lemma OneMoreEncodes(words: seq<BranchWord>, offsets: map<nat, nat>, pc: nat, i: nat)
    requires i < |words| && FirstEncode(words, offsets, pc, i) && WordEncodes(words[i], offsets, pc + 4 * i)
    ensures FirstEncode(words, offsets, pc, i + 1)
  {
    var verdicts := WordVerdicts(words, offsets, pc);
    assert verdicts[i];
  }

  lemma OneMoreWord(words: seq<BranchWord>, offsets: map<nat, nat>, pc: nat, values: seq<Word>, i: nat)
    requires i < |words| && values == EncodedWords(words, offsets, pc)
    ensures Bytes(values[..i + 1]) == Bytes(values[..i]) + WordBytes(WordValue(words[i], offsets, pc + 4 * i))
  {
    BytesPush(values[..i], values[i]);
    assert values[..i] + [values[i]] == values[..i + 1];
  }

  lemma AllEncode(words: seq<BranchWord>, offsets: map<nat, nat>, pc: nat, values: seq<Word>)
    requires values == EncodedWords(words, offsets, pc) && FirstEncode(words, offsets, pc, |words|)
    ensures Encodes(words, offsets, pc) && values[..|words|] == values
  {
  }

  method EncodeWords(words: seq<BranchWord>, offsets: map<nat, nat>, pc: nat) returns (r: Result<seq<Byte>, string>)
    ensures r.Ok? <==> Encodes(words, offsets, pc)
    ensures r.Ok? ==> r.value == Bytes(EncodedWords(words, offsets, pc))
  {
    ghost var values := EncodedWords(words, offsets, pc);
    var bytes: seq<Byte> := [];
    for index := 0 to |words|
      invariant bytes == Bytes(values[..index]) && FirstEncode(words, offsets, pc, index)
    {
      var word := EmitWord(words[index], offsets, pc + 4 * index);
      if word.Err? {
        OneRefused(words, offsets, pc, index);
        return word;
      }
      OneMoreEncodes(words, offsets, pc, index);
      OneMoreWord(words, offsets, pc, values, index);
      bytes := bytes + word.value;
    }
    AllEncode(words, offsets, pc, values);
    return Ok(bytes);
  }

  predicate BlockEncodable(f: Func, b: nat)
    requires b < |f.blocks|
  {
    Encodes(BranchWords(f.blocks[b].term, Next(f, b)), OffsetMap(f), TermPc(f, b))
  }

  /** Every branch target exists and is in range of the word that reaches it. */
  predicate Encodable(f: Func) {
    forall b: nat | b < |f.blocks| :: Verdicts(f)[b]
  }

  function Verdicts(f: Func): seq<bool> {
    seq(|f.blocks|, b requires 0 <= b < |f.blocks| => BlockEncodable(f, b))
  }

  function TermWords(f: Func, b: nat): (words: seq<Word>)
    requires b < |f.blocks|
    ensures |words| == TermLen(f.blocks[b].term, Next(f, b))
  {
    if f.blocks[b].term.Exit? then [f.blocks[b].term.word]
    else EncodedWords(BranchWords(f.blocks[b].term, Next(f, b)), OffsetMap(f), TermPc(f, b))
  }

  function BlockWords(f: Func, b: nat): seq<Word>
    requires b < |f.blocks|
  {
    BodyWords(f.blocks[b].body) + TermWords(f, b)
  }

  function BodyWords(body: seq<Inst>): seq<Word> {
    Flatten(BodyParts(body), |body|)
  }

  /** Every block comes out as long as the layout assumed. */
  lemma EncodedLength(f: Func, b: nat)
    requires b < |f.blocks|
    ensures |BodyWords(f.blocks[b].body)| == Sum(BodyLens(f.blocks[b].body), |f.blocks[b].body|)
    ensures |BlockWords(f, b)| == BlockLen(f, b)
  {
    var body := f.blocks[b].body;
    FlattenLength(BodyParts(body), BodyLens(body), |body|);
  }

  function CodeParts(f: Func): seq<seq<Word>> {
    seq(|f.blocks|, b requires 0 <= b < |f.blocks| => BlockWords(f, b))
  }

  /** The words of the first `b` blocks, in layout order. */
  function CodeUpTo(f: Func, b: nat): seq<Word>
    requires b <= |f.blocks|
  {
    Flatten(CodeParts(f), b)
  }

  lemma CodeLength(f: Func, b: nat)
    requires b <= |f.blocks|
    ensures f.base + 4 * |CodeUpTo(f, b)| == Offset(f, b)
  {
    PartLengths(f);
    FlattenLength(CodeParts(f), BlockLens(f), b);
  }

  method EmitBody(body: seq<Inst>) returns (bytes: seq<Byte>)
    ensures bytes == Bytes(BodyWords(body))
  {
    bytes := [];
    for i := 0 to |body|
      invariant bytes == Bytes(Flatten(BodyParts(body), i))
    {
      BytesConcat(Flatten(BodyParts(body), i), InstWords(body[i]));
      bytes := bytes + Bytes(InstWords(body[i]));
    }
  }

  method EmitTerm(f: Func, b: nat, offsets: map<nat, nat>, pc: nat) returns (r: Result<seq<Byte>, string>)
    requires b < |f.blocks| && offsets == OffsetMap(f) && pc == TermPc(f, b)
    ensures r.Ok? <==> BlockEncodable(f, b)
    ensures r.Ok? ==> r.value == Bytes(TermWords(f, b))
  {
    var t := f.blocks[b].term;
    if t.Exit? {
      r := Ok(Bytes([t.word]));
    } else {
      r := EncodeBranch(t, Next(f, b), offsets, pc);
    }
  }

  method EmitBlock(f: Func, b: nat, offsets: map<nat, nat>, pc: nat) returns (r: Result<seq<Byte>, string>)
    requires b < |f.blocks| && offsets == OffsetMap(f) && pc == Offset(f, b)
    ensures r.Ok? <==> Verdicts(f)[b]
    ensures r.Ok? ==> r.value == Bytes(CodeParts(f)[b])
  {
    var body := EmitBody(f.blocks[b].body);
    EncodedLength(f, b);
    var term := EmitTerm(f, b, offsets, pc + |body|);
    if term.Err? {
      return term;
    }
    BytesConcat(BodyWords(f.blocks[b].body), TermWords(f, b));
    return Ok(body + term.value);
  }

  /** The emission loop of the encode pass: the pc is always the number of bytes emitted so far,
      and it always agrees with the offsets laid out beforehand. */
  method EncodeFunction(f: Func) returns (r: Result<seq<Byte>, string>)
    ensures r.Ok? <==> Encodable(f)
    ensures r.Ok? <==> forall b: nat | b < |f.blocks| :: BlockReaches(f, b)
    ensures r.Ok? ==> r.value == Bytes(CodeUpTo(f, |f.blocks|)) && f.base + |r.value| == Offset(f, |f.blocks|)
  {
    EncodableIsReachable(f);
    var offsets := BlockOffsets(f);
    var bytes: seq<Byte> := [];
    ghost var verdicts, parts := Verdicts(f), CodeParts(f);
    for b := 0 to |f.blocks|
      invariant FlattenGood(verdicts, parts, b).Some? && bytes == Bytes(Flatten(parts, b))
    {
      CodeLength(f, b);
      var block := EmitBlock(f, b, offsets, f.base + |bytes|);
      if block.Err? {
        return block;
      }
      BytesConcat(Flatten(parts, b), parts[b]);
      bytes := bytes + block.value;
    }
    CodeLength(f, |f.blocks|);
    return Ok(bytes);
  }

  /** Word `i` of a branch at `pc` reaches its target. */
  predicate WordReaches(f: Func, w: BranchWord, pc: int) {
    w.target < |f.blocks| && -Reach(w) <= Offset(f, w.target) - pc < Reach(w)
  }

  predicate BlockReaches(f: Func, b: nat)
    requires b < |f.blocks|
  {
    var ws := BranchWords(f.blocks[b].term, Next(f, b));
    forall i: nat | i < |ws| :: WordReaches(f, ws[i], TermPc(f, b) + 4 * i)
  }

  /** Blocks are whole words apart, so every branch of a function encodes exactly when its target
      is a block within 128 MiB, or within 1 MiB for a conditional one. */
  lemma EncodableIsReachable(f: Func)
    ensures Encodable(f) <==> forall b: nat | b < |f.blocks| :: BlockReaches(f, b)
  {
    forall b: nat | b < |f.blocks|
      ensures Verdicts(f)[b] <==> BlockReaches(f, b)
    {
      BlockEncodesWhen(f, b, BranchWords(f.blocks[b].term, Next(f, b)), OffsetMap(f), TermPc(f, b));
    }
  }

  lemma BlockEncodesWhen(f: Func, b: nat, ws: seq<BranchWord>, offsets: map<nat, nat>, pc: nat)
    requires b < |f.blocks| && offsets == OffsetMap(f) && pc == TermPc(f, b)
    ensures Encodes(ws, offsets, pc) <==> forall i: nat | i < |ws| :: WordReaches(f, ws[i], pc + 4 * i)
  {
    var verdicts := WordVerdicts(ws, offsets, pc);
    forall i: nat | i < |ws|
      ensures verdicts[i] <==> WordReaches(f, ws[i], pc + 4 * i)
    {
      WordEncodesWhen(f, b, ws[i], pc + 4 * i, i);
    }
  }

  lemma WordEncodesWhen(f: Func, b: nat, w: BranchWord, pc: nat, i: nat)
    requires b < |f.blocks| && pc == TermPc(f, b) + 4 * i
    ensures WordEncodes(w, OffsetMap(f), pc) <==> WordReaches(f, w, pc)
  {
    if w.target < |f.blocks| {
      var j, k := Sum(BlockLens(f), w.target), Sum(BlockLens(f), b) + Sum(BodyLens(f.blocks[b].body), |f.blocks[b].body|) + i;
      assert Offset(f, w.target) - pc == 4 * (j - k);
      WordsApart(w, j - k);
    }
  }

  lemma WordsApart(w: BranchWord, words: int)
    ensures Near(w, 4 * words) <==> -Reach(w) <= 4 * words < Reach(w)
  {
  }

  lemma PartLengths(f: Func)
    ensures forall i: nat | i < |f.blocks| :: |CodeParts(f)[i]| == BlockLens(f)[i]
  {
    forall i: nat | i < |f.blocks|
      ensures |CodeParts(f)[i]| == BlockLens(f)[i]
    {
      EncodedLength(f, i);
    }
  }

  /** Block `b`'s words sit at block `b`'s offset. */
  lemma BlockInCode(f: Func, b: nat)
    requires b < |f.blocks|
    ensures var at, code, words := Sum(BlockLens(f), b), CodeUpTo(f, |f.blocks|), CodeParts(f)[b];
      at + |words| <= |code| && code[at..at + |words|] == words
  {
    PartLengths(f);
    FlattenSlice(CodeParts(f), BlockLens(f), |f.blocks|, b);
  }
}
