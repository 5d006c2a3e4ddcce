/** The textual forms of AArch64 attributes: ABI signatures and fixup lists. */
module Attributes {
  import opened Wrappers
  import opened Texts
  import opened Lists
  import Registers

  type Register = Registers.Register

  // ----- Pieces -----

  function Letters(s: string): Option<(string, string)> {
    Word(s, IsAlphanumeric)
  }

  /** `token(':').with(word)`. */
  function AfterColon(s: string, p: char -> bool): Option<(string, string)> {
    if s == "" || s[0] != ':' then None else Word(s[1..], p)
  }

  /** `token(':').with(int_parser)`: the digits there, read at a type with values below `limit`. */
  function NumberAfterColon(s: string, limit: nat): Option<(nat, string)> {
    match AfterColon(s, IsDigit)
    case None => None
    case Some((digits, rest)) =>
      match ParseUnsigned(digits, limit)
      case None => None
      case Some(n) => Some((n, rest))
  }

  /** A run of characters in a class ends where what follows is outside it. */
  lemma {:induction false} WordReads(word: string, rest: string, p: char -> bool)
    requires word != "" && All(word, p) && StartsOutside(rest, p)
    ensures Word(word + rest, p) == Some((word, rest))
  {
    RunIsThePrefix(word, rest, p);
  }

  lemma {:induction false} AfterColonReads(word: string, rest: string, p: char -> bool)
    requires word != "" && All(word, p) && StartsOutside(rest, p)
    ensures AfterColon(":" + word + rest, p) == Some((word, rest))
  {
    WordReads(word, rest, p);
    assert (":" + word + rest)[1..] == word + rest;
  }

  lemma {:induction false} NumberAfterColonReads(n: nat, limit: nat, rest: string)
    requires n < limit && StartsOutside(rest, IsDigit)
    ensures NumberAfterColon(":" + Decimal(n) + rest, limit) == Some((n, rest))
  {
    AfterColonReads(Decimal(n), rest, IsDigit);
    DecimalParses(n, limit);
  }

  // ----- ABI locations -----

  datatype AbiLocation =
    | InGpr(reg: Register)
    | InPair(lo: Register, hi: Register)
    | IndirectResult(sret: Register)
    | Stack(offset: U64)
    | Void

  datatype FunctionAbi = FunctionAbi(args: seq<AbiLocation>, result: AbiLocation)

  function PrintLocation(l: AbiLocation): string {
    match l
    case InGpr(reg) => Registers.Print(reg)
    case InPair(lo, hi) => Registers.Print(lo) + ":" + Registers.Print(hi)
    case IndirectResult(reg) => "sret" + ":" + Registers.Print(reg)
    case Stack(offset) => "stack" + ":" + Decimal(offset)
    case Void => "void"
  }

  /** The register a word spells. */
  function RegisterAfterColon(s: string): Option<(Register, string)> {
    match AfterColon(s, IsAlphanumeric)
    case None => None
    case Some((word, rest)) =>
      match Registers.Parse(word)
      case None => None
      case Some(reg) => Some((reg, rest))
  }

  /** What a location that starts with a register goes on with. */
  function LocationAfter(first: Register, s: string): Option<(AbiLocation, string)> {
    if s == "" || s[0] != ':' then Some((InGpr(first), s))
    else
      match RegisterAfterColon(s)
      case None => None
      case Some((second, rest)) => Some((InPair(first, second), rest))
  }

  /** What a location goes on with after its first word. */
  function LocationOf(word: string, s: string): Option<(AbiLocation, string)> {
    if word == "void" then Some((Void, s))
    else if word == "sret" then
      match RegisterAfterColon(s)
      case None => None
      case Some((reg, rest)) => Some((IndirectResult(reg), rest))
    else if word == "stack" then
      match NumberAfterColon(s, 0x1_0000_0000_0000_0000)
      case None => None
      case Some((offset, rest)) => Some((Stack(offset), rest))
    else
      match Registers.Parse(word)
      case None => None
      case Some(first) => LocationAfter(first, s)
  }

  function ParseLocation(s: string): Option<(AbiLocation, string)> {
    match Letters(s)
    case None => None
    case Some((word, rest)) => LocationOf(word, rest)
  }

  /** A location whose registers all have spellings. */
  predicate LocationPrintable(l: AbiLocation) {
    match l
    case InGpr(reg) => Registers.Printable(reg)
    case InPair(lo, hi) => Registers.Printable(lo) && Registers.Printable(hi)
    case IndirectResult(reg) => Registers.Printable(reg)
    case Stack(_) => true
    case Void => true
  }

  lemma RegisterAfterColonReads(reg: Register, rest: string)
    requires Registers.Printable(reg) && StartsOutside(rest, IsAlphanumeric)
    ensures RegisterAfterColon(":" + Registers.Print(reg) + rest) == Some((reg, rest))
  {
    Registers.PrintIsWord(reg);
    AfterColonReads(Registers.Print(reg), rest, IsAlphanumeric);
    Registers.PrintedParses(reg);
  }

  /** None of the keywords is a register. */
  lemma KeywordsAreNoRegisters()
    ensures Registers.Parse("void").None? && Registers.Parse("sret").None? && Registers.Parse("stack").None?
  {
    assert "void"[..2][1] == 'o' && "sret"[..2][0] == 's' && "stack"[..2][0] == 's';
    assert "void"[1..][0] == 'o' && "sret"[1..][0] == 'r' && "stack"[1..][0] == 't';
  }

  lemma LocationStartsWith(word: string, tail: string)
    requires word != "" && All(word, IsAlphanumeric) && StartsOutside(tail, IsAlphanumeric)
    ensures StartsWord(word + tail) && ParseLocation(word + tail) == LocationOf(word, tail)
  {
    WordReads(word, tail, IsAlphanumeric);
  }

  lemma RegisterFirst(reg: Register, tail: string)
    requires Registers.Printable(reg) && StartsOutside(tail, IsAlphanumeric)
    ensures StartsWord(Registers.Print(reg) + tail)
    ensures ParseLocation(Registers.Print(reg) + tail) == LocationAfter(reg, tail)
  {
    Registers.PrintIsWord(reg);
    LocationStartsWith(Registers.Print(reg), tail);
    Registers.PrintedParses(reg);
    KeywordsAreNoRegisters();
  }

  lemma ColonSplits(word: string, second: string, rest: string)
    ensures word + ":" + second + rest == word + (":" + second + rest)
  {
  }

  lemma GprReads(reg: Register, rest: string)
    requires Registers.Printable(reg) && Stops(rest)
    ensures StartsWord(Registers.Print(reg))
    ensures ParseLocation(Registers.Print(reg) + rest) == Some((InGpr(reg), rest))
  {
    RegisterFirst(reg, rest);
    Registers.PrintIsWord(reg);
  }

  lemma PairReads(lo: Register, hi: Register, rest: string)
    requires Registers.Printable(lo) && Registers.Printable(hi) && Stops(rest)
    ensures
      var text := Registers.Print(lo) + ":" + Registers.Print(hi);
      StartsWord(text) && ParseLocation(text + rest) == Some((InPair(lo, hi), rest))
  {
    ColonSplits(Registers.Print(lo), Registers.Print(hi), rest);
    RegisterFirst(lo, ":" + Registers.Print(hi) + rest);
    RegisterAfterColonReads(hi, rest);
    Registers.PrintIsWord(lo);
  }

  lemma KeywordReads(word: string, second: string, rest: string)
    requires word != "" && All(word, IsAlphanumeric)
    ensures
      var text := word + ":" + second;
      && StartsWord(text)
      && ParseLocation(text + rest) == LocationOf(word, ":" + second + rest)
  {
    ColonSplits(word, second, rest);
    LocationStartsWith(word, ":" + second + rest);
  }

  lemma LocationReads(l: AbiLocation, rest: string)
    requires LocationPrintable(l) && Stops(rest)
    ensures StartsWord(PrintLocation(l)) && ParseLocation(PrintLocation(l) + rest) == Some((l, rest))
  {
    match l {
      case InGpr(reg) => GprReads(reg, rest);
      case InPair(lo, hi) => PairReads(lo, hi, rest);
      case IndirectResult(reg) =>
        KeywordReads("sret", Registers.Print(reg), rest);
        RegisterAfterColonReads(reg, rest);
      case Stack(offset) =>
        KeywordReads("stack", Decimal(offset), rest);
        NumberAfterColonReads(offset, 0x1_0000_0000_0000_0000, rest);
      case Void =>
        LocationStartsWith("void", rest);
    }
  }

  lemma ParsedLocation(s: string)
    requires ParseLocation(s).Some?
    ensures LocationPrintable(ParseLocation(s).value.0) && |ParseLocation(s).value.1| < |s|
  {
    var (word, rest) := Letters(s).value;
    Registers.ParsedIsPrintable(word);
    if rest != "" && rest[0] == ':' && AfterColon(rest, IsAlphanumeric).Some? {
      Registers.ParsedIsPrintable(AfterColon(rest, IsAlphanumeric).value.0);
    }
  }

  lemma LocationsAreRead()
    ensures Reads(ParseLocation, PrintLocation, LocationPrintable)
  {
    forall l, rest ensures ReadsAt(ParseLocation, PrintLocation, LocationPrintable, l, rest) {
      if LocationPrintable(l) && Stops(rest) {
        LocationReads(l, rest);
      }
    }
    forall s | ParseLocation(s).Some?
      ensures LocationPrintable(ParseLocation(s).value.0) && |ParseLocation(s).value.1| < |s|
    {
      ParsedLocation(s);
    }
  }

  // ----- ABI signatures -----

  function PrintAbi(abi: FunctionAbi): string {
    "(" + InBrackets(abi.args, PrintLocation) + ", " + PrintLocation(abi.result) + ")"
  }

  method PrintFunctionAbi(abi: FunctionAbi) returns (out: string)
    ensures out == PrintAbi(abi)
  {
    out := "([";
    out := PrintList(out, abi.args, PrintLocation);
    out := out + "], ";
    out := out + PrintLocation(abi.result);
    out := out + ")";
    AbiInPieces(Listed(abi.args, PrintLocation), PrintLocation(abi.result));
  }

  lemma AbiInPieces(args: string, result: string)
    ensures "([" + args + "], " + result + ")" == "(" + ("[" + args + "]") + ", " + result + ")"
  {
  }

  function ParseAbi(s: string): Option<(FunctionAbi, string)> {
    LocationsAreRead();
    match Token(s, '(')
    case None => None
    case Some(inner) =>
      match Bracketed(inner, ParseLocation)
      case None => None
      case Some((args, end)) =>
        match Token(end, ',')
        case None => None
        case Some(second) =>
          match Spaced(second, ParseLocation)
          case None => None
          case Some((result, last)) =>
            match Token(last, ')')
            case None => None
            case Some(rest) => Some((FunctionAbi(args, result), rest))
  }

  ghost predicate AbiPrintable(abi: FunctionAbi) {
    AllGood(abi.args, LocationPrintable) && LocationPrintable(abi.result)
  }

  /** A printed signature parses back, whatever stands after it. */
  lemma AbiReads(abi: FunctionAbi, rest: string)
    requires AbiPrintable(abi)
    ensures ParseAbi(PrintAbi(abi) + rest) == Some((abi, Spaces(rest)))
  {
    LocationsAreRead();
    var last := [')'] + rest;
    var second := PrintLocation(abi.result) + last;
    var end := [','] + " " + second;
    SpacedReads(abi.result, ParseLocation, PrintLocation, LocationPrintable, last);
    TokenReadsFirst(')', rest);
    TokenReads(',', " ", second);
    BracketedReads(abi.args, ParseLocation, PrintLocation, LocationPrintable, end);
    NoSpacesToSkip(end);
    var inner := InBrackets(abi.args, PrintLocation) + end;
    NoSpacesToSkip(inner);
    TokenReadsFirst('(', inner);
    AbiText(InBrackets(abi.args, PrintLocation), PrintLocation(abi.result), rest);
  }

  lemma AbiText(args: string, result: string, rest: string)
    ensures ("(" + args + ", " + result + ")") + rest == ['('] + (args + ([','] + " " + (result + ([')'] + rest))))
  {
  }

  /** A printed signature comes back exactly when every register in it has a spelling. */
  lemma AbiRoundTrip(abi: FunctionAbi)
    ensures ParseAbi(PrintAbi(abi)) == Some((abi, "")) <==> AbiPrintable(abi)
  {
    var text := PrintAbi(abi);
    if AbiPrintable(abi) {
      AbiReads(abi, "");
      assert text + "" == text;
      NoSpacesToSkip("");
    } else if ParseAbi(text).Some? {
      ParsedAbiIsPrintable(text);
    }
  }

  lemma ParsedAbiIsPrintable(s: string)
    requires ParseAbi(s).Some?
    ensures AbiPrintable(ParseAbi(s).value.0)
  {
    LocationsAreRead();
    var inner := Token(s, '(').value;
    SepByIsGood(Token(inner, '[').value, ParseLocation, PrintLocation, LocationPrintable);
    ParsedLocation(Spaces(Token(Bracketed(inner, ParseLocation).value.1, ',').value));
  }

  // ----- Fixups -----

  datatype FixupKind = Call26 | AdrpPage21 | AddLo12 | TprelHi12 | TprelLo12Nc

  datatype Fixup = Fixup(offset: U32, symbol: string, kind: FixupKind)

  predicate InSymbol(c: char) {
    IsAlphanumeric(c) || c == '_' || c == '.' || c == '$'
  }

  function KindName(kind: FixupKind): string {
    match kind
    case Call26 => "call26"
    case AdrpPage21 => "adrp21"
    case AddLo12 => "addlo12"
    case TprelHi12 => "tprelhi12"
    case TprelLo12Nc => "tprello12nc"
  }

  function KindNamed(name: string): Option<FixupKind> {
    if name == "call26" then Some(Call26)
    else if name == "adrp21" then Some(AdrpPage21)
    else if name == "addlo12" then Some(AddLo12)
    else if name == "tprelhi12" then Some(TprelHi12)
    else if name == "tprello12nc" then Some(TprelLo12Nc)
    else None
  }

  function PrintFixup(f: Fixup): string {
    KindName(f.kind) + ":" + Decimal(f.offset) + ":" + f.symbol
  }

  function FixupAfter(kind: FixupKind, s: string): Option<(Fixup, string)> {
    match NumberAfterColon(s, 0x1_0000_0000)
    case None => None
    case Some((offset, after)) =>
      match AfterColon(after, InSymbol)
      case None => None
      case Some((symbol, rest)) => Some((Fixup(offset, symbol, kind), rest))
  }

  function ParseFixup(s: string): Option<(Fixup, string)> {
    match Letters(s)
    case None => None
    case Some((name, rest)) =>
      match KindNamed(name)
      case None => None
      case Some(kind) => FixupAfter(kind, rest)
  }

  predicate FixupPrintable(f: Fixup) {
    f.symbol != "" && All(f.symbol, InSymbol)
  }

  lemma KindNameReads(kind: FixupKind)
    ensures KindName(kind) != "" && All(KindName(kind), IsAlphanumeric) && KindNamed(KindName(kind)) == Some(kind)
  {
    assert "call26"[1] != 'd' && "adrp21"[2] != 'd';
  }

  lemma FixupAfterReads(kind: FixupKind, offset: U32, symbol: string, rest: string)
    requires FixupPrintable(Fixup(offset, symbol, kind)) && Stops(rest)
    ensures FixupAfter(kind, ":" + Decimal(offset) + (":" + symbol + rest)) == Some((Fixup(offset, symbol, kind), rest))
  {
    NumberAfterColonReads(offset, 0x1_0000_0000, ":" + symbol + rest);
    AfterColonReads(symbol, rest, InSymbol);
  }

  lemma FixupText(name: string, offset: string, symbol: string, rest: string)
    ensures name + ":" + offset + ":" + symbol + rest == name + (":" + offset + (":" + symbol + rest))
  {
  }

  lemma FixupReads(f: Fixup, rest: string)
    requires FixupPrintable(f) && Stops(rest)
    ensures StartsWord(PrintFixup(f)) && ParseFixup(PrintFixup(f) + rest) == Some((f, rest))
  {
    var name := KindName(f.kind);
    KindNameReads(f.kind);
    FixupText(name, Decimal(f.offset), f.symbol, rest);
    WordReads(name, ":" + Decimal(f.offset) + (":" + f.symbol + rest), IsAlphanumeric);
    FixupAfterReads(f.kind, f.offset, f.symbol, rest);
  }

  lemma FixupsAreRead()
    ensures Reads(ParseFixup, PrintFixup, FixupPrintable)
  {
    forall f, rest ensures ReadsAt(ParseFixup, PrintFixup, FixupPrintable, f, rest) {
      if FixupPrintable(f) && Stops(rest) {
        FixupReads(f, rest);
      }
    }
  }

  method PrintFixups(fixups: seq<Fixup>) returns (out: string)
    ensures out == InBrackets(fixups, PrintFixup)
  {
    out := "[";
    out := PrintList(out, fixups, PrintFixup);
    out := out + "]";
  }

  function ParseFixups(s: string): Option<(seq<Fixup>, string)> {
    FixupsAreRead();
    Bracketed(s, ParseFixup)
  }

  /** A printed fixup list of any length comes back exactly when every symbol is a non-empty word
      over letters, digits, `_`, `.` and `$`. */
  lemma FixupsRoundTrip(fixups: seq<Fixup>)
    ensures ParseFixups(InBrackets(fixups, PrintFixup)) == Some((fixups, ""))
      <==> forall i | 0 <= i < |fixups| :: FixupPrintable(fixups[i])
  {
    FixupsAreRead();
    BracketedRoundTrip(fixups, ParseFixup, PrintFixup, FixupPrintable);
  }
}
