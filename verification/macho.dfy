/** The symbol and relocation tables of a Mach-O object, kept as text attributes. */
module MachO {
  import opened Wrappers
  import opened Texts

  datatype Symbol = Symbol(name: string, offset: U64, external: bool, defined: bool)

  datatype Relocation = Relocation(offset: U32, symbol: string, pcrel: bool, length: U8, external: bool, kind: U8)

  function Flag(b: bool): string {
    if b then "1" else "0"
  }

  function Texted<T>(xs: seq<T>, line: T -> string): (lines: seq<string>)
    ensures |lines| == |xs| && forall i | 0 <= i < |xs| :: lines[i] == line(xs[i])
  {
    seq(|xs|, i requires 0 <= i < |xs| => line(xs[i]))
  }

  /** `map(..).collect().join("\n")`. */
  function Encode<T>(xs: seq<T>, line: T -> string): string {
    Join(Texted(xs, line), '\n')
  }

  function Decoded<T>(lines: seq<string>, read: string -> Option<T>): seq<T> {
    if lines == [] then []
    else
      match read(lines[0])
      case None => Decoded(lines[1..], read)
      case Some(x) => [x] + Decoded(lines[1..], read)
  }

  /** `lines().filter_map(..).collect()`. */
  function Decode<T>(text: string, read: string -> Option<T>): seq<T> {
    Decoded(Lines(text), read)
  }

  // ----- Symbols -----

  function SymbolFields(s: Symbol): seq<string> {
    [s.name, Decimal(s.offset), Flag(s.external), Flag(s.defined)]
  }

  function SymbolLine(s: Symbol): string {
    Join(SymbolFields(s), ':')
  }

  function EncodeSymbols(symbols: seq<Symbol>): string {
    Encode(symbols, SymbolLine)
  }

  /** A symbol without a fourth field counts as defined; fields past the fourth are not read. */
  function SymbolOf(parts: seq<string>): Option<Symbol> {
    if |parts| < 2 then None
    else
      match ParseUnsigned(parts[1], 0x1_0000_0000_0000_0000)
      case None => None
      case Some(offset) =>
        if |parts| < 3 then None
        else Some(Symbol(parts[0], offset, parts[2] == "1", |parts| < 4 || parts[3] == "1"))
  }

  function ReadSymbol(line: string): Option<Symbol> {
    SymbolOf(Split(line, ':'))
  }

  function DecodeSymbols(text: string): seq<Symbol> {
    Decode(text, ReadSymbol)
  }

  // ----- Relocations -----

  function RelocationFields(r: Relocation): seq<string> {
    [Decimal(r.offset), r.symbol, Flag(r.pcrel), Decimal(r.length), Flag(r.external), Decimal(r.kind)]
  }

  function RelocationLine(r: Relocation): string {
    Join(RelocationFields(r), ':')
  }

  function EncodeRelocations(relocations: seq<Relocation>): string {
    Encode(relocations, RelocationLine)
  }

  function RelocationOf(parts: seq<string>): Option<Relocation> {
    if |parts| < 6 then None
    else
      match (ParseUnsigned(parts[0], 0x1_0000_0000), ParseUnsigned(parts[3], 0x100), ParseUnsigned(parts[5], 0x100))
      case (Some(offset), Some(length), Some(kind)) =>
        Some(Relocation(offset, parts[1], parts[2] == "1", length, parts[4] == "1", kind))
      case _ => None
  }

  function ReadRelocation(line: string): Option<Relocation> {
    RelocationOf(Split(line, ':'))
  }

  function DecodeRelocations(text: string): seq<Relocation> {
    Decode(text, ReadRelocation)
  }

  // ----- When a table comes back -----

  predicate PlainName(name: string) {
    ':' !in name && '\n' !in name
  }

  /** Lines of text, one for each of `xs`, that no line feed or carriage return breaks. */
  lemma {:induction false} EncodedLines<T>(xs: seq<T>, line: T -> string)
    requires forall i | 0 <= i < |xs| :: '\n' !in line(xs[i]) && line(xs[i]) != ""
    requires forall i | 0 <= i < |xs| :: line(xs[i])[|line(xs[i])| - 1] != '\r'
    ensures Lines(Encode(xs, line)) == Texted(xs, line)
  {
    var lines := Texted(xs, line);
    if xs == [] {
      assert Split("", '\n') == [""];
    } else {
      assert NoneHolds(lines, '\n');
      SplitUndoesJoin(lines, '\n');
      var last := |lines| - 1;
      assert StripReturns(lines[..last]) == lines[..last];
      assert lines[..last] + [lines[last]] == lines;
    }
  }

  lemma {:induction false} DecodedEach<T>(xs: seq<T>, line: T -> string, read: string -> Option<T>)
    requires forall i | 0 <= i < |xs| :: read(line(xs[i])) == Some(xs[i])
    ensures Decoded(Texted(xs, line), read) == xs
  {
    if xs != [] {
      assert Texted(xs, line)[1..] == Texted(xs[1..], line);
      DecodedEach(xs[1..], line, read);
      assert [xs[0]] + xs[1..] == xs;
    }
  }

  /** Whatever is decoded was read from some line. */
  lemma {:induction false} DecodedFromLines<T>(lines: seq<string>, read: string -> Option<T>, i: nat)
    requires i < |Decoded(lines, read)|
    ensures exists j :: 0 <= j < |lines| && read(lines[j]) == Some(Decoded(lines, read)[i])
  {
    if read(lines[0]).None? {
      DecodedFromLines(lines[1..], read, i);
      var j :| 0 <= j < |lines[1..]| && read(lines[1..][j]) == Some(Decoded(lines, read)[i]);
      assert lines[j + 1] == lines[1..][j];
    } else if i == 0 {
      assert read(lines[0]) == Some(Decoded(lines, read)[0]);
    } else {
      DecodedFromLines(lines[1..], read, i - 1);
      var j :| 0 <= j < |lines[1..]| && read(lines[1..][j]) == Some(Decoded(lines, read)[i]);
      assert lines[j + 1] == lines[1..][j];
    }
  }

  /** What the two tables share: a line is read back when its name is plain, and no name that is
      read holds a colon or a line feed. */
  ghost predicate Tabular<T(!new)>(line: T -> string, read: string -> Option<T>, name: T -> string) {
    && (forall x | PlainName(name(x)) ::
          && read(line(x)) == Some(x) && '\n' !in line(x)
          && line(x) != "" && line(x)[|line(x)| - 1] != '\r')
    && (forall l | '\n' !in l && read(l).Some? :: PlainName(name(read(l).value)))
  }

  lemma {:induction false} TableComesBack<T(!new)>(xs: seq<T>, line: T -> string, read: string -> Option<T>,
      name: T -> string)
    requires Tabular(line, read, name)
    ensures Decode(Encode(xs, line), read) == xs <==> forall i | 0 <= i < |xs| :: PlainName(name(xs[i]))
  {
    if forall i | 0 <= i < |xs| :: PlainName(name(xs[i])) {
      EncodedLines(xs, line);
      DecodedEach(xs, line, read);
    }
    if Decode(Encode(xs, line), read) == xs {
      var lines := Lines(Encode(xs, line));
      LinesAreSingle(Encode(xs, line));
      forall i | 0 <= i < |xs| ensures PlainName(name(xs[i])) {
        DecodedFromLines(lines, read, i);
      }
    }
  }

  lemma {:induction false} DecimalIsPlain(n: nat)
    ensures PlainName(Decimal(n)) && Decimal(n) != "" && '\r' !in Decimal(n)
  {
    assert All(Decimal(n), IsDigit);
  }

  lemma {:induction false} JoinHolds(pieces: seq<string>, sep: char, c: char)
    requires c != sep && NoneHolds(pieces, c)
    ensures c !in Join(pieces, sep)
  {
    if |pieces| > 1 {
      assert NoneHolds(pieces[1..], c);
      JoinHolds(pieces[1..], sep, c);
    }
  }

  lemma {:induction false} JoinEnds(pieces: seq<string>, sep: char)
    requires pieces != [] && pieces[|pieces| - 1] != ""
    ensures
      var text, last := Join(pieces, sep), pieces[|pieces| - 1];
      text != "" && text[|text| - 1] == last[|last| - 1]
    decreases |pieces|
  {
    if |pieces| > 1 {
      JoinEnds(pieces[1..], sep);
    }
  }

  lemma {:induction false} PiecesOf(line: string)
    requires '\n' !in line
    ensures forall i | 0 <= i < |Split(line, ':')| :: PlainName(Split(line, ':')[i])
  {
    var pieces := Split(line, ':');
    JoinUndoesSplit(line, ':');
    forall i | 0 <= i < |pieces| ensures PlainName(pieces[i]) {
      assert ':' !in pieces[i];
      JoinKeeps(pieces, ':', '\n', i);
    }
  }

  lemma {:induction false} JoinKeeps(pieces: seq<string>, sep: char, c: char, i: nat)
    requires i < |pieces| && c !in Join(pieces, sep)
    ensures c !in pieces[i]
    decreases |pieces|
  {
    if |pieces| > 1 {
      var head, tail := pieces[0], Join(pieces[1..], sep);
      assert Join(pieces, sep) == head + [sep] + tail;
      if i > 0 {
        JoinKeeps(pieces[1..], sep, c, i - 1);
      }
    }
  }

  predicate AllPlain(fields: seq<string>) {
    forall i | 0 <= i < |fields| :: PlainName(fields[i])
  }

  /** A line of plain fields, the last of them a word, splits into its fields again. */
  lemma {:induction false} FieldsAreRead(fields: seq<string>)
    requires fields != [] && AllPlain(fields)
    requires fields[|fields| - 1] != "" && '\r' !in fields[|fields| - 1]
    ensures
      var line := Join(fields, ':');
      Split(line, ':') == fields && '\n' !in line && line != "" && line[|line| - 1] != '\r'
  {
    assert forall i | 0 <= i < |fields| :: PlainName(fields[i]);
    SplitUndoesJoin(fields, ':');
    JoinHolds(fields, ':', '\n');
    JoinEnds(fields, ':');
  }

  // ----- Symbols come back -----

  lemma SymbolFieldsRead(s: Symbol)
    ensures SymbolOf(SymbolFields(s)) == Some(s)
  {
    DecimalParses(s.offset, 0x1_0000_0000_0000_0000);
  }

  /** Lines from before there was a fourth field are read as defined symbols, fields past it are not
      read, and a line is refused exactly for fewer than three fields or an offset that is no number. */
  lemma SymbolsAreRefusedWhen(parts: seq<string>)
    ensures SymbolOf(parts).None? <==> |parts| < 3 || ParseUnsigned(parts[1], 0x1_0000_0000_0000_0000).None?
    ensures SymbolOf(parts).Some? ==> (SymbolOf(parts).value.defined <==> |parts| == 3 || parts[3] == "1")
    ensures SymbolOf(parts).Some? && |parts| > 4 ==> SymbolOf(parts) == SymbolOf(parts[..4])
  {
  }

  lemma SymbolFieldsArePlain(s: Symbol)
    requires PlainName(s.name)
    ensures AllPlain(SymbolFields(s))
  {
    DecimalIsPlain(s.offset);
  }

  lemma {:induction false} SymbolReads(s: Symbol)
    requires PlainName(s.name)
    ensures ReadSymbol(SymbolLine(s)) == Some(s) && '\n' !in SymbolLine(s)
    ensures SymbolLine(s) != "" && SymbolLine(s)[|SymbolLine(s)| - 1] != '\r'
  {
    SymbolFieldsRead(s);
    SymbolFieldsArePlain(s);
    FieldsAreRead(SymbolFields(s));
  }

  lemma {:induction false} SymbolsAreTabular()
    ensures Tabular(SymbolLine, ReadSymbol, (s: Symbol) => s.name)
  {
    forall s: Symbol | PlainName(s.name)
      ensures ReadSymbol(SymbolLine(s)) == Some(s) && '\n' !in SymbolLine(s)
      ensures SymbolLine(s) != "" && SymbolLine(s)[|SymbolLine(s)| - 1] != '\r'
    {
      SymbolReads(s);
    }
    forall l | '\n' !in l && ReadSymbol(l).Some? ensures PlainName(ReadSymbol(l).value.name) {
      PiecesOf(l);
    }
  }

  /** A symbol table of any length comes back exactly when no name holds a colon or a line feed. */
  lemma {:induction false} SymbolsRoundTrip(symbols: seq<Symbol>)
    ensures DecodeSymbols(EncodeSymbols(symbols)) == symbols
      <==> forall i | 0 <= i < |symbols| :: PlainName(symbols[i].name)
  {
    SymbolsAreTabular();
    TableComesBack(symbols, SymbolLine, ReadSymbol, (s: Symbol) => s.name);
  }

  /** A name with a colon does not. */
  lemma ColonsAreLost()
    ensures var symbols := [Symbol("a:b", 0, true, true)]; DecodeSymbols(EncodeSymbols(symbols)) != symbols
  {
    var symbols := [Symbol("a:b", 0, true, true)];
    assert symbols[0].name[1] == ':';
    SymbolsRoundTrip(symbols);
  }

  // ----- Relocations come back -----

  lemma NumbersMakeRelocation(r: Relocation, offset: string, length: string, kind: string)
    requires ParseUnsigned(offset, 0x1_0000_0000) == Some(r.offset)
    requires ParseUnsigned(length, 0x100) == Some(r.length) && ParseUnsigned(kind, 0x100) == Some(r.kind)
    ensures RelocationOf([offset, r.symbol, Flag(r.pcrel), length, Flag(r.external), kind]) == Some(r)
  {
  }

  lemma RelocationFieldsRead(r: Relocation)
    ensures RelocationOf(RelocationFields(r)) == Some(r)
  {
    var offset, length, kind := Decimal(r.offset), Decimal(r.length), Decimal(r.kind);
    DecimalParses(r.offset, 0x1_0000_0000);
    DecimalParses(r.length, 0x100);
    DecimalParses(r.kind, 0x100);
    NumbersMakeRelocation(r, offset, length, kind);
  }

  lemma RelocationFieldsArePlain(r: Relocation)
    requires PlainName(r.symbol)
    ensures AllPlain(RelocationFields(r))
  {
    DecimalIsPlain(r.offset);
    DecimalIsPlain(r.length);
    DecimalIsPlain(r.kind);
  }

  lemma {:induction false} RelocationReads(r: Relocation)
    requires PlainName(r.symbol)
    ensures ReadRelocation(RelocationLine(r)) == Some(r) && '\n' !in RelocationLine(r)
    ensures RelocationLine(r) != "" && RelocationLine(r)[|RelocationLine(r)| - 1] != '\r'
  {
    RelocationFieldsRead(r);
    RelocationFieldsArePlain(r);
    DecimalIsPlain(r.kind);
    FieldsAreRead(RelocationFields(r));
  }

  lemma {:induction false} RelocationsAreTabular()
    ensures Tabular(RelocationLine, ReadRelocation, (r: Relocation) => r.symbol)
  {
    forall r: Relocation | PlainName(r.symbol)
      ensures ReadRelocation(RelocationLine(r)) == Some(r) && '\n' !in RelocationLine(r)
      ensures RelocationLine(r) != "" && RelocationLine(r)[|RelocationLine(r)| - 1] != '\r'
    {
      RelocationReads(r);
    }
    forall l | '\n' !in l && ReadRelocation(l).Some? ensures PlainName(ReadRelocation(l).value.symbol) {
      PiecesOf(l);
    }
  }

  /** A relocation table of any length comes back exactly when no symbol holds a colon or a line
      feed. */
  lemma {:induction false} RelocationsRoundTrip(relocations: seq<Relocation>)
    ensures DecodeRelocations(EncodeRelocations(relocations)) == relocations
      <==> forall i | 0 <= i < |relocations| :: PlainName(relocations[i].symbol)
  {
    RelocationsAreTabular();
    TableComesBack(relocations, RelocationLine, ReadRelocation, (r: Relocation) => r.symbol);
  }
}
