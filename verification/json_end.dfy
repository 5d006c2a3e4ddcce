/** Finding the end of the JSON text that a trace file starts with. */
module JsonEnds {
  import opened Wrappers
  import opened Texts

  /** The scanner's place in a JSON text: how many of the outermost kind of bracket are open, and
      whether it is inside a string, after a backslash there. */
  datatype Place = Place(depth: nat, inString: bool, escaped: bool)

  datatype Brackets = Brackets(start: char, stop: char)

  const BRACES := Brackets('{', '}')
  const SQUARES := Brackets('[', ']')

  /** One character further, or nothing when it closes the outermost bracket. */
  function Next(at: Place, c: char, kind: Brackets): (r: Option<Place>) {
    if at.inString then
      if at.escaped then Some(at.(escaped := false))
      else if c == '\\' then Some(at.(escaped := true))
      else if c == '"' then Some(at.(inString := false))
      else Some(at)
    else if c == '"' then Some(at.(inString := true))
    else if c == kind.start then Some(at.(depth := at.depth + 1))
    else if c != kind.stop then Some(at)
    else if at.depth <= 1 then None
    else Some(at.(depth := at.depth - 1))
  }

  /** The place after all of `s`, or nothing when the outermost bracket closes in it. */
  function After(at: Place, s: string, kind: Brackets): Option<Place> {
    if s == "" then Some(at)
    else
      var before := After(at, s[..|s| - 1], kind);
      if before.None? then None else Next(before.value, s[|s| - 1], kind)
  }

  function KindOf(first: char): Option<Brackets> {
    if first == '{' then Some(BRACES) else if first == '[' then Some(SQUARES) else None
  }

  const INSIDE := Place(1, false, false)

  /** The bracket that opens `src` is closed by the character before `end`. */
  predicate ClosesAt(src: string, end: nat) {
    && 2 <= end <= |src|
    && KindOf(src[0]).Some?
    && var kind := KindOf(src[0]).value;
       var before := After(INSIDE, src[1..end - 1], kind);
       before.Some? && Next(before.value, src[end - 1], kind).None?
  }

  /** What one more character does. */
  lemma ScanStep(src: string, i: nat, kind: Brackets, at: Place)
    requires 1 <= i < |src| && KindOf(src[0]) == Some(kind) && After(INSIDE, src[1..i], kind) == Some(at)
    ensures After(INSIDE, src[1..i + 1], kind) == Next(at, src[i], kind)
    ensures ClosesAt(src, i + 1) <==> Next(at, src[i], kind).None?
  {
    assert src[1..i + 1][..i - 1] == src[1..i];
  }

  method FindJsonEnd(src: string) returns (end: Option<nat>)
    ensures end.Some? ==> ClosesAt(src, end.value)
    ensures end.None? ==> forall n: nat :: !ClosesAt(src, n)
  {
    if src == "" {
      return None;
    }
    var kind;
    match src[0] {
      case '{' => kind := BRACES;
      case '[' => kind := SQUARES;
      case _ => return None;
    }
    var depth, inString, escaped, i := 1, false, false, 1;
    while i < |src|
      invariant 1 <= i <= |src| && KindOf(src[0]) == Some(kind)
      invariant depth >= 1 && After(INSIDE, src[1..i], kind) == Some(Place(depth, inString, escaped))
      invariant forall n: nat | n <= i :: !ClosesAt(src, n)
    {
      var ch := src[i];
      ScanStep(src, i, kind, Place(depth, inString, escaped));
      if inString {
        if escaped {
          escaped := false;
        } else if ch == '\\' {
          escaped := true;
        } else if ch == '"' {
          inString := false;
        }
      } else if ch == '"' {
        inString := true;
      } else if ch == kind.start {
        depth := depth + 1;
      } else if ch == kind.stop {
        depth := depth - 1;
        if depth == 0 {
          return Some(i + 1);
        }
      }
      i := i + 1;
    }
    return None;
  }

  lemma {:induction false} AfterConcat(at: Place, a: string, b: string, kind: Brackets)
    ensures After(at, a + b, kind)
         == if After(at, a, kind).None? then None else After(After(at, a, kind).value, b, kind)
  {
    if b == "" {
      assert a + b == a;
    } else {
      var shorter := b[..|b| - 1];
      AfterConcat(at, a, shorter, kind);
      assert (a + b)[..|a + b| - 1] == a + shorter;
    }
  }

  lemma {:induction false} ClosedStays(src: string, lo: nat, hi: nat)
    requires ClosesAt(src, lo) && lo < hi <= |src|
    ensures After(INSIDE, src[1..hi - 1], KindOf(src[0]).value).None?
  {
    var kind, head := KindOf(src[0]).value, src[1..lo];
    assert head[..lo - 2] == src[1..lo - 1] && head[lo - 2] == src[lo - 1];
    assert After(INSIDE, head, kind).None?;
    assert src[1..hi - 1] == head + src[lo..hi - 1];
    AfterConcat(INSIDE, head, src[lo..hi - 1], kind);
  }

  /** A bracket closes in one place only. */
  lemma {:induction false} ClosesOnce(src: string, m: nat, n: nat)
    requires ClosesAt(src, m) && ClosesAt(src, n)
    ensures m == n
  {
    if m < n {
      ClosedStays(src, m, n);
    } else if n < m {
      ClosedStays(src, n, m);
    }
  }

  // ----- JSON texts (RFC 8259) -----

  /** One character of a string: itself, or a backslash and the character it escapes. The four
      digits of a `\u` escape are plain characters after it. */
  datatype Unit = Plain(c: char) | Escape(c: char)

  datatype Name = Name(before: string, units: seq<Unit>, after: string)

  /** An element of an array, or a member of an object when it has a name; with its white space. */
  datatype Element = Element(name: Option<Name>, before: string, value: Json, after: string)

  datatype Elements = Nothing(gap: string) | Last(only: Element) | More(first: Element, rest: Elements)

  datatype Json =
    | Scalar(text: string)
    | Text(units: seq<Unit>)
    | Array(items: Elements)
    | Object(members: Elements)

  predicate IsBlank(c: char) {
    c == ' ' || c == '\t' || c == '\n' || c == '\r'
  }

  predicate InNumber(c: char) {
    IsDigit(c) || c == '+' || c == '-' || c == '.' || c == 'e' || c == 'E'
  }

  predicate UnitsFit(units: seq<Unit>) {
    forall i | 0 <= i < |units| :: units[i].Plain? ==> units[i].c != '"' && units[i].c != '\\'
  }

  predicate NameFits(name: Name) {
    All(name.before, IsBlank) && UnitsFit(name.units) && All(name.after, IsBlank)
  }

  /** Section 2 to 7 of RFC 8259; the texts let through as numbers include all the numbers. */
  predicate WellFormed(j: Json) {
    match j
    case Scalar(text) => text == "true" || text == "false" || text == "null" || All(text, InNumber)
    case Text(units) => UnitsFit(units)
    case Array(items) => ElementsFit(items, false)
    case Object(members) => ElementsFit(members, true)
  }

  predicate ElementFits(e: Element, named: bool) {
    && All(e.before, IsBlank) && WellFormed(e.value) && All(e.after, IsBlank)
    && e.name.Some? == named && (named ==> NameFits(e.name.value))
  }

  predicate ElementsFit(es: Elements, named: bool) {
    match es
    case Nothing(gap) => All(gap, IsBlank)
    case Last(only) => ElementFits(only, named)
    case More(first, rest) => ElementFits(first, named) && !rest.Nothing? && ElementsFit(rest, named)
  }

  function SpellUnit(unit: Unit): string {
    match unit
    case Plain(c) => [c]
    case Escape(c) => ['\\', c]
  }

  function SpellUnits(units: seq<Unit>): string {
    if units == [] then ""
    else SpellUnits(units[..|units| - 1]) + SpellUnit(units[|units| - 1])
  }

  function Quoted(units: seq<Unit>): string {
    "\"" + SpellUnits(units) + "\""
  }

  function Spell(j: Json): string {
    match j
    case Scalar(text) => text
    case Text(units) => Quoted(units)
    case Array(items) => "[" + SpellElements(items) + "]"
    case Object(members) => "{" + SpellElements(members) + "}"
  }

  function SpellName(name: Option<Name>): string {
    match name
    case None => ""
    case Some(n) => n.before + Quoted(n.units) + n.after + ":"
  }

  function SpellElement(e: Element): string {
    SpellName(e.name) + e.before + Spell(e.value) + e.after
  }

  function SpellElements(es: Elements): string {
    match es
    case Nothing(gap) => gap
    case Last(only) => SpellElement(only)
    case More(first, rest) => SpellElement(first) + "," + SpellElements(rest)
  }

  // ----- A JSON text leaves the scanner where it was -----

  predicate Passes(depth: nat, s: string, kind: Brackets) {
    After(Place(depth, false, false), s, kind) == Some(Place(depth, false, false))
  }

  predicate Quiet(c: char) {
    c != '"' && c != '{' && c != '}' && c != '[' && c != ']'
  }

  predicate IsKind(kind: Brackets) {
    kind == BRACES || kind == SQUARES
  }

  lemma {:induction false} QuietPasses(depth: nat, s: string, kind: Brackets)
    requires All(s, Quiet) && IsKind(kind)
    ensures Passes(depth, s, kind)
  {
    if s != "" {
      QuietPasses(depth, s[..|s| - 1], kind);
    }
  }

  lemma {:induction false} ConcatPasses(depth: nat, a: string, b: string, kind: Brackets)
    requires Passes(depth, a, kind) && Passes(depth, b, kind)
    ensures Passes(depth, a + b, kind)
  {
    AfterConcat(Place(depth, false, false), a, b, kind);
  }

  lemma {:induction false} UnitsStayInString(depth: nat, units: seq<Unit>, kind: Brackets)
    requires UnitsFit(units)
    ensures After(Place(depth, true, false), SpellUnits(units), kind) == Some(Place(depth, true, false))
  {
    if units != [] {
      var shorter, u := units[..|units| - 1], units[|units| - 1];
      UnitsStayInString(depth, shorter, kind);
      var at, before := Place(depth, true, false), SpellUnits(shorter);
      match u {
        case Plain(c) =>
          assert (before + [c])[..|before|] == before;
        case Escape(c) =>
          var text := before + ['\\', c];
          assert text[..|before| + 1] == before + ['\\'];
          assert (before + ['\\'])[..|before|] == before;
          assert After(at, before + ['\\'], kind) == Some(Place(depth, true, true));
      }
    }
  }

  lemma {:induction false} QuotedPasses(depth: nat, units: seq<Unit>, kind: Brackets)
    requires UnitsFit(units)
    ensures Passes(depth, Quoted(units), kind)
  {
    var at := Place(depth, false, false);
    assert "\""[..0] == "";
    assert After(at, "", kind) == Some(at);
    assert After(at, "\"", kind) == Some(Place(depth, true, false));
    AfterConcat(at, "\"", SpellUnits(units), kind);
    UnitsStayInString(depth, units, kind);
    assert Quoted(units)[..|Quoted(units)| - 1] == "\"" + SpellUnits(units);
  }

  /** What is between a pair of brackets passes at the depth that they make. */
  lemma {:induction false} EnclosedPasses(depth: nat, s: string, pair: Brackets, kind: Brackets)
    requires depth >= 1 && IsKind(pair) && IsKind(kind)
    requires Passes(if pair == kind then depth + 1 else depth, s, kind)
    ensures Passes(depth, [pair.start] + s + [pair.stop], kind)
  {
    var at := Place(depth, false, false);
    assert After(at, "", kind) == Some(at);
    assert [pair.start][..0] == "";
    AfterConcat(at, [pair.start], s, kind);
    var text := [pair.start] + s + [pair.stop];
    assert text[..|text| - 1] == [pair.start] + s;
  }

  lemma {:induction false} JsonPasses(depth: nat, j: Json, kind: Brackets)
    requires WellFormed(j) && depth >= 1 && IsKind(kind)
    ensures Passes(depth, Spell(j), kind)
    decreases j
  {
    match j {
      case Scalar(text) =>
        assert All(text, Quiet);
        QuietPasses(depth, text, kind);
      case Text(units) =>
        QuotedPasses(depth, units, kind);
      case Array(items) =>
        var inner := if kind == SQUARES then depth + 1 else depth;
        ElementsPass(inner, items, false, kind);
        EnclosedPasses(depth, SpellElements(items), SQUARES, kind);
      case Object(members) =>
        var inner := if kind == BRACES then depth + 1 else depth;
        ElementsPass(inner, members, true, kind);
        EnclosedPasses(depth, SpellElements(members), BRACES, kind);
    }
  }

  lemma {:induction false} BlankPasses(depth: nat, s: string, kind: Brackets)
    requires All(s, IsBlank) && IsKind(kind)
    ensures Passes(depth, s, kind)
  {
    assert All(s, Quiet);
    QuietPasses(depth, s, kind);
  }

  lemma {:induction false} NamePasses(depth: nat, name: Option<Name>, kind: Brackets)
    requires (name.Some? ==> NameFits(name.value)) && IsKind(kind)
    ensures Passes(depth, SpellName(name), kind)
  {
    match name {
      case None =>
      case Some(n) =>
        BlankPasses(depth, n.before, kind);
        QuotedPasses(depth, n.units, kind);
        BlankPasses(depth, n.after, kind);
        QuietPasses(depth, ":", kind);
        ConcatPasses(depth, n.before, Quoted(n.units), kind);
        ConcatPasses(depth, n.before + Quoted(n.units), n.after, kind);
        ConcatPasses(depth, n.before + Quoted(n.units) + n.after, ":", kind);
    }
  }

  lemma {:induction false} ElementPasses(depth: nat, e: Element, named: bool, kind: Brackets)
    requires ElementFits(e, named) && depth >= 1 && IsKind(kind)
    ensures Passes(depth, SpellElement(e), kind)
    decreases e
  {
    NamePasses(depth, e.name, kind);
    BlankPasses(depth, e.before, kind);
    JsonPasses(depth, e.value, kind);
    BlankPasses(depth, e.after, kind);
    ConcatPasses(depth, SpellName(e.name), e.before, kind);
    ConcatPasses(depth, SpellName(e.name) + e.before, Spell(e.value), kind);
    ConcatPasses(depth, SpellName(e.name) + e.before + Spell(e.value), e.after, kind);
  }

  lemma {:induction false} ElementsPass(depth: nat, es: Elements, named: bool, kind: Brackets)
    requires ElementsFit(es, named) && depth >= 1 && IsKind(kind)
    ensures Passes(depth, SpellElements(es), kind)
    decreases es
  {
    match es {
      case Nothing(gap) =>
        BlankPasses(depth, gap, kind);
      case Last(only) =>
        ElementPasses(depth, only, named, kind);
      case More(first, rest) =>
        ElementPasses(depth, first, named, kind);
        QuietPasses(depth, ",", kind);
        ElementsPass(depth, rest, named, kind);
        ConcatPasses(depth, SpellElement(first), ",", kind);
        ConcatPasses(depth, SpellElement(first) + ",", SpellElements(rest), kind);
    }
  }

  /** The scanner stops exactly at the end of a JSON object or array, whatever comes after it. */
  lemma {:induction false} ClosesAtTheEnd(j: Json, rest: string)
    requires WellFormed(j) && (j.Object? || j.Array?)
    ensures ClosesAt(Spell(j) + rest, |Spell(j)|)
  {
    var inner := if j.Object? then SpellElements(j.members) else SpellElements(j.items);
    var src, end := Spell(j) + rest, |Spell(j)|;
    assert src[1..end - 1] == inner;
    match j {
      case Object(members) => ElementsPass(1, members, true, BRACES);
      case Array(items) => ElementsPass(1, items, false, SQUARES);
      case _ =>
    }
  }
}
