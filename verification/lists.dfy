/** Comma-separated lists in a token stream: their printer, and the parser that reads them back. */
module Lists {
  import opened Wrappers
  import opened Texts

  type Parser<T> = string -> Option<(T, string)>

  // ----- The combinators the parsers are built from -----

  function Spaces(s: string): (rest: string)
    ensures StartsOutside(rest, IsSpace) && |rest| <= |s|
  {
    TrimFront(s, IsSpace)
  }

  /** `many1(satisfy(p))`. */
  function Word(s: string, p: char -> bool): Option<(string, string)> {
    var n := Run(s, p);
    if n == 0 then None else Some((s[..n], s[n..]))
  }

  /** `spaced(token(c))`. */
  function Token(s: string, c: char): (r: Option<string>)
    ensures r.Some? ==> |r.value| < |s|
  {
    var t := Spaces(s);
    if t == "" || t[0] != c then None else Some(Spaces(t[1..]))
  }

  /** `spaced(item)`. */
  function Spaced<T>(s: string, item: Parser<T>): Option<(T, string)> {
    match item(Spaces(s))
    case None => None
    case Some((x, rest)) => Some((x, Spaces(rest)))
  }

  ghost predicate Consumes<T(!new)>(item: Parser<T>) {
    forall s :: item(s).Some? ==> |item(s).value.1| < |s|
  }

  /** What follows an item: a comma and the next item, any number of times. */
  function More<T(!new)>(s: string, item: Parser<T>): Option<(seq<T>, string)>
    requires Consumes(item)
    decreases |s|
  {
    match Token(s, ',')
    case None => Some(([], s))
    case Some(after) =>
      match Spaced(after, item)
      case None => None
      case Some((x, rest)) =>
        match More(rest, item)
        case None => None
        case Some((xs, end)) => Some(([x] + xs, end))
  }

  /** `sep_by(spaced(item), spaced(token(',')))`: no item at all is a list too, as long as nothing
      that an item could start with is there. */
  function SepBy<T(!new)>(s: string, item: Parser<T>): Option<(seq<T>, string)>
    requires Consumes(item)
  {
    if s == "" || !(IsSpace(s[0]) || IsAlphanumeric(s[0])) then Some(([], s))
    else
      match Spaced(s, item)
      case None => None
      case Some((x, rest)) =>
        match More(rest, item)
        case None => None
        case Some((xs, end)) => Some(([x] + xs, end))
  }

  // ----- Printing -----

  function Listed<T>(xs: seq<T>, print_: T -> string): string {
    if xs == [] then ""
    else if |xs| == 1 then print_(xs[0])
    else Listed(xs[..|xs| - 1], print_) + ", " + print_(xs[|xs| - 1])
  }

  method PrintList<T>(before: string, xs: seq<T>, print_: T -> string) returns (out: string)
    ensures out == before + Listed(xs, print_)
  {
    out := before;
    for i := 0 to |xs|
      invariant out == before + Listed(xs[..i], print_)
    {
      assert xs[..i + 1][..i] == xs[..i];
      if i > 0 {
        out := out + ", ";
      }
      out := out + print_(xs[i]);
    }
    assert xs[..|xs|] == xs;
  }

  // ----- Reading a printed list -----

  /** What may stand after an item: the end of the list, or the next comma. */
  predicate Stops(rest: string) {
    rest != "" && (rest[0] == ',' || rest[0] == ']' || rest[0] == ')')
  }

  predicate StartsWord(s: string) {
    s != "" && IsAlphanumeric(s[0])
  }

  /** A good item, printed, is read back up to where the list goes on. */
  predicate ReadsAt<T(==)>(item: Parser<T>, print_: T -> string, good: T -> bool, x: T, rest: string) {
    good(x) && Stops(rest) ==> StartsWord(print_(x)) && item(print_(x) + rest) == Some((x, rest))
  }

  ghost predicate Reads<T(!new)>(item: Parser<T>, print_: T -> string, good: T -> bool) {
    && Consumes(item)
    && (forall x, rest :: ReadsAt(item, print_, good, x, rest))
    && (forall s :: item(s).Some? ==> good(item(s).value.0))
  }

  ghost predicate AllGood<T(!new)>(xs: seq<T>, good: T -> bool) {
    forall i | 0 <= i < |xs| :: good(xs[i])
  }

  /** The text from the comma after an item on: the items `xs`, and then `end`. */
  function Rest<T>(xs: seq<T>, print_: T -> string, end: string): string {
    if xs == [] then end else [','] + " " + (print_(xs[0]) + Rest(xs[1..], print_, end))
  }

  lemma {:induction false} RestGrows<T>(xs: seq<T>, x: T, print_: T -> string, end: string)
    ensures Rest(xs + [x], print_, end) == Rest(xs, print_, [','] + " " + (print_(x) + end))
    decreases |xs|
  {
    if xs == [] {
      assert (xs + [x])[1..] == [];
    } else {
      RestGrows(xs[1..], x, print_, end);
      assert (xs + [x])[1..] == xs[1..] + [x];
    }
  }

  lemma {:induction false} ListedIsFirstAndRest<T>(xs: seq<T>, print_: T -> string, end: string)
    requires xs != []
    ensures Listed(xs, print_) + end == print_(xs[0]) + Rest(xs[1..], print_, end)
    decreases |xs|
  {
    if |xs| > 1 {
      var before, last := xs[..|xs| - 1], xs[|xs| - 1];
      ListedIsFirstAndRest(before, print_, [','] + " " + (print_(last) + end));
      RestGrows(before[1..], last, print_, end);
      assert before[1..] + [last] == xs[1..];
      CommaFirst(Listed(before, print_), print_(last), end);
    }
  }

  lemma CommaFirst(a: string, b: string, c: string)
    ensures (a + ", " + b) + c == a + ([','] + " " + (b + c))
  {
  }

  lemma {:induction false} NoSpacesToSkip(s: string)
    requires StartsOutside(s, IsSpace)
    ensures Spaces(s) == s
  {
  }

  lemma {:induction false} TokenReads(c: char, pad: string, after: string)
    requires !IsSpace(c) && All(pad, IsSpace) && StartsOutside(after, IsSpace)
    ensures Token([c] + pad + after, c) == Some(after)
  {
    var text := [c] + pad + after;
    NoSpacesToSkip(text);
    assert text[1..] == pad + after;
    RunIsThePrefix(pad, after, IsSpace);
    assert (pad + after)[|pad|..] == after;
  }

  lemma {:induction false} SpacedReads<T(!new)>(x: T, item: Parser<T>, print_: T -> string, good: T -> bool,
      after: string)
    requires Reads(item, print_, good) && good(x) && Stops(after)
    ensures StartsWord(print_(x) + after) && Spaced(print_(x) + after, item) == Some((x, after))
  {
    assert ReadsAt(item, print_, good, x, after);
    NoSpacesToSkip(print_(x) + after);
    NoSpacesToSkip(after);
  }

  lemma {:induction false} MoreStops<T(!new)>(item: Parser<T>, end: string)
    requires Consumes(item) && Stops(end) && end[0] != ','
    ensures More(end, item) == Some(([], end))
  {
    NoSpacesToSkip(end);
  }

  lemma {:induction false} MoreReadsOne<T(!new)>(x: T, xs: seq<T>, item: Parser<T>, print_: T -> string,
      good: T -> bool, after: string, end: string)
    requires Reads(item, print_, good) && good(x) && Stops(after) && More(after, item) == Some((xs, end))
    ensures
      var text := [','] + " " + (print_(x) + after);
      More(text, item) == Some(([x] + xs, end)) && Stops(text)
  {
    SpacedReads(x, item, print_, good, after);
    TokenReads(',', " ", print_(x) + after);
  }

  lemma {:induction false} RestFirst<T>(xs: seq<T>, print_: T -> string, end: string, after: string)
    requires xs != [] && after == Rest(xs[1..], print_, end)
    ensures Rest(xs, print_, end) == [','] + " " + (print_(xs[0]) + after)
  {
  }

  lemma {:induction false} MoreReadsRest<T(!new)>(xs: seq<T>, item: Parser<T>, print_: T -> string, good: T -> bool,
      end: string)
    requires Reads(item, print_, good) && AllGood(xs, good) && Stops(end) && end[0] != ','
    ensures More(Rest(xs, print_, end), item) == Some((xs, end))
    ensures Stops(Rest(xs, print_, end))
    decreases |xs|
  {
    if xs == [] {
      MoreStops(item, end);
    } else {
      var first, tail := xs[0], xs[1..];
      assert AllGood(tail, good) && xs == [first] + tail;
      MoreReadsRest(tail, item, print_, good, end);
      MoreReadsFirst(xs, first, tail, item, print_, good, Rest(tail, print_, end), end);
    }
  }

  lemma {:induction false} MoreReadsFirst<T(!new)>(xs: seq<T>, first: T, tail: seq<T>, item: Parser<T>, print_: T -> string,
      good: T -> bool, after: string, end: string)
    requires xs == [first] + tail && after == Rest(tail, print_, end)
    requires Reads(item, print_, good) && good(first) && Stops(after) && More(after, item) == Some((tail, end))
    ensures More(Rest(xs, print_, end), item) == Some((xs, end)) && Stops(Rest(xs, print_, end))
  {
    assert xs[0] == first && xs[1..] == tail;
    RestFirst(xs, print_, end, after);
    MoreReadsOne(first, tail, item, print_, good, after, end);
  }

  lemma {:induction false} SepByReadsListed<T(!new)>(xs: seq<T>, item: Parser<T>, print_: T -> string,
      good: T -> bool, end: string)
    requires Reads(item, print_, good) && AllGood(xs, good) && Stops(end) && end[0] != ','
    ensures SepBy(Listed(xs, print_) + end, item) == Some((xs, end))
  {
    if xs == [] {
      assert "" + end == end;
    } else {
      MoreReadsRest(xs[1..], item, print_, good, end);
      SpacedReads(xs[0], item, print_, good, Rest(xs[1..], print_, end));
      ListedIsFirstAndRest(xs, print_, end);
      assert [xs[0]] + xs[1..] == xs;
    }
  }

  // ----- What any list that is read holds -----

  lemma {:induction false} MoreIsGood<T(!new)>(s: string, item: Parser<T>, print_: T -> string, good: T -> bool)
    requires Reads(item, print_, good) && More(s, item).Some?
    ensures AllGood(More(s, item).value.0, good)
    decreases |s|
  {
    if Token(s, ',').Some? {
      MoreIsGood(Spaced(Token(s, ',').value, item).value.1, item, print_, good);
    }
  }

  lemma {:induction false} SepByIsGood<T(!new)>(s: string, item: Parser<T>, print_: T -> string, good: T -> bool)
    requires Reads(item, print_, good) && SepBy(s, item).Some?
    ensures AllGood(SepBy(s, item).value.0, good)
  {
    if s != "" && (IsSpace(s[0]) || IsAlphanumeric(s[0])) {
      MoreIsGood(Spaced(s, item).value.1, item, print_, good);
    }
  }

  // ----- Bracketed lists -----

  /** `between(spaced(token('[')), spaced(token(']')), …)`. */
  function Bracketed<T(!new)>(s: string, item: Parser<T>): Option<(seq<T>, string)>
    requires Consumes(item)
  {
    match Token(s, '[')
    case None => None
    case Some(inner) =>
      match SepBy(inner, item)
      case None => None
      case Some((xs, end)) =>
        match Token(end, ']')
        case None => None
        case Some(rest) => Some((xs, rest))
  }

  function InBrackets<T>(xs: seq<T>, print_: T -> string): string {
    "[" + Listed(xs, print_) + "]"
  }

  lemma {:induction false} TokenReadsFirst(c: char, rest: string)
    requires !IsSpace(c)
    ensures Token([c] + rest, c) == Some(Spaces(rest))
  {
    NoSpacesToSkip([c] + rest);
    assert ([c] + rest)[1..] == rest;
  }

  lemma {:induction false} ListStartsOutside<T(!new)>(xs: seq<T>, item: Parser<T>, print_: T -> string,
      good: T -> bool, end: string)
    requires Reads(item, print_, good) && AllGood(xs, good) && Stops(end)
    ensures StartsOutside(Listed(xs, print_) + end, IsSpace)
  {
    if xs == [] {
      assert "" + end == end;
    } else {
      assert good(xs[0]) && ReadsAt(item, print_, good, xs[0], end);
      ListedIsFirstAndRest(xs, print_, end);
    }
  }

  /** A printed list is read back when all its items are good. */
  lemma {:induction false} BracketedReads<T(!new)>(xs: seq<T>, item: Parser<T>, print_: T -> string, good: T -> bool,
      rest: string)
    requires Reads(item, print_, good) && AllGood(xs, good)
    ensures Bracketed(InBrackets(xs, print_) + rest, item) == Some((xs, Spaces(rest)))
  {
    var end := [']'] + rest;
    SepByReadsListed(xs, item, print_, good, end);
    ListStartsOutside(xs, item, print_, good, end);
    TokenReadsFirst(']', rest);
    BracketsOpen(Listed(xs, print_), rest);
  }

  lemma {:induction false} BracketsOpen(listed: string, rest: string)
    requires StartsOutside(listed + ([']'] + rest), IsSpace)
    ensures Token(("[" + listed + "]") + rest, '[') == Some(listed + ([']'] + rest))
  {
    assert ("[" + listed + "]") + rest == ['['] + (listed + ([']'] + rest));
    TokenReadsFirst('[', listed + ([']'] + rest));
    NoSpacesToSkip(listed + ([']'] + rest));
  }

  /** A printed list comes back exactly when all its items are good. */
  lemma {:induction false} BracketedRoundTrip<T(!new)>(xs: seq<T>, item: Parser<T>, print_: T -> string,
      good: T -> bool)
    requires Reads(item, print_, good)
    ensures Bracketed(InBrackets(xs, print_), item) == Some((xs, "")) <==> AllGood(xs, good)
  {
    var text := InBrackets(xs, print_);
    if AllGood(xs, good) {
      assert text + "" == text;
      BracketedReads(xs, item, print_, good, "");
      NoSpacesToSkip("");
    } else if Bracketed(text, item).Some? {
      SepByIsGood(Token(text, '[').value, item, print_, good);
    }
  }
}
