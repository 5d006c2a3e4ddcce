/** The string operations of Rust's standard library that the text formats are written with, over
    sequences of characters: trimming, splitting, lines and decimal numbers. */
module Texts {
  import opened Wrappers

  type U8 = n: nat | n < 0x100
  type U32 = n: nat | n < 0x1_0000_0000
  type U64 = n: nat | n < 0x1_0000_0000_0000_0000

  // ----- Character classes -----

  /** The characters with the Unicode property White_Space. */
  predicate IsSpace(c: char) {
    || '\t' <= c <= '\r' || c == ' ' || c == '\U{0085}' || c == '\U{00A0}' || c == '\U{1680}'
    || '\U{2000}' <= c <= '\U{200A}' || c == '\U{2028}' || c == '\U{2029}' || c == '\U{202F}'
    || c == '\U{205F}' || c == '\U{3000}'
  }

  predicate IsDigit(c: char) {
    '0' <= c <= '9'
  }

  predicate IsAlphanumeric(c: char) {
    IsDigit(c) || 'a' <= c <= 'z' || 'A' <= c <= 'Z'
  }

  predicate IsNewline(c: char) {
    c == '\n'
  }

  predicate All(s: string, p: char -> bool) {
    forall i | 0 <= i < |s| :: p(s[i])
  }

  // ----- Runs and trimming -----

  /** How many characters at the front of `s` are in the class, up to the first that is not. */
  function Run(s: string, p: char -> bool): (n: nat)
    ensures n <= |s| && All(s[..n], p) && (n < |s| ==> !p(s[n]))
  {
    if s == "" || !p(s[0]) then 0
    else
      var n := 1 + Run(s[1..], p);
      assert forall i | 0 < i < n :: s[i] == s[1..][i - 1];
      n
  }

  predicate StartsOutside(s: string, p: char -> bool) {
    s != "" ==> !p(s[0])
  }

  predicate EndsOutside(s: string, p: char -> bool) {
    s != "" ==> !p(s[|s| - 1])
  }

  lemma {:induction false} RunIsThePrefix(a: string, b: string, p: char -> bool)
    requires All(a, p) && StartsOutside(b, p)
    ensures Run(a + b, p) == |a|
  {
    if a != "" {
      RunIsThePrefix(a[1..], b, p);
      assert (a + b)[1..] == a[1..] + b;
    } else {
      assert a + b == b;
    }
  }

  function TrimFront(s: string, p: char -> bool): string {
    s[Run(s, p)..]
  }

  function TrimBack(s: string, p: char -> bool): (r: string)
    ensures |r| <= |s| && r == s[..|r|] && EndsOutside(r, p) && All(s[|r|..], p)
  {
    if s == "" || !p(s[|s| - 1]) then s else TrimBack(s[..|s| - 1], p)
  }

  function Trim(s: string, p: char -> bool): (r: string)
    ensures StartsOutside(r, p) && EndsOutside(r, p) && |r| <= |s|
  {
    TrimBack(TrimFront(s, p), p)
  }

  predicate Trimmed(s: string, p: char -> bool) {
    StartsOutside(s, p) && EndsOutside(s, p)
  }

  /** Trimming removes exactly the padding around a text that has none of its own. */
  lemma {:induction false} TrimFindsTheMiddle(a: string, s: string, b: string, p: char -> bool)
    requires All(a, p) && All(b, p) && Trimmed(s, p)
    ensures Trim(a + s + b, p) == s
  {
    var t := a + s + b;
    if s == "" {
      assert t == (a + b) + "";
      RunIsThePrefix(a + b, "", p);
    } else {
      assert t == a + (s + b);
      RunIsThePrefix(a, s + b, p);
      assert TrimFront(t, p) == s + b;
      TrimBackDrops(s, b, p);
    }
  }

  lemma {:induction false} TrimBackDrops(s: string, b: string, p: char -> bool)
    requires All(b, p) && EndsOutside(s, p)
    ensures TrimBack(s + b, p) == s
  {
    if b != "" {
      var shorter := b[..|b| - 1];
      TrimBackDrops(s, shorter, p);
      assert (s + b)[..|s + b| - 1] == s + shorter;
    } else {
      assert s + b == s;
    }
  }

  lemma {:induction false} NothingToTrim(s: string, p: char -> bool)
    requires Trimmed(s, p)
    ensures Trim(s, p) == s
  {
    assert "" + s + "" == s;
    TrimFindsTheMiddle("", s, "", p);
  }

  /** Padding around a text makes no difference to what trimming leaves of it. */
  lemma {:induction false} PaddingIsTrimmed(a: string, s: string, b: string, p: char -> bool)
    requires All(a, p) && All(b, p)
    ensures Trim(a + s + b, p) == Trim(s, p)
  {
    var n, front := Run(s, p), TrimFront(s, p);
    var m := |TrimBack(front, p)|;
    assert a + s + b == (a + s[..n]) + Trim(s, p) + (front[m..] + b);
    TrimFindsTheMiddle(a + s[..n], Trim(s, p), front[m..] + b, p);
  }

  lemma {:induction false} AbsentAfterTrim(s: string, p: char -> bool, c: char)
    requires c !in s
    ensures c !in Trim(s, p)
  {
    var front := TrimFront(s, p);
    assert c !in front;
    var back := TrimBack(front, p);
    assert back == front[..|back|];
  }

  // ----- Repeated prefixes and suffixes -----

  predicate StartsWith(s: string, prefix: string) {
    |prefix| <= |s| && s[..|prefix|] == prefix
  }

  predicate EndsWith(s: string, suffix: string) {
    |suffix| <= |s| && s[|s| - |suffix|..] == suffix
  }

  /** `trim_start_matches` with a string: the prefix comes off as often as it is there. */
  function WithoutPrefixes(s: string, prefix: string): string
    requires prefix != ""
  {
    if StartsWith(s, prefix) then WithoutPrefixes(s[|prefix|..], prefix) else s
  }

  function WithoutSuffixes(s: string, suffix: string): string
    requires suffix != ""
  {
    if EndsWith(s, suffix) then WithoutSuffixes(s[..|s| - |suffix|], suffix) else s
  }

  lemma {:induction false} AbsentWithoutPrefixes(s: string, prefix: string, c: char)
    requires c !in s && prefix != ""
    ensures c !in WithoutPrefixes(s, prefix)
    decreases |s|
  {
    if StartsWith(s, prefix) {
      AbsentWithoutPrefixes(s[|prefix|..], prefix, c);
    }
  }

  lemma {:induction false} AbsentWithoutSuffixes(s: string, suffix: string, c: char)
    requires c !in s && suffix != ""
    ensures c !in WithoutSuffixes(s, suffix)
    decreases |s|
  {
    if EndsWith(s, suffix) {
      AbsentWithoutSuffixes(s[..|s| - |suffix|], suffix, c);
    }
  }

  // ----- Splitting and joining -----

  /** Where the separator first is, or the length when it is nowhere. */
  function FirstOf(s: string, sep: char): (n: nat)
    ensures n <= |s| && sep !in s[..n] && (n < |s| ==> s[n] == sep)
  {
    if s == "" || s[0] == sep then 0
    else
      var n := 1 + FirstOf(s[1..], sep);
      assert s[..n] == [s[0]] + s[1..][..n - 1];
      n
  }

  lemma {:induction false} FirstOfAfter(s: string, rest: string, sep: char)
    requires sep !in s
    ensures FirstOf(s + [sep] + rest, sep) == |s|
  {
    if s != "" {
      FirstOfAfter(s[1..], rest, sep);
      assert (s + [sep] + rest)[1..] == s[1..] + [sep] + rest;
    }
  }

  /** `split` on a character: always at least one piece, none holding the separator. */
  function Split(s: string, sep: char): (pieces: seq<string>)
    ensures pieces != [] && NoneHolds(pieces, sep)
  {
    var n := FirstOf(s, sep);
    if n == |s| then assert s[..n] == s; [s] else [s[..n]] + Split(s[n + 1..], sep)
  }

  /** `join` on a one-character separator. */
  function Join(pieces: seq<string>, sep: char): string
  {
    if pieces == [] then ""
    else if |pieces| == 1 then pieces[0]
    else pieces[0] + [sep] + Join(pieces[1..], sep)
  }

  /** A text up to its first separator is the first piece. */
  lemma {:induction false} SplitFirst(s: string, rest: string, sep: char)
    requires sep !in s
    ensures Split(s + [sep] + rest, sep) == [s] + Split(rest, sep)
  {
    var t := s + [sep] + rest;
    FirstOfAfter(s, rest, sep);
    assert t[..|s|] == s && t[|s| + 1..] == rest;
  }

  lemma {:induction false} SplitConcat(s: string, rest: string, sep: char)
    ensures Split(s + [sep] + rest, sep) == Split(s, sep) + Split(rest, sep)
    decreases |s|
  {
    var n := FirstOf(s, sep);
    if n == |s| {
      assert s[..n] == s;
      SplitFirst(s, rest, sep);
    } else {
      SplitConcatStep(s[..n], s[n + 1..], rest, sep);
      assert s == s[..n] + [sep] + s[n + 1..];
    }
  }

  lemma {:induction false} SplitConcatStep(head: string, tail: string, rest: string, sep: char)
    requires sep !in head
    ensures Split((head + [sep] + tail) + [sep] + rest, sep)
         == Split(head + [sep] + tail, sep) + Split(rest, sep)
    decreases |tail| + 1, 0
  {
    Regroup(head + [sep], tail, [sep], rest);
    SplitFirst(head, tail + [sep] + rest, sep);
    SplitFirst(head, tail, sep);
    SplitConcat(tail, rest, sep);
    Regroup([head], Split(tail, sep), [], Split(rest, sep));
    assert Split(tail, sep) + [] == Split(tail, sep);
    assert ([head] + Split(tail, sep)) + [] == [head] + Split(tail, sep);
  }

  lemma {:induction false} Regroup<T>(a: seq<T>, b: seq<T>, c: seq<T>, d: seq<T>)
    ensures (a + b) + c + d == a + (b + c + d)
  {
  }

  predicate NoneHolds(pieces: seq<string>, sep: char) {
    forall i | 0 <= i < |pieces| :: sep !in pieces[i]
  }

  /** Splitting undoes joining when no piece holds the separator. */
  lemma {:induction false} SplitUndoesJoin(pieces: seq<string>, sep: char)
    requires pieces != [] && NoneHolds(pieces, sep)
    ensures Split(Join(pieces, sep), sep) == pieces
    decreases |pieces|
  {
    if |pieces| == 1 {
      assert FirstOf(pieces[0], sep) == |pieces[0]|;
    } else {
      assert NoneHolds(pieces[1..], sep);
      SplitFirst(pieces[0], Join(pieces[1..], sep), sep);
      SplitUndoesJoin(pieces[1..], sep);
    }
  }

  /** Joining undoes splitting, always. */
  lemma {:induction false} JoinUndoesSplit(s: string, sep: char)
    ensures Join(Split(s, sep), sep) == s
    decreases |s|
  {
    var n := FirstOf(s, sep);
    if n < |s| {
      var tail := s[n + 1..];
      JoinUndoesSplit(tail, sep);
      var pieces := [s[..n]] + Split(tail, sep);
      assert pieces[1..] == Split(tail, sep);
      assert s == s[..n] + [sep] + tail;
    }
  }

  // ----- Concatenating the texts of many things -----

  function Concat<T>(xs: seq<T>, part: T -> string): string {
    if xs == [] then "" else part(xs[0]) + Concat(xs[1..], part)
  }

  lemma {:induction false} ConcatGrows<T>(xs: seq<T>, i: nat, part: T -> string)
    requires i < |xs|
    ensures Concat(xs[..i + 1], part) == Concat(xs[..i], part) + part(xs[i])
  {
    var before, after := xs[..i], xs[..i + 1];
    if i > 0 {
      ConcatGrows(xs[1..], i - 1, part);
      assert after[1..] == xs[1..][..i] && before[1..] == xs[1..][..i - 1];
    } else {
      assert after[1..] == [];
    }
  }

  // ----- Lines -----

  function StripReturn(line: string): string {
    if line != "" && line[|line| - 1] == '\r' then line[..|line| - 1] else line
  }

  function StripReturns(lines: seq<string>): (r: seq<string>)
    ensures |r| == |lines| && forall i | 0 <= i < |r| :: r[i] == StripReturn(lines[i])
  {
    seq(|lines|, i requires 0 <= i < |lines| => StripReturn(lines[i]))
  }

  /** `lines`: every piece that a line feed ends, without a carriage return before it; then what
      is left, if anything is. */
  function Lines(s: string): seq<string> {
    var pieces := Split(s, '\n');
    var last := |pieces| - 1;
    StripReturns(pieces[..last]) + (if pieces[last] == "" then [] else [pieces[last]])
  }

  lemma {:induction false} StripConcat(a: seq<string>, b: seq<string>)
    requires b != []
    ensures StripReturns((a + b)[..|a + b| - 1]) == StripReturns(a) + StripReturns(b[..|b| - 1])
  {
  }

  lemma {:induction false} LinesConcat(s: string, rest: string)
    ensures Lines(s + "\n" + rest) == StripReturns(Split(s, '\n')) + Lines(rest)
  {
    SplitConcat(s, rest, '\n');
    StripConcat(Split(s, '\n'), Split(rest, '\n'));
  }

  /** No line holds a line feed. */
  lemma LinesAreSingle(s: string)
    ensures NoneHolds(Lines(s), '\n')
  {
    var pieces := Split(s, '\n');
    var last := |pieces| - 1;
    forall i | 0 <= i < |Lines(s)| ensures '\n' !in Lines(s)[i] {
      if i < last {
        assert Lines(s)[i] == StripReturn(pieces[i]);
      }
    }
  }

  // ----- Decimal numbers -----

  function DigitChar(d: nat): (c: char)
    requires d < 10
    ensures IsDigit(c)
  {
    '0' + d as char
  }

  function DigitValue(c: char): nat
    requires IsDigit(c)
  {
    c as int - '0' as int
  }

  function Decimal(n: nat): (s: string)
    ensures s != "" && All(s, IsDigit)
  {
    if n < 10 then [DigitChar(n)] else Decimal(n / 10) + [DigitChar(n % 10)]
  }

  function DigitsValue(s: string): nat
    requires All(s, IsDigit)
  {
    if s == "" then 0 else 10 * DigitsValue(s[..|s| - 1]) + DigitValue(s[|s| - 1])
  }

  /** `parse` at an unsigned type with values below `limit`: one or more digits, after a plus sign
      if there is one. */
  function ParseUnsigned(s: string, limit: nat): (r: Option<nat>)
    ensures r.Some? ==> r.value < limit
  {
    var digits := if s != "" && s[0] == '+' then s[1..] else s;
    if digits != "" && All(digits, IsDigit) && DigitsValue(digits) < limit
    then Some(DigitsValue(digits))
    else None
  }

  lemma {:induction false} DecimalValue(n: nat)
    ensures DigitsValue(Decimal(n)) == n
  {
    if n >= 10 {
      DecimalValue(n / 10);
      assert Decimal(n)[..|Decimal(n)| - 1] == Decimal(n / 10);
    }
  }

  /** A printed number parses back exactly when the type can hold it. */
  lemma {:induction false} DecimalParses(n: nat, limit: nat)
    ensures ParseUnsigned(Decimal(n), limit) == if n < limit then Some(n) else None
  {
    DecimalValue(n);
    assert IsDigit(Decimal(n)[0]);
  }
}
