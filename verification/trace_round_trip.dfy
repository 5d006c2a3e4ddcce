/** When parsing a printed trace gives the trace back. */
module TraceRoundTrip {
  import opened Wrappers
  import opened Texts
  import opened JsonEnds
  import opened Traces

  // ----- The condition -----

  predicate TitleSurvives(title: string) {
    title != "" && Trimmed(title, IsSpace) && '\n' !in title
  }

  predicate EndsInReturn(line: string) {
    line != "" && line[|line| - 1] == '\r'
  }

  function IrLines(shot: Snapshot): (lines: seq<string>)
    ensures lines != []
  {
    Split(Trim(shot.ir, IsNewline), '\n')
  }

  predicate IrSurvives(shot: Snapshot, on: Tests) {
    forall i | 0 <= i < |IrLines(shot)| ::
      !EndsInReturn(IrLines(shot)[i]) && on.marker(IrLines(shot)[i]).None?
  }

  predicate TitlesSurvive(shots: seq<Snapshot>) {
    forall i | 0 <= i < |shots| :: TitleSurvives(shots[i].title)
  }

  predicate Survive(shots: seq<Snapshot>, on: Tests) {
    TitlesSurvive(shots) && forall i | 0 <= i < |shots| :: IrSurvives(shots[i], on)
  }

  function Normal(shot: Snapshot): Snapshot {
    Snapshot(shot.title, Trim(shot.ir, IsNewline))
  }

  function Normals(shots: seq<Snapshot>): seq<Snapshot> {
    seq(|shots|, i requires 0 <= i < |shots| => Normal(shots[i]))
  }

  // ----- Grouping, for any tests that read the marker lines right -----

  ghost predicate Faithful(on: Tests, line: string -> string) {
    && on.marker("").None?
    && (forall t | TitleSurvives(t) ::
          on.marker(line(t)) == Some(t) && '\n' !in line(t) && !EndsInReturn(line(t)))
    && (forall l | '\n' !in l && on.marker(l).Some? :: TitleSurvives(on.marker(l).value))
  }

  /** Every title that parsing finds survives. */
  lemma {:induction false} GroupedTitles(lines: seq<string>, title: string, kept: string, on: Tests,
      line: string -> string)
    requires Faithful(on, line) && NoneHolds(lines, '\n') && TitleSurvives(title)
    ensures TitlesSurvive(Grouped(lines, title, kept, on))
    decreases |lines|
  {
    if lines != [] {
      assert NoneHolds(lines[1..], '\n') && '\n' !in lines[0];
      match on.marker(lines[0]) {
        case Some(next) => GroupedTitles(lines[1..], next, "", on, line);
        case None => GroupedTitles(lines[1..], title, kept + lines[0] + "\n", on, line);
      }
    }
  }

  lemma {:induction false} PartsTitles(lines: seq<string>, on: Tests, line: string -> string)
    requires Faithful(on, line) && NoneHolds(lines, '\n')
    ensures TitlesSurvive(Parts(lines, on))
    decreases |lines|
  {
    if lines != [] {
      assert NoneHolds(lines[1..], '\n') && '\n' !in lines[0];
      match on.marker(lines[0]) {
        case Some(title) => GroupedTitles(lines[1..], title, "", on, line);
        case None =>
          if on.blank(lines[0]) {
            PartsTitles(lines[1..], on, line);
          } else {
            GroupedTitles(lines[1..], "part 1", lines[0] + "\n", on, line);
          }
      }
    }
  }

  function Marks(lines: seq<string>, on: Tests): nat {
    if lines == [] then 0 else (if on.marker(lines[0]).Some? then 1 else 0) + Marks(lines[1..], on)
  }

  function Ended(lines: seq<string>): string {
    if lines == [] then "" else lines[0] + "\n" + Ended(lines[1..])
  }

  /** Every marker line starts a part. */
  lemma {:induction false} MarksCount(lines: seq<string>, more: seq<string>, title: string, kept: string,
      on: Tests)
    ensures exists t, k :: |Grouped(lines + more, title, kept, on)| == Marks(lines, on) + |Grouped(more, t, k, on)|
    decreases |lines|
  {
    if lines == [] {
      assert lines + more == more;
    } else {
      assert (lines + more)[1..] == lines[1..] + more;
      match on.marker(lines[0]) {
        case Some(next) => MarksCount(lines[1..], more, next, "", on);
        case None => MarksCount(lines[1..], more, title, kept + lines[0] + "\n", on);
      }
    }
  }

  /** Lines that are no markers are kept. */
  lemma {:induction false} PlainLinesAreKept(lines: seq<string>, more: seq<string>, title: string, kept: string,
      on: Tests)
    requires Marks(lines, on) == 0
    ensures Grouped(lines + more, title, kept, on) == Grouped(more, title, kept + Ended(lines), on)
    decreases |lines|
  {
    if lines == [] {
      assert lines + more == more && kept + "" == kept;
    } else {
      assert (lines + more)[1..] == lines[1..] + more;
      PlainLinesAreKept(lines[1..], more, title, kept + lines[0] + "\n", on);
      assert kept + lines[0] + "\n" + Ended(lines[1..]) == kept + (lines[0] + "\n" + Ended(lines[1..]));
    }
  }

  /** Lines before any marker make one part of their own, from the first that is not blank on. */
  lemma {:induction false} UnmarkedLines(blank: seq<string>, lines: seq<string>, on: Tests)
    requires Marks(blank, on) == 0 && (forall i | 0 <= i < |blank| :: on.blank(blank[i]))
    requires lines != [] && Marks(lines, on) == 0 && !on.blank(lines[0])
    ensures Parts(blank + lines, on) == [Closed("part 1", Ended(lines))]
    decreases |blank|
  {
    if blank == [] {
      assert blank + lines == lines && lines[1..] + [] == lines[1..];
      PlainLinesAreKept(lines[1..], [], "part 1", lines[0] + "\n", on);
    } else {
      assert (blank + lines)[0] == blank[0] && (blank + lines)[1..] == blank[1..] + lines;
      UnmarkedLines(blank[1..], lines, on);
    }
  }

  // ----- The lines of a printed body -----

  function TextOf(shot: Snapshot, line: string -> string): string {
    line(shot.title) + "\n" + Trim(shot.ir, IsNewline) + "\n" + "\n"
  }

  function ReadLines(shot: Snapshot): seq<string> {
    StripReturns(IrLines(shot))
  }

  function BodyLines(shots: seq<Snapshot>, line: string -> string): seq<string> {
    if shots == [] then []
    else [line(shots[0].title)] + (ReadLines(shots[0]) + [""] + BodyLines(shots[1..], line))
  }

  lemma {:induction false} PartLines(head: string, ir: string, rest: string)
    requires '\n' !in head && !EndsInReturn(head)
    ensures Lines((head + "\n" + ir + "\n" + "\n") + rest)
         == [head] + (StripReturns(Split(ir, '\n')) + [""] + Lines(rest))
  {
    var last := "" + "\n" + rest;
    var middle := ir + "\n" + last;
    Reassociate(head, ir, rest);
    LinesConcat(head, middle);
    LinesConcat(ir, last);
    LinesConcat("", rest);
    assert FirstOf(head, '\n') == |head|;
    assert StripReturns([head]) == [head] && StripReturns([""]) == [""];
    Append3(StripReturns(Split(ir, '\n')), [""], Lines(rest));
  }

  lemma Reassociate(head: string, ir: string, rest: string)
    ensures (head + "\n" + ir + "\n" + "\n") + rest == head + "\n" + (ir + "\n" + ("" + "\n" + rest))
  {
  }

  lemma Append3<T>(a: seq<T>, b: seq<T>, c: seq<T>)
    ensures (a + b) + c == a + (b + c)
  {
  }

  lemma {:induction false} LinesOfBody(shots: seq<Snapshot>, on: Tests, line: string -> string,
      part: Snapshot -> string)
    requires Faithful(on, line) && TitlesSurvive(shots)
    requires forall s :: part(s) == TextOf(s, line)
    ensures Lines(Concat(shots, part)) == BodyLines(shots, line)
    decreases |shots|
  {
    if shots != [] {
      var head, rest := line(shots[0].title), shots[1..];
      assert TitleSurvives(shots[0].title);
      PartLines(head, Trim(shots[0].ir, IsNewline), Concat(rest, part));
      LinesOfBody(rest, on, line, part);
      assert part(shots[0]) == head + "\n" + Trim(shots[0].ir, IsNewline) + "\n" + "\n";
    }
  }

  // ----- What is read back -----

  /** What one snapshot comes back as when none of its lines is a marker. */
  function ReadBack(shot: Snapshot): Snapshot {
    Closed(shot.title, Ended(ReadLines(shot)) + "\n")
  }

  predicate NoMarks(shots: seq<Snapshot>, on: Tests) {
    forall i | 0 <= i < |shots| :: Marks(ReadLines(shots[i]), on) == 0
  }

  /** With surviving titles there are as many parts as snapshots only when no line is a marker. */
  lemma {:induction false} PartCount(shots: seq<Snapshot>, title: string, kept: string, on: Tests,
      line: string -> string)
    requires Faithful(on, line) && TitlesSurvive(shots)
    ensures |Grouped(BodyLines(shots, line), title, kept, on)| >= 1 + |shots|
    ensures |Grouped(BodyLines(shots, line), title, kept, on)| == 1 + |shots| ==> NoMarks(shots, on)
    decreases |shots|
  {
    if shots != [] {
      var rest := shots[1..];
      var more, lines := BodyLines(rest, line), ReadLines(shots[0]) + [""];
      GroupedBody(shots, title, kept, on, line);
      MarksCount(lines, more, shots[0].title, "", on);
      var t, k :| |Grouped(lines + more, shots[0].title, "", on)| == Marks(lines, on) + |Grouped(more, t, k, on)|;
      PartCount(rest, t, k, on, line);
      MarksOfConcat(ReadLines(shots[0]), [""], on);
      NoMarksFirst(shots, on);
    }
  }

  /** The marker line of a printed snapshot starts it. */
  lemma {:induction false} GroupedBody(shots: seq<Snapshot>, title: string, kept: string, on: Tests, line: string -> string)
    requires Faithful(on, line) && TitlesSurvive(shots) && shots != []
    ensures TitlesSurvive(shots[1..])
    ensures Grouped(BodyLines(shots, line), title, kept, on)
         == [Closed(title, kept)] + Grouped(ReadLines(shots[0]) + [""] + BodyLines(shots[1..], line), shots[0].title, "", on)
  {
    var body := BodyLines(shots, line);
    assert TitleSurvives(shots[0].title);
    assert body[0] == line(shots[0].title) && body[1..] == ReadLines(shots[0]) + [""] + BodyLines(shots[1..], line);
  }

  lemma {:induction false} NoMarksFirst(shots: seq<Snapshot>, on: Tests)
    requires shots != []
    ensures NoMarks(shots, on) <==> Marks(ReadLines(shots[0]), on) == 0 && NoMarks(shots[1..], on)
  {
    if NoMarks(shots[1..], on) {
      assert forall i | 0 < i < |shots| :: shots[i] == shots[1..][i - 1];
    }
    if NoMarks(shots, on) {
      assert forall i | 0 <= i < |shots[1..]| :: shots[1..][i] == shots[i + 1];
    }
  }

  lemma {:induction false} MarksOfConcat(a: seq<string>, b: seq<string>, on: Tests)
    ensures Marks(a + b, on) == Marks(a, on) + Marks(b, on)
    decreases |a|
  {
    if a == [] {
      assert a + b == b;
    } else {
      assert (a + b)[1..] == a[1..] + b;
      MarksOfConcat(a[1..], b, on);
    }
  }

  function ReadsBack(shots: seq<Snapshot>): seq<Snapshot> {
    if shots == [] then [] else [ReadBack(shots[0])] + ReadsBack(shots[1..])
  }

  lemma {:induction false} PartsReadBack(shots: seq<Snapshot>, title: string, kept: string, on: Tests,
      line: string -> string)
    requires Faithful(on, line) && TitlesSurvive(shots) && NoMarks(shots, on)
    ensures Grouped(BodyLines(shots, line), title, kept, on) == [Closed(title, kept)] + ReadsBack(shots)
    decreases |shots|
  {
    if shots != [] {
      var shot, rest := shots[0], shots[1..];
      var more := BodyLines(rest, line);
      GroupedBody(shots, title, kept, on, line);
      NoMarksFirst(shots, on);
      PartIsKept(ReadLines(shot), more, shot.title, on);
      PartsReadBack(rest, shot.title, Ended(ReadLines(shot)) + "\n", on, line);
    }
  }

  lemma {:induction false} PartIsKept(lines: seq<string>, more: seq<string>, title: string, on: Tests)
    requires Marks(lines, on) == 0 && on.marker("").None?
    ensures Grouped(lines + [""] + more, title, "", on) == Grouped(more, title, Ended(lines) + "\n", on)
  {
    MarksOfConcat(lines, [""], on);
    PlainLinesAreKept(lines + [""], more, title, "", on);
    EndedOfOneMore(lines);
    assert "" + (Ended(lines) + "\n") == Ended(lines) + "\n";
  }

  lemma {:induction false} EndedOfOneMore(lines: seq<string>)
    ensures Ended(lines + [""]) == Ended(lines) + "\n"
  {
    if lines != [] {
      EndedOfOneMore(lines[1..]);
      assert (lines + [""])[1..] == lines[1..] + [""];
      Append3(lines[0] + "\n", Ended(lines[1..]), "\n");
    }
  }

  // ----- One snapshot -----

  lemma {:induction false} EndedJoins(lines: seq<string>)
    requires lines != []
    ensures Ended(lines) == Join(lines, '\n') + "\n"
  {
    if |lines| == 1 {
      assert Ended(lines[1..]) == "";
      assert lines[0] + "\n" + "" == lines[0] + "\n";
    } else {
      EndedJoins(lines[1..]);
    }
  }

  lemma {:induction false} StrippedIsShorter(lines: seq<string>)
    ensures |Ended(StripReturns(lines))| <= |Ended(lines)|
    ensures (exists i | 0 <= i < |lines| :: EndsInReturn(lines[i]))
      ==> |Ended(StripReturns(lines))| < |Ended(lines)|
  {
    if lines != [] {
      StrippedIsShorter(lines[1..]);
      assert StripReturns(lines)[1..] == StripReturns(lines[1..]);
      if i :| 0 <= i < |lines| && EndsInReturn(lines[i]) {
        if i > 0 {
          assert EndsInReturn(lines[1..][i - 1]);
        }
      }
    }
  }

  /** A snapshot whose lines are no markers comes back, without outer line feeds, exactly when none
      of its lines ends in a carriage return. */
  lemma {:induction false} ReadBackIsNormal(shot: Snapshot)
    ensures ReadBack(shot) == Normal(shot)
      <==> forall i | 0 <= i < |IrLines(shot)| :: !EndsInReturn(IrLines(shot)[i])
  {
    var ir, lines := Trim(shot.ir, IsNewline), IrLines(shot);
    EndedJoins(lines);
    JoinUndoesSplit(ir, '\n');
    if forall i | 0 <= i < |lines| :: !EndsInReturn(lines[i]) {
      assert StripReturns(lines) == lines;
      PaddingGoes(ir);
    } else {
      StrippedIsShorter(lines);
      ReturnsAreLost(ReadLines(shot));
    }
  }

  lemma {:induction false} PaddingGoes(ir: string)
    requires Trimmed(ir, IsNewline)
    ensures Trim((ir + "\n") + "\n", IsNewline) == ir
  {
    assert (ir + "\n") + "\n" == "" + ir + "\n\n";
    TrimFindsTheMiddle("", ir, "\n\n", IsNewline);
  }

  lemma {:induction false} ReturnsAreLost(lines: seq<string>)
    requires lines != []
    ensures |Trim(Ended(lines) + "\n", IsNewline)| < |Ended(lines)|
  {
    EndedJoins(lines);
    var short := Join(lines, '\n');
    assert (short + "\n") + "\n" == short + "\n\n";
    TrimIsShort(short, "\n\n", IsNewline);
  }

  lemma {:induction false} TrimIsShort(s: string, b: string, p: char -> bool)
    requires All(b, p)
    ensures |Trim(s + b, p)| <= |s|
  {
    var n := Run(s + b, p);
    if n <= |s| {
      assert TrimFront(s + b, p) == s[n..] + b;
      TrimBackIsShort(s[n..], b, p);
    } else {
      assert forall i | 0 <= i < |s| :: (s + b)[..n][i] == s[i];
      assert (s + b) + "" == s + b;
      RunIsThePrefix(s + b, "", p);
    }
  }

  lemma {:induction false} TrimBackIsShort(s: string, b: string, p: char -> bool)
    requires All(b, p)
    ensures |TrimBack(s + b, p)| <= |s|
  {
    if b == "" {
      assert s + b == s;
    } else {
      TrimBackIsShort(s, b[..|b| - 1], p);
      assert (s + b)[..|s + b| - 1] == s + b[..|b| - 1];
    }
  }

  // ----- The body -----

  predicate NoReturns(shot: Snapshot) {
    forall i | 0 <= i < |IrLines(shot)| :: !EndsInReturn(IrLines(shot)[i])
  }

  lemma {:induction false} NoMarksMeansNone(lines: seq<string>, on: Tests)
    ensures Marks(lines, on) == 0 <==> forall i | 0 <= i < |lines| :: on.marker(lines[i]).None?
  {
    if lines != [] {
      NoMarksMeansNone(lines[1..], on);
      assert forall i | 0 < i < |lines| :: lines[i] == lines[1..][i - 1];
      if forall i | 0 <= i < |lines[1..]| :: on.marker(lines[1..][i]).None? {
        assert on.marker(lines[0]).None? ==> forall i | 0 <= i < |lines| :: on.marker(lines[i]).None?;
      } else {
        var i :| 0 <= i < |lines[1..]| && on.marker(lines[1..][i]).Some?;
        assert on.marker(lines[i + 1]).Some?;
      }
    }
  }

  lemma {:induction false} IrSurvivesWhen(shot: Snapshot, on: Tests)
    ensures IrSurvives(shot, on) <==> NoReturns(shot) && Marks(ReadLines(shot), on) == 0
  {
    if NoReturns(shot) {
      assert ReadLines(shot) == IrLines(shot);
      NoMarksMeansNone(IrLines(shot), on);
    }
  }

  lemma {:induction false} ReadsBackAt(shots: seq<Snapshot>)
    ensures |ReadsBack(shots)| == |shots|
    ensures forall i | 0 <= i < |shots| :: ReadsBack(shots)[i] == ReadBack(shots[i])
  {
    if shots != [] {
      var rest := ReadsBack(shots[1..]);
      ReadsBackAt(shots[1..]);
      forall i | 0 <= i < |shots|
        ensures ReadsBack(shots)[i] == ReadBack(shots[i])
      {
        if i > 0 {
          assert ReadsBack(shots)[i] == rest[i - 1] && shots[1..][i - 1] == shots[i];
        }
      }
    }
  }

  lemma {:induction false} PartsOfBody(shots: seq<Snapshot>, on: Tests, line: string -> string)
    requires Faithful(on, line) && TitlesSurvive(shots)
    ensures |Parts(BodyLines(shots, line), on)| == |shots| ==> NoMarks(shots, on)
    ensures NoMarks(shots, on) ==> Parts(BodyLines(shots, line), on) == ReadsBack(shots)
  {
    if shots != [] {
      var lines := BodyLines(shots, line);
      assert TitleSurvives(shots[0].title) && lines[0] == line(shots[0].title);
      assert Grouped(lines, "", "", on) == [Closed("", "")] + Parts(lines, on);
      PartCount(shots, "", "", on, line);
      if NoMarks(shots, on) {
        PartsReadBack(shots, "", "", on, line);
        assert Grouped(lines, "", "", on)[1..] == Parts(lines, on) == ReadsBack(shots);
      }
    }
  }

  lemma {:induction false} BodyComesBack(shots: seq<Snapshot>, on: Tests, line: string -> string,
      part: Snapshot -> string)
    requires Faithful(on, line)
    requires forall s :: part(s) == TextOf(s, line)
    ensures Parts(Lines(Concat(shots, part)), on) == Normals(shots) <==> Survive(shots, on)
  {
    var parts := Parts(Lines(Concat(shots, part)), on);
    LinesAreSingle(Concat(shots, part));
    PartsTitles(Lines(Concat(shots, part)), on, line);
    if parts == Normals(shots) {
      assert forall i | 0 <= i < |shots| :: parts[i].title == shots[i].title;
    }
    if TitlesSurvive(shots) {
      LinesOfBody(shots, on, line, part);
      PartsOfBody(shots, on, line);
      ReadsBackAt(shots);
      forall i | 0 <= i < |shots| ensures
        IrSurvives(shots[i], on) <==> ReadBack(shots[i]) == Normal(shots[i]) && Marks(ReadLines(shots[i]), on) == 0
      {
        IrSurvivesWhen(shots[i], on);
        ReadBackIsNormal(shots[i]);
      }
      if NoMarks(shots, on) {
        assert parts == ReadsBack(shots);
        assert parts == Normals(shots) <==> forall i | 0 <= i < |shots| :: ReadBack(shots[i]) == Normal(shots[i]) by {
          assert forall i | 0 <= i < |shots| :: parts[i] == ReadBack(shots[i]) && Normals(shots)[i] == Normal(shots[i]);
        }
      }
    }
  }

  // ----- The markers of a trace file -----

  lemma {:induction false} OnePrefix(prefix: string, rest: string)
    requires prefix != "" && rest != "" && prefix[0] != rest[0]
    ensures WithoutPrefixes(prefix + rest, prefix) == rest
  {
    assert (prefix + rest)[..|prefix|] == prefix && (prefix + rest)[|prefix|..] == rest;
    assert !StartsWith(rest, prefix);
  }

  lemma {:induction false} OneSuffix(rest: string, suffix: string)
    requires suffix != "" && rest != "" && suffix[|suffix| - 1] != rest[|rest| - 1]
    ensures WithoutSuffixes(rest + suffix, suffix) == rest
  {
    var text := rest + suffix;
    assert text[|text| - |suffix|..] == suffix && text[..|text| - |suffix|] == rest;
    assert !EndsWith(rest, suffix);
  }

  /** For any markers of this kind, a printed title is read back trimmed; one with nothing in it
      gets a name. */
  lemma {:induction false} TitleIsReadBack(prefix: string, title: string, suffix: string)
    requires prefix != "" && !IsSpace(prefix[0]) && suffix != "" && !IsSpace(suffix[|suffix| - 1])
    ensures TitleBetween(prefix, LineBetween(prefix, title, suffix), suffix)
         == Some(if Trim(title, IsSpace) == "" then "crabbit" else Trim(title, IsSpace))
  {
    var line := LineBetween(prefix, title, suffix);
    LineIsTrimmed(prefix, title, suffix);
    var rest := " " + title + " ";
    assert line == prefix + (rest + suffix);
    OnePrefix(prefix, rest + suffix);
    OneSuffix(rest, suffix);
    PaddingIsTrimmed(" ", title, " ", IsSpace);
  }

  lemma {:induction false} LineIsTrimmed(prefix: string, title: string, suffix: string)
    requires prefix != "" && !IsSpace(prefix[0]) && suffix != "" && !IsSpace(suffix[|suffix| - 1])
    ensures
      var line := LineBetween(prefix, title, suffix);
      Trim(line, IsSpace) == line && StartsWith(line, prefix) && EndsWith(line, suffix)
  {
    var line := LineBetween(prefix, title, suffix);
    NothingToTrim(line, IsSpace);
    assert line[..|prefix|] == prefix && line[|line| - |suffix|..] == suffix;
  }

  lemma {:induction false} FoundTitlesSurvive(prefix: string, line: string, suffix: string)
    requires prefix != "" && suffix != "" && '\n' !in line && TitleBetween(prefix, line, suffix).Some?
    ensures TitleSurvives(TitleBetween(prefix, line, suffix).value)
  {
    var trimmed := Trim(line, IsSpace);
    AbsentAfterTrim(line, IsSpace, '\n');
    AbsentWithoutPrefixes(trimmed, prefix, '\n');
    var bare := WithoutPrefixes(trimmed, prefix);
    AbsentWithoutSuffixes(bare, suffix, '\n');
    AbsentAfterTrim(WithoutSuffixes(bare, suffix), IsSpace, '\n');
  }

  lemma {:induction false} MarkerLinesAreRead(prefix: string, title: string, suffix: string)
    requires TitleSurvives(title) && '\n' !in prefix && '\n' !in suffix
    requires suffix != "" && !IsSpace(suffix[|suffix| - 1])
    ensures '\n' !in LineBetween(prefix, title, suffix) && !EndsInReturn(LineBetween(prefix, title, suffix))
  {
  }

  lemma {:induction false} TestsAreFaithful()
    ensures Faithful(TESTS, MarkerLine)
  {
    assert TESTS.marker("").None?;
    forall t | TitleSurvives(t)
      ensures TESTS.marker(MarkerLine(t)) == Some(t) && '\n' !in MarkerLine(t) && !EndsInReturn(MarkerLine(t))
    {
      MarkerLinesAreRead(MARKER_PREFIX, t, MARKER_SUFFIX);
      TitleIsReadBack(MARKER_PREFIX, t, MARKER_SUFFIX);
      NothingToTrim(t, IsSpace);
    }
    forall l | '\n' !in l && TESTS.marker(l).Some? ensures TitleSurvives(TESTS.marker(l).value) {
      FoundTitlesSurvive(MARKER_PREFIX, l, MARKER_SUFFIX);
    }
  }

  // ----- The whole file -----

  /** A parsed file is read in one way only. */
  lemma {:induction false} ParsesOneWay(contents: string, r: Result<Trace, ParseError>, s: Result<Trace, ParseError>)
    requires Parses(contents, r) && Parses(contents, s)
    ensures r == s
  {
    if r.Ok? && s.Ok? {
      ClosesOnce(TrimFront(contents, IsSpace), |r.value.meta|, |s.value.meta|);
    }
  }

  /** Printing a trace and parsing the text always succeeds with the same metadata; it gives the
      snapshots back, with the outer line feeds of their IR removed, if and only if every title is
      a non-empty trimmed single line and no line of IR is a marker or ends in a carriage return. */
  lemma {:induction false} RoundTrip(meta: Json, shots: seq<Snapshot>, r: Result<Trace, ParseError>)
    requires WellFormed(meta) && (meta.Object? || meta.Array?)
    requires Parses(FileText(Trace(Spell(meta), shots)), r)
    ensures r.Ok? && r.value.meta == Spell(meta)
    ensures r.value.snapshots == Normals(shots) <==> Survive(shots, TESTS)
  {
    FileIsRead(meta, shots, r);
    SnapshotsComeBack(shots);
  }

  lemma {:induction false} SnapshotsComeBack(shots: seq<Snapshot>)
    ensures Parts(Lines(Concat(shots, PartText)), TESTS) == Normals(shots) <==> Survive(shots, TESTS)
  {
    TestsAreFaithful();
    BodyComesBack(shots, TESTS, MarkerLine, PartText);
  }

  lemma BracketFirst(meta: Json)
    requires meta.Object? || meta.Array?
    ensures Spell(meta) != "" && !IsSpace(Spell(meta)[0])
  {
  }

  lemma {:induction false} MetaIsRead(meta: Json, text: string, gap: string, body: string, contents: string, r: Result<Trace, ParseError>)
    requires WellFormed(meta) && (meta.Object? || meta.Array?) && text == Spell(meta) && All(gap, IsSpace)
    requires contents == text + gap + body && Parses(contents, r) && StartsOutside(body, IsSpace)
    ensures r.Ok? && r.value.meta == text && r.value.snapshots == Parts(Lines(body), TESTS)
  {
    BracketFirst(meta);
    ClosesAtTheEnd(meta, gap + body);
    HeaderIsRead(text, gap, body, contents, r);
  }

  lemma LineFeedsAreSpace()
    ensures All("\n\n", IsSpace)
  {
  }

  lemma {:induction false} FileIsRead(meta: Json, shots: seq<Snapshot>, r: Result<Trace, ParseError>)
    requires WellFormed(meta) && (meta.Object? || meta.Array?)
    requires Parses(FileText(Trace(Spell(meta), shots)), r)
    ensures r.Ok? && r.value.meta == Spell(meta) && r.value.snapshots == Parts(Lines(Concat(shots, PartText)), TESTS)
  {
    BodyStartsOutside(shots);
    LineFeedsAreSpace();
    MetaIsRead(meta, Spell(meta), "\n\n", Concat(shots, PartText), FileText(Trace(Spell(meta), shots)), r);
  }

  lemma {:induction false} HeaderIsRead(text: string, gap: string, body: string, contents: string, r: Result<Trace, ParseError>)
    requires contents == text + gap + body && Parses(contents, r) && All(gap, IsSpace)
    requires text != "" && !IsSpace(text[0]) && ClosesAt(text + (gap + body), |text|)
    requires StartsOutside(body, IsSpace)
    ensures r.Ok? && r.value.meta == text && r.value.snapshots == Parts(Lines(body), TESTS)
  {
    HeaderLayout(text, gap, body);
    ParsedOk(contents, r, |text|);
  }

  lemma {:induction false} ParsedOk(contents: string, r: Result<Trace, ParseError>, end: nat)
    requires Parses(contents, r) && TrimFront(contents, IsSpace) == contents && ClosesAt(contents, end)
    ensures r.Ok? && r.value.meta == contents[..end]
    ensures r.value.snapshots == Parts(Lines(TrimFront(contents[end..], IsSpace)), TESTS)
  {
    if r.Ok? {
      ClosesOnce(contents, end, |r.value.meta|);
    }
  }

  lemma {:induction false} HeaderLayout(text: string, gap: string, body: string)
    requires text != "" && !IsSpace(text[0]) && All(gap, IsSpace) && StartsOutside(body, IsSpace)
    ensures
      var contents := text + gap + body;
      && contents == text + (gap + body) && contents[..|text|] == text
      && TrimFront(contents, IsSpace) == contents
      && TrimFront(contents[|text|..], IsSpace) == body
  {
    var contents := text + gap + body;
    assert contents == text + (gap + body) && contents[|text|..] == gap + body;
    RunIsThePrefix(gap, body, IsSpace);
  }

  lemma BodyStartsOutside(shots: seq<Snapshot>)
    ensures StartsOutside(Concat(shots, PartText), IsSpace)
  {
    if shots != [] {
      assert PartText(shots[0])[0] == '-';
    }
  }

  lemma {:induction false} ReturnDoesNotSurvive()
    ensures var shot := Snapshot("a", "x\r"); !Survive([shot], TESTS) && Normals([shot]) == [shot]
  {
    var shot := Snapshot("a", "x\r");
    NothingToTrim("x\r", IsNewline);
    assert FirstOf("x\r", '\n') == 2;
    assert IrLines(shot) == ["x\r"] && EndsInReturn(IrLines(shot)[0]);
    assert !IrSurvives([shot][0], TESTS);
  }

  /** A carriage return that does not come back, whatever the metadata. */
  lemma {:induction false} AReturnIsLost(meta: Json, r: Result<Trace, ParseError>)
    requires WellFormed(meta) && (meta.Object? || meta.Array?)
    requires Parses(FileText(Trace(Spell(meta), [Snapshot("a", "x\r")])), r)
    ensures r.Ok? && r.value.snapshots != [Snapshot("a", "x\r")]
  {
    ReturnDoesNotSurvive();
    RoundTrip(meta, [Snapshot("a", "x\r")], r);
  }
}
