/** The trace files: JSON metadata, then the snapshots, each under a marker line. */
module Traces {
  import opened Wrappers
  import opened Texts
  import opened JsonEnds

  const MARKER_PREFIX := "--- crabbit"
  const MARKER_SUFFIX := "---"

  datatype Snapshot = Snapshot(title: string, ir: string)

  datatype Trace = Trace(meta: string, snapshots: seq<Snapshot>)

  datatype ParseError = EmptyFile | NoMetadata

  // ----- Printing -----

  function LineBetween(prefix: string, title: string, suffix: string): string {
    prefix + " " + title + " " + suffix
  }

  function MarkerLine(title: string): string {
    LineBetween(MARKER_PREFIX, title, MARKER_SUFFIX)
  }

  function PartText(shot: Snapshot): string {
    MarkerLine(shot.title) + "\n" + Trim(shot.ir, IsNewline) + "\n" + "\n"
  }

  function FileText(trace: Trace): string {
    trace.meta + "\n\n" + Concat(trace.snapshots, PartText)
  }

  method ToText(trace: Trace) returns (out: string)
    ensures out == FileText(trace)
  {
    out := trace.meta;
    out := out + "\n\n";
    out := PushParts(out, trace.snapshots, PartText);
  }

  method PushParts(header: string, shots: seq<Snapshot>, part: Snapshot -> string) returns (out: string)
    ensures out == header + Concat(shots, part)
  {
    out := header;
    for i := 0 to |shots|
      invariant out == header + Concat(shots[..i], part)
    {
      out := out + part(shots[i]);
      ConcatGrows(shots, i, part);
    }
    assert shots[..|shots|] == shots;
  }

  // ----- Parsing -----

  /** The title on a line that starts and ends with given texts. */
  function TitleBetween(prefix: string, line: string, suffix: string): Option<string>
    requires prefix != "" && suffix != ""
  {
    var trimmed := Trim(line, IsSpace);
    if !StartsWith(trimmed, prefix) || !EndsWith(trimmed, suffix) then None
    else
      var title := Trim(WithoutSuffixes(WithoutPrefixes(trimmed, prefix), suffix), IsSpace);
      Some(if title == "" then "crabbit" else title)
  }

  function Marker(line: string): Option<string> {
    TitleBetween(MARKER_PREFIX, line, MARKER_SUFFIX)
  }

  function Closed(title: string, kept: string): Snapshot {
    Snapshot(title, Trim(kept, IsNewline))
  }

  predicate IsBlankLine(line: string) {
    Trim(line, IsSpace) == ""
  }

  /** What the grouping of lines asks of each of them. */
  datatype Tests = Tests(marker: string -> Option<string>, blank: string -> bool)

  const TESTS := Tests(Marker, IsBlankLine)

  /** The snapshots in `lines` once one is under way. */
  function Grouped(lines: seq<string>, title: string, kept: string, on: Tests): (r: seq<Snapshot>) {
    if lines == [] then [Closed(title, kept)]
    else
      match on.marker(lines[0])
      case Some(next) => [Closed(title, kept)] + Grouped(lines[1..], next, "", on)
      case None => Grouped(lines[1..], title, kept + lines[0] + "\n", on)
  }

  /** The snapshots in `lines`; text before the first marker makes a part of its own. */
  function Parts(lines: seq<string>, on: Tests): seq<Snapshot> {
    if lines == [] then []
    else
      match on.marker(lines[0])
      case Some(title) => Grouped(lines[1..], title, "", on)
      case None =>
        if on.blank(lines[0]) then Parts(lines[1..], on)
        else Grouped(lines[1..], "part 1", lines[0] + "\n", on)
  }

  function Pending(lines: seq<string>, title: Option<string>, kept: string, on: Tests): seq<Snapshot> {
    if title.None? then Parts(lines, on) else Grouped(lines, title.value, kept, on)
  }

  method ParseParts(body: string, on: Tests) returns (parts: seq<Snapshot>)
    ensures parts == Parts(Lines(body), on)
  {
    parts := [];
    var currentTitle: Option<string> := None;
    var current := "";
    var lines := Lines(body);
    for i := 0 to |lines|
      invariant Parts(lines, on) == parts + Pending(lines[i..], currentTitle, current, on)
      invariant currentTitle.None? ==> parts == [] && current == ""
    {
      var line := lines[i];
      assert lines[i..][0] == line && lines[i..][1..] == lines[i + 1..];
      var marker := on.marker(line);
      if marker.Some? {
        var previous := currentTitle;
        currentTitle := marker;
        if previous.Some? {
          ghost var rest := Pending(lines[i + 1..], marker, "", on);
          assert parts + ([Closed(previous.value, current)] + rest) == (parts + [Closed(previous.value, current)]) + rest;
          parts := parts + [Snapshot(previous.value, Trim(current, IsNewline))];
          current := "";
        }
      } else if currentTitle.Some? {
        current := current + line;
        current := current + "\n";
      } else if !on.blank(line) {
        currentTitle := Some("part 1");
        current := current + line;
        assert current == line;
        current := current + "\n";
      }
    }
    if currentTitle.Some? {
      parts := parts + [Snapshot(currentTitle.value, Trim(current, IsNewline))];
    }
  }

  /** The whole of `parse_trace`, up to the decoding of the metadata text. */
  ghost predicate Parses(contents: string, r: Result<Trace, ParseError>) {
    var src := TrimFront(contents, IsSpace);
    match r
    case Err(EmptyFile) => src == ""
    case Err(NoMetadata) => src != "" && forall n: nat :: !ClosesAt(src, n)
    case Ok(trace) =>
      var end := |trace.meta|;
      && ClosesAt(src, end) && trace.meta == src[..end]
      && trace.snapshots == Parts(Lines(TrimFront(src[end..], IsSpace)), TESTS)
  }

  method ParseTrace(contents: string) returns (r: Result<Trace, ParseError>)
    ensures Parses(contents, r)
  {
    var start := Run(contents, IsSpace);
    if start == |contents| {
      return Err(EmptyFile);
    }
    var end := FindJsonEnd(contents[start..]);
    if end.None? {
      return Err(NoMetadata);
    }
    var meta := contents[start..][..end.value];
    var body := TrimFront(contents[start..][end.value..], IsSpace);
    var snapshots := ParseParts(body, TESTS);
    return Ok(Trace(meta, snapshots));
  }

}
