/**
 * When the diff scanner's report is exactly the suspicious characters of the
 * inserted lines at their places in the new file.
 */
module DiffScanExact {
  import opened Text
  import opened DiffScan

  // ----- the changes considered -----

  /** Extended header lines: none begins like a hunk or a changed line. */
  predicate PreambleOk(lines: seq<string>) {
    forall i :: 0 <= i < |lines| ==> lines[i] == [] || lines[i][0] !in {'+', '-', '@'}
  }

  function NewTotal(segments: seq<Segment>): nat {
    if segments == [] then 0 else NewSize(segments[0]) + NewTotal(segments[1..])
  }

  /** A deleted file has no new line, and lines can be counted in a usize. */
  predicate FileOk(f: FileDiff) {
    && PreambleOk(f.preamble)
    && (f.Textual? ==> NewTotal(f.segments) <= USIZE_MAX && (f.newPath.None? ==> NewTotal(f.segments) == 0))
  }

  predicate DiffOk(fs: seq<FileDiff>) {
    fs == [] || (FileOk(fs[0]) && DiffOk(fs[1..]))
  }

  // ----- when the report is exact -----

  /** An inserted line that the scanner takes for a file header. */
  predicate HeaderLike(t: string) {
    "++ b/" <= t
  }

  /** The file the scanner takes from such a line. */
  function FileNamed(t: string): string
    requires HeaderLike(t)
  {
    StripCr(t[5..])
  }

  /** The scanner's file after an edit line, and after a hunk. */
  function FileAfterEdit(file: string, e: Edit): string {
    if e.Insert? && HeaderLike(e.text) then FileNamed(e.text) else file
  }

  function FileAfter(file: string, edits: seq<Edit>): string
    decreases |edits|
  {
    if edits == [] then file else FileAfter(FileAfterEdit(file, edits[0]), edits[1..])
  }

  function FileAfterSegment(file: string, segment: Segment): string {
    if segment.Hunk? then FileAfter(file, segment.edits) else file
  }

  /** How far the scanner's count has moved from the new file's lines, given how far it was. */
  function ShiftAfter(shift: int, e: Edit): int {
    match e
    case Insert(t) => if HeaderLike(t) then shift - 1 else shift
    case NoNewline => shift + 1
    case _ => shift
  }

  /** Not an inserted line that is skipped, or reported at another place, with a suspicious character. */
  predicate CleanEdit(path: string, file: string, e: Edit, shift: int) {
    e.Insert? && ("++" <= e.text || shift != 0 || file != path) ==> Plain(e.text)
  }

  /**
   * No suspicious character on an inserted line that begins with "++", or that is scanned
   * while the scanner's file is not the path or its line count is off: every marker in a
   * hunk raises the count by one, and every line taken for a file header lowers it by one.
   */
  predicate CleanEdits(path: string, file: string, edits: seq<Edit>, shift: int)
    decreases |edits|
  {
    edits == [] ||
    (CleanEdit(path, file, edits[0], shift)
     && CleanEdits(path, FileAfterEdit(file, edits[0]), edits[1..], ShiftAfter(shift, edits[0])))
  }

  predicate CleanSegment(path: string, file: string, segment: Segment) {
    segment.Hunk? ==> CleanEdits(path, file, segment.edits, 0)
  }

  predicate CleanSegments(path: string, file: string, segments: seq<Segment>)
    decreases |segments|
  {
    segments == [] ||
    (CleanSegment(path, file, segments[0]) && CleanSegments(path, FileAfterSegment(file, segments[0]), segments[1..]))
  }

  function FileAfterSegments(file: string, segments: seq<Segment>): string
    decreases |segments|
  {
    if segments == [] then file else FileAfterSegments(FileAfterSegment(file, segments[0]), segments[1..])
  }

  /** The scanner's file after a file header: only one that begins with the bare prefix "b/" is recognised. */
  function HeaderFile(file: string, header: string): string {
    if "b/" <= header then StripCr(header[2..]) else file
  }

  function FileAfterFile(file: string, f: FileDiff): string {
    if f.Textual? then FileAfterSegments(HeaderFile(file, f.newHeader), f.segments) else file
  }

  /** Scanning begins in the file that the scanner takes from the header, or was in before. */
  predicate CleanFile(file: string, f: FileDiff) {
    f.Textual? && f.newPath.Some? ==> CleanSegments(f.newPath.value, HeaderFile(file, f.newHeader), f.segments)
  }

  predicate CleanDiff(file: string, fs: seq<FileDiff>)
    decreases |fs|
  {
    fs == [] || (CleanFile(file, fs[0]) && CleanDiff(FileAfterFile(file, fs[0]), fs[1..]))
  }

  // ----- what the scanner reports on a rendered change -----

  /** The scanner's report in the given file, having counted the given number of new lines. */
  function ScannedEdits(file: string, edits: seq<Edit>, counted: nat): seq<Finding>
    decreases |edits|
  {
    if edits == [] then []
    else
      ScannedEdit(file, edits[0], counted)
      + ScannedEdits(FileAfterEdit(file, edits[0]), edits[1..], CountAfter(counted, edits[0]))
  }

  /** Inserted lines beginning with "++" are skipped. */
  function ScannedEdit(file: string, e: Edit, counted: nat): seq<Finding> {
    if e.Insert? && !("++" <= e.text) then TextFindings(file, counted + 1, e.text) else []
  }

  /** Markers are counted, lines taken for file headers are not. */
  function CountAfter(counted: nat, e: Edit): nat {
    if e.Delete? || (e.Insert? && HeaderLike(e.text)) then counted else counted + 1
  }

  function ScannedSegment(file: string, segment: Segment, line: nat): seq<Finding>
    requires line > 0
  {
    if segment.Hunk? then ScannedEdits(file, segment.edits, line - 1) else []
  }

  function ScannedSegments(file: string, segments: seq<Segment>, line: nat): seq<Finding>
    requires line > 0
    decreases |segments|
  {
    if segments == [] then [] else
    ScannedSegment(file, segments[0], line)
    + ScannedSegments(FileAfterSegment(file, segments[0]), segments[1..], line + NewSize(segments[0]))
  }

  function ScannedIn(file: string, f: FileDiff): seq<Finding> {
    if f.Textual? then ScannedSegments(HeaderFile(file, f.newHeader), f.segments, 1) else []
  }

  function ScannedDiff(file: string, fs: seq<FileDiff>): seq<Finding>
    decreases |fs|
  {
    if fs == [] then [] else ScannedIn(file, fs[0]) + ScannedDiff(FileAfterFile(file, fs[0]), fs[1..])
  }

  // ----- carriage returns at line ends -----

  /** One line of the text, which str::lines hands over without a carriage return at its end. */
  function ScanRaw(s: ScanState, raw: string): ScanState {
    ScanLine(s, StripCr(raw))
  }

  function ScanRaws(s: ScanState, lines: seq<string>): ScanState
    decreases |lines|
  {
    if lines == [] then s else ScanRaws(ScanRaw(s, lines[0]), lines[1..])
  }

  /** Stripping does not change which of the scanner's prefixes a line has. */
  lemma StripKeepsPrefix(p: string, raw: string)
    requires '\r' !in p
    ensures p <= StripCr(raw) <==> p <= raw
  {
    if p <= raw && |p| == |raw| {
      assert p == raw;
    }
  }

  lemma {:induction false} CharFindingsPrefix(file: string, line: nat, t: string, u: string, n: nat)
    requires n <= |u| <= |t| && u == t[..|u|]
    ensures CharFindings(file, line, t, n) == CharFindings(file, line, u, n)
  {
    if n > 0 {
      CharFindingsPrefix(file, line, t, u, n - 1);
      assert t[n - 1] == u[n - 1];
    }
  }

  lemma StripKeepsFindings(t: string, file: string, line: nat)
    ensures TextFindings(file, line, StripCr(t)) == TextFindings(file, line, t)
  {
    var u := StripCr(t);
    if u != t {
      CharFindingsPrefix(file, line, t, u, |u|);
      AsciiIsPlain('\r');
      assert CharFinding(file, line, t, |t|) == [];
    }
  }

  lemma {:induction false} TrimIgnoresCr(t: string)
    ensures Trim(t + ['\r']) == Trim(t)
  {
    var u := t + ['\r'];
    if t != [] && IsWhitespace(t[0]) {
      assert u[1..] == t[1..] + ['\r'];
      TrimIgnoresCr(t[1..]);
    } else if t == [] {
      assert u[1..] == [];
    } else {
      assert u[|u| - 1] == '\r' && u[..|u| - 1] == t;
    }
  }

  lemma {:induction false} BeforeWithCr(t: string, c: char)
    requires c != '\r'
    ensures Before(t + ['\r'], c) == Before(t, c) || Before(t + ['\r'], c) == Before(t, c) + ['\r']
    ensures |Before(t, c)| < |t| ==> Before(t + ['\r'], c) == Before(t, c)
    ensures |Before(t, c)| == |t| ==> Before(t + ['\r'], c) == t + ['\r']
  {
    if t != [] && t[0] != c {
      assert (t + ['\r'])[1..] == t[1..] + ['\r'];
      BeforeWithCr(t[1..], c);
    } else if t == [] {
      assert t + ['\r'] == ['\r'] && ['\r'][1..] == "";
    }
  }

  lemma {:induction false} BeforeAtAtWithCr(t: string)
    ensures BeforeAtAt(t + ['\r']) == BeforeAtAt(t) || BeforeAtAt(t + ['\r']) == BeforeAtAt(t) + ['\r']
  {
    var u := t + ['\r'];
    if t == [] {
      assert u[1..] == "" && !("@@" <= u);
    } else {
      assert u[1..] == t[1..] + ['\r'];
      BeforeAtAtWithCr(t[1..]);
      assert "@@" <= u <==> "@@" <= t by {
        if |t| >= 2 { assert u[0] == t[0] && u[1] == t[1]; } else { assert |u| == 2 && u[1] == '\r'; }
      }
    }
  }

  lemma HeaderIgnoresCr(h: string)
    ensures ParseNewLineStart(h + ['\r']) == ParseNewLineStart(h)
  {
    var first := Before(h, '+');
    BeforeShort(h, '+');
    BeforeWithCr(h, '+');
    if |first| < |h| {
      var after := h[|first| + 1..];
      assert (h + ['\r'])[|first| + 1..] == after + ['\r'];
      BeforeWithCr(after, '+');
      var rest := Before(after, '+');
      BeforeAtAtWithCr(rest);
      TrimIgnoresCr(BeforeAtAt(rest));
    }
  }

  lemma {:induction false} BeforeShort(s: string, c: char)
    ensures |Before(s, c)| <= |s|
  {
    if s != [] && s[0] != c { BeforeShort(s[1..], c); }
  }

  lemma StripTail(u: string)
    requires u != []
    ensures StripCr((u + ['\r'])[1..]) == u[1..]
  {
    assert (u + ['\r'])[1..] == u[1..] + ['\r'];
    assert (u[1..] + ['\r'])[..|u| - 1] == u[1..];
  }

  lemma StripPrefixed(p: string, t: string)
    requires p != [] && p[|p| - 1] != '\r'
    ensures StripCr(p + t) == p + StripCr(t)
  {
    if t == [] {
      assert p + t == p;
    } else {
      assert (p + t)[|p + t| - 1] == t[|t| - 1];
      assert (p + t)[..|p + t| - 1] == p + t[..|t| - 1];
    }
  }

  lemma StripKeepsKind(raw: string)
    ensures KindOf(StripCr(raw)) == KindOf(raw)
  {
    StripKeepsPrefix("+++ b/", raw);
    StripKeepsPrefix("--- ", raw);
    StripKeepsPrefix("@@", raw);
    StripKeepsPrefix("+", raw);
    StripKeepsPrefix("+++", raw);
    StripKeepsPrefix("-", raw);
  }

  lemma StripKeepsAdded(s: ScanState, u: string)
    requires u != []
    ensures AfterAdded(s, (u + ['\r'])[1..]) == AfterAdded(s, u[1..])
  {
    StripTail(u);
    StripKeepsFindings((u + ['\r'])[1..], s.file, s.line + 1);
  }

  lemma HeaderSplit(raw: string)
    requires KindOf(raw).FileHeader?
    ensures |raw| >= 6 && raw == "+++ b/" + raw[6..]
  {
  }

  /** A trailing carriage return makes no difference except in a file header, which loses it. */
  lemma {:induction false} ScanIgnoresCr(s: ScanState, raw: string)
    ensures ScanRaw(s, raw) == if KindOf(raw).FileHeader? then s.(file := StripCr(raw[6..])) else ScanLine(s, raw)
  {
    var u := StripCr(raw);
    StripKeepsKind(raw);
    if KindOf(raw).FileHeader? {
      HeaderSplit(raw);
      StripPrefixed("+++ b/", raw[6..]);
    } else if u != raw {
      assert raw == u + ['\r'];
      HeaderIgnoresCr(u);
      if KindOf(raw).Added? { StripKeepsAdded(s, u); }
    }
  }

  lemma {:induction false} ScanStripped(s: ScanState, lines: seq<string>)
    ensures ScanLines(s, MapStripCr(lines)) == ScanRaws(s, lines)
    decreases |lines|
  {
    if lines != [] {
      assert MapStripCr(lines)[1..] == MapStripCr(lines[1..]);
      ScanStripped(ScanRaw(s, lines[0]), lines[1..]);
    }
  }

  // ----- the scan of a rendered change -----

  lemma PrefixCons(c: char, p: string, t: string)
    ensures [c] + p <= [c] + t <==> p <= t
  {
    if p <= t { assert t == p + t[|p|..]; }
    if [c] + p <= [c] + t { assert forall i :: 0 <= i < |p| ==> p[i] == ([c] + p)[i + 1] == ([c] + t)[i + 1] == t[i]; }
  }

  function AfterEdit(s: ScanState, e: Edit): ScanState {
    ScanState(FileAfterEdit(s.file, e), CountAfter(s.line, e), s.findings + ScannedEdit(s.file, e, s.line))
  }

  /** What the scanner takes a rendered edit line for. */
  lemma EditKind(e: Edit)
    ensures e.Keep? || e.NoNewline? ==> KindOf(RenderEdit(e)).Other?
    ensures e.Delete? ==> KindOf(RenderEdit(e)).OldHeader? || KindOf(RenderEdit(e)).Removed?
  {
    var raw := RenderEdit(e);
    if !e.Insert? { assert raw[0] in {' ', '-', '\\'}; }
  }

  lemma InsertKind(t: string)
    ensures KindOf("+" + t) == if HeaderLike(t) then FileHeader else if "++" <= t then Other else Added
    ensures ("+" + t)[1..] == t
  {
    var raw := "+" + t;
    PrefixCons('+', "++ b/", t);
    PrefixCons('+', "++", t);
    assert "+++ b/" == ['+'] + "++ b/" && "+++" == ['+'] + "++" && raw == ['+'] + t;
    assert raw[0] == '+';
  }

  lemma HeaderLikeSkipped(t: string)
    requires HeaderLike(t)
    ensures "++" <= t
  {
    assert "++" == "++ b/"[..2];
  }

  lemma ScanInsert(s: ScanState, t: string)
    ensures ScanRaw(s, "+" + t) == AfterEdit(s, Insert(t))
  {
    InsertKind(t);
    ScanIgnoresCr(s, "+" + t);
    if HeaderLike(t) {
      HeaderLikeSkipped(t);
      assert ("+" + t)[6..] == t[5..];
    }
    InsertEffect(s, t);
  }

  lemma InsertEffect(s: ScanState, t: string)
    requires HeaderLike(t) ==> "++" <= t
    ensures AfterEdit(s, Insert(t)) ==
            if HeaderLike(t) then s.(file := FileNamed(t))
            else if "++" <= t then s.(line := s.line + 1) else AfterAdded(s, t)
  {
    NothingAdded(s, []);
  }

  lemma OtherEffect(s: ScanState, e: Edit)
    requires !e.Insert?
    ensures AfterEdit(s, e) == if e.Delete? then s else s.(line := s.line + 1)
  {
    NothingAdded(s, []);
  }

  lemma ScanOther(s: ScanState, e: Edit)
    requires !e.Insert?
    ensures ScanRaw(s, RenderEdit(e)) == if e.Delete? then s else s.(line := s.line + 1)
  {
    EditKind(e);
    ScanIgnoresCr(s, RenderEdit(e));
  }

  /** One rendered edit line. */
  lemma ScanEdit(s: ScanState, e: Edit)
    ensures ScanRaw(s, RenderEdit(e)) == AfterEdit(s, e)
  {
    if e.Insert? {
      ScanInsert(s, e.text);
    } else {
      ScanOther(s, e);
      OtherEffect(s, e);
    }
  }

  lemma {:induction false} ScanConcat(s: ScanState, a: seq<string>, b: seq<string>)
    ensures ScanRaws(s, a + b) == ScanRaws(ScanRaws(s, a), b)
    decreases |a|
  {
    if a == [] {
      assert a + b == b;
    } else {
      assert (a + b)[1..] == a[1..] + b;
      ScanConcat(ScanRaw(s, a[0]), a[1..], b);
    }
  }

  /** From s the scan comes to t: in the given file, with the given findings added. */
  predicate Adds(s: ScanState, t: ScanState, file: string, more: seq<Finding>) {
    t.file == file && t.findings == s.findings + more
  }

  lemma AddsTwice(s: ScanState, t: ScanState, u: ScanState, file: string, a: seq<Finding>, b: seq<Finding>)
    requires t.findings == s.findings + a && Adds(t, u, file, b)
    ensures Adds(s, u, file, a + b)
  {
    assert s.findings + a + b == s.findings + (a + b);
  }

  lemma NothingAdded(s: ScanState, more: seq<Finding>)
    ensures s.findings + [] == s.findings && [] + more == more
  {
  }

  lemma {:induction false} ScanEdits(s: ScanState, edits: seq<Edit>)
    ensures Adds(s, ScanRaws(s, RenderEdits(edits)), FileAfter(s.file, edits), ScannedEdits(s.file, edits, s.line))
    decreases |edits|
  {
    if edits == [] {
      NothingAdded(s, []);
    } else {
      var t, rest := AfterEdit(s, edits[0]), edits[1..];
      ScanFirstEdit(s, edits);
      ScanEdits(t, rest);
      AddsTwice(s, t, ScanRaws(t, RenderEdits(rest)), FileAfter(t.file, rest),
                ScannedEdit(s.file, edits[0], s.line), ScannedEdits(t.file, rest, t.line));
    }
  }

  lemma RenderedFirst(edits: seq<Edit>)
    requires edits != []
    ensures RenderEdits(edits) != [] && RenderEdits(edits)[0] == RenderEdit(edits[0])
    ensures RenderEdits(edits)[1..] == RenderEdits(edits[1..])
  {
  }

  /** Without new lines nothing is reported, whatever the count. */
  lemma {:induction false} NoNewLines(file: string, edits: seq<Edit>, counted: nat)
    requires NewCount(edits) == 0
    ensures ScannedEdits(file, edits, counted) == [] && FileAfter(file, edits) == file
    decreases |edits|
  {
    if edits != [] {
      NoNewLines(file, edits[1..], CountAfter(counted, edits[0]));
    }
  }

  lemma ScanHeader(s: ScanState, oldLine: nat, newLine: nat, hunk: Segment)
    requires oldLine > 0 && newLine > 0 && hunk.Hunk? && RangeStart(newLine, NewCount(hunk.edits)) <= USIZE_MAX
    ensures var t := ScanRaw(s, RenderSegment(hunk, oldLine, newLine)[0]);
      Adds(s, t, s.file, []) && (NewCount(hunk.edits) > 0 ==> t.line + 1 == newLine)
  {
    var h := RenderSegment(hunk, oldLine, newLine)[0];
    HeaderOf(hunk, oldLine, newLine);
    ScanAtHeader(s, h);
    NothingAdded(s, []);
  }

  lemma HeaderOf(hunk: Segment, oldLine: nat, newLine: nat)
    requires oldLine > 0 && newLine > 0 && hunk.Hunk? && RangeStart(newLine, NewCount(hunk.edits)) <= USIZE_MAX
    ensures var h := RenderSegment(hunk, oldLine, newLine)[0];
      |h| >= 2 && h[0] == '@' && h[1] == '@' && ParseNewLineStart(h) == RangeStart(newLine, NewCount(hunk.edits))
  {
    HeaderParses(oldLine, OldCount(hunk.edits), newLine, NewCount(hunk.edits), hunk.section, hunk.omitOne);
  }

  lemma ScanAtHeader(s: ScanState, h: string)
    requires |h| >= 2 && h[0] == '@' && h[1] == '@'
    ensures ScanRaw(s, h) == s.(line := LinesBefore(h))
  {
    HeaderKind(h);
    ScanIgnoresCr(s, h);
  }

  lemma HeaderKind(h: string)
    requires |h| >= 2 && h[0] == '@' && h[1] == '@'
    ensures KindOf(h).HunkHeader?
  {
  }

  lemma ScanSegment(s: ScanState, segment: Segment, oldLine: nat, newLine: nat)
    requires oldLine > 0 && newLine > 0 && newLine - 1 + NewSize(segment) <= USIZE_MAX
    ensures Adds(s, ScanRaws(s, RenderSegment(segment, oldLine, newLine)),
                 FileAfterSegment(s.file, segment), ScannedSegment(s.file, segment, newLine))
  {
    if segment.Hunk? {
      ScanHunk(s, segment, oldLine, newLine);
    } else {
      NothingAdded(s, []);
    }
  }

  lemma ScanHunk(s: ScanState, hunk: Segment, oldLine: nat, newLine: nat)
    requires oldLine > 0 && newLine > 0 && hunk.Hunk? && newLine - 1 + NewSize(hunk) <= USIZE_MAX
    ensures Adds(s, ScanRaws(s, RenderSegment(hunk, oldLine, newLine)),
                 FileAfter(s.file, hunk.edits), ScannedEdits(s.file, hunk.edits, newLine - 1))
  {
    var edits, lines := hunk.edits, RenderSegment(hunk, oldLine, newLine);
    var t := ScanRaw(s, lines[0]);
    ScanHeader(s, oldLine, newLine, hunk);
    assert lines[1..] == RenderEdits(edits);
    ScanEdits(t, edits);
    CountMatters(s.file, edits, t.line, newLine);
    NothingAdded(s, []);
  }

  /** A hunk without new lines may be scanned with any count. */
  lemma CountMatters(file: string, edits: seq<Edit>, counted: nat, line: nat)
    requires line > 0 && (NewCount(edits) > 0 ==> counted + 1 == line)
    ensures ScannedEdits(file, edits, counted) == ScannedEdits(file, edits, line - 1)
  {
    if NewCount(edits) == 0 {
      NoNewLines(file, edits, counted);
      NoNewLines(file, edits, line - 1);
    }
  }

  /** The scan of two stretches of lines, from what each adds. */
  lemma ScanBoth(
    s: ScanState, first: seq<string>, rest: seq<string>, middle: string, file: string,
    a: seq<Finding>, b: seq<Finding>)
    requires Adds(s, ScanRaws(s, first), middle, a)
    requires Adds(ScanRaws(s, first), ScanRaws(ScanRaws(s, first), rest), file, b)
    ensures Adds(s, ScanRaws(s, first + rest), file, a + b)
  {
    ScanConcat(s, first, rest);
    AddsTwice(s, ScanRaws(s, first), ScanRaws(s, first + rest), file, a, b);
  }

  lemma {:induction false} ScanSegments(s: ScanState, segments: seq<Segment>, oldLine: nat, newLine: nat)
    requires oldLine > 0 && newLine > 0 && newLine - 1 + NewTotal(segments) <= USIZE_MAX
    ensures Adds(s, ScanRaws(s, RenderSegments(segments, oldLine, newLine)),
                 FileAfterSegments(s.file, segments), ScannedSegments(s.file, segments, newLine))
    decreases |segments|
  {
    if segments == [] {
      NothingAdded(s, []);
    } else {
      var first := RenderSegment(segments[0], oldLine, newLine);
      var oldNext, newNext := oldLine + OldSize(segments[0]), newLine + NewSize(segments[0]);
      var rest := RenderSegments(segments[1..], oldNext, newNext);
      var file := FileAfterSegment(s.file, segments[0]);
      var a, b := ScannedSegment(s.file, segments[0], newLine), ScannedSegments(file, segments[1..], newNext);
      assert RenderSegments(segments, oldLine, newLine) == first + rest;
      assert ScannedSegments(s.file, segments, newLine) == a + b;
      ScanSegment(s, segments[0], oldLine, newLine);
      ScanSegments(ScanRaws(s, first), segments[1..], oldNext, newNext);
      ScanBoth(s, first, rest, file, FileAfterSegments(s.file, segments), a, b);
    }
  }

  lemma {:induction false} ScanPreamble(s: ScanState, lines: seq<string>)
    requires PreambleOk(lines)
    ensures Adds(s, ScanRaws(s, lines), s.file, [])
    decreases |lines|
  {
    NothingAdded(s, []);
    if lines != [] {
      PreambleKind(lines[0]);
      ScanIgnoresCr(s, lines[0]);
      ScanPreamble(ScanRaw(s, lines[0]), lines[1..]);
    }
  }

  lemma PreambleKind(raw: string)
    requires raw == [] || raw[0] !in {'+', '-', '@'}
    ensures KindOf(raw).Other?
  {
  }

  lemma {:induction false} NothingNew(file: string, segments: seq<Segment>, line: nat)
    requires line > 0 && NewTotal(segments) == 0
    ensures ScannedSegments(file, segments, line) == []
    decreases |segments|
  {
    if segments != [] {
      NothingInSegment(file, segments[0], line);
      NothingNew(file, segments[1..], line + NewSize(segments[0]));
    }
  }

  lemma NothingInSegment(file: string, segment: Segment, line: nat)
    requires line > 0 && NewSize(segment) == 0
    ensures ScannedSegment(file, segment, line) == [] && FileAfterSegment(file, segment) == file
  {
    if segment.Hunk? { NoNewLines(file, segment.edits, line - 1); }
  }

  lemma HeaderKinds(oldHeader: string, newHeader: string)
    ensures KindOf("--- " + oldHeader).OldHeader?
    ensures KindOf("+++ " + newHeader) == if "b/" <= newHeader then FileHeader else Other
    ensures "b/" <= newHeader ==> ("+++ " + newHeader)[6..] == newHeader[2..]
  {
    var first, second := "--- " + oldHeader, "+++ " + newHeader;
    assert first[0] == '-' && first[..4] == "--- ";
    assert second[0] == '+' && second[..3] == "+++" && second[..4] == "+++ ";
    assert second[4..] == newHeader && "+++ b/"[4..] == "b/" && "+++ b/"[..4] == "+++ ";
    if "b/" <= newHeader {
      assert newHeader[..2] == "b/";
      assert second[..6] == "+++ " + newHeader[..2] == "+++ b/";
    }
    if "+++ b/" <= second {
      assert second[..6] == "+++ b/";
      assert newHeader[..2] == second[4..6] == "b/";
    }
  }

  /** The two header lines set the file, or leave it. */
  lemma ScanFileHeader(s: ScanState, f: FileDiff)
    requires f.Textual?
    ensures Adds(s, ScanRaws(s, HeaderLines(f)), HeaderFile(s.file, f.newHeader), [])
  {
    var first, second := "--- " + f.oldHeader, "+++ " + f.newHeader;
    HeaderKinds(f.oldHeader, f.newHeader);
    ScanTwo(s, first, second);
    ScanIgnoresCr(s, first);
    ScanIgnoresCr(s, second);
    NothingAdded(s, []);
  }

  lemma ScanTwo(s: ScanState, first: string, second: string)
    ensures ScanRaws(s, [first] + [second]) == ScanRaw(ScanRaw(s, first), second)
  {
    var tail: seq<string> := [second];
    assert ([first] + tail)[1..] == tail && |tail[1..]| == 0;
    assert ScanRaws(ScanRaw(s, first), tail) == ScanRaws(ScanRaw(ScanRaw(s, first), second), tail[1..]);
  }

  lemma ScanFile(s: ScanState, f: FileDiff)
    requires FileOk(f)
    ensures Adds(s, ScanRaws(s, RenderFile(f)), FileAfterFile(s.file, f), ScannedIn(s.file, f))
  {
    ScanPreamble(s, f.preamble);
    if f.Textual? { ScanTextual(s, f); }
  }

  lemma ScanTextual(s: ScanState, f: FileDiff)
    requires FileOk(f) && f.Textual?
    ensures Adds(s, ScanRaws(s, RenderFile(f)), FileAfterFile(s.file, f), ScannedIn(s.file, f))
  {
    var header, body := HeaderLines(f), RenderSegments(f.segments, 1, 1);
    var named := HeaderFile(s.file, f.newHeader);
    var t := ScanRaws(s, f.preamble);
    ScanPreamble(s, f.preamble);
    ScanFileHeader(t, f);
    ScanSegments(ScanRaws(t, header), f.segments, 1, 1);
    ScanBoth(s, f.preamble, header, s.file, named, [], []);
    ScanConcat(s, f.preamble, header);
    ScanBoth(s, f.preamble + header, body, named, FileAfterFile(s.file, f), [] + [], ScannedIn(s.file, f));
    NothingAdded(s, ScannedIn(s.file, f));
  }

  lemma Associate(a: seq<Finding>, b: seq<Finding>, c: seq<Finding>)
    ensures a + b + c == a + (b + c) && a + [] == a
  {
  }

  lemma {:induction false} ScanRendered(s: ScanState, fs: seq<FileDiff>)
    requires DiffOk(fs)
    ensures ScanRaws(s, RenderDiff(fs)).findings == s.findings + ScannedDiff(s.file, fs)
    decreases |fs|
  {
    if fs == [] {
      Associate(s.findings, [], []);
    } else {
      var first := RenderFile(fs[0]);
      var a, b := ScannedIn(s.file, fs[0]), ScannedDiff(FileAfterFile(s.file, fs[0]), fs[1..]);
      assert RenderDiff(fs) == first + RenderDiff(fs[1..]);
      assert ScannedDiff(s.file, fs) == a + b;
      ScanFile(s, fs[0]);
      ScanRendered(ScanRaws(s, first), fs[1..]);
      ScanConcat(s, first, RenderDiff(fs[1..]));
      Associate(s.findings, a, b);
    }
  }

  // ----- report and expectation compared -----

  /** Two lists built from no longer and no shorter blocks agree exactly when the blocks do. */
  lemma Blocks<T>(a: seq<T>, b: seq<T>, c: seq<T>, d: seq<T>)
    requires |a| <= |c| && |b| <= |d|
    ensures a + b == c + d <==> a == c && b == d
  {
    if a + b == c + d {
      assert |a + b| == |c + d|;
      assert a == (a + b)[..|a|] && c == (c + d)[..|c|];
      assert b == (a + b)[|a|..] && d == (c + d)[|c|..];
    }
  }

  lemma PlainStep(t: string, n: nat)
    requires 0 < n <= |t|
    ensures Plain(t[..n]) <==> Plain(t[..n - 1]) && !Suspicious(t[n - 1])
  {
    assert t[..n] == t[..n - 1] + [t[n - 1]];
  }

  /** Findings at another place are as many, and the same only at the same place or when there are none. */
  lemma {:induction false} FindingsElsewhere(
    file: string, line: nat, path: string, at: nat, t: string, n: nat)
    requires n <= |t|
    ensures |CharFindings(file, line, t, n)| == |CharFindings(path, at, t, n)|
    ensures CharFindings(file, line, t, n) == [] <==> Plain(t[..n])
    ensures CharFindings(file, line, t, n) == CharFindings(path, at, t, n)
            <==> (file == path && line == at) || Plain(t[..n])
  {
    if n > 0 {
      FindingsElsewhere(file, line, path, at, t, n - 1);
      PlainStep(t, n);
      Blocks(CharFindings(file, line, t, n - 1), CharFinding(file, line, t, n),
             CharFindings(path, at, t, n - 1), CharFinding(path, at, t, n));
    }
  }

  /** No more is reported than expected, and just what is expected if and only if all is clean. */
  predicate Agree(scanned: seq<Finding>, expected: seq<Finding>, clean: bool) {
    |scanned| <= |expected| && (scanned == expected <==> clean)
  }

  lemma JoinAgree(
    a: seq<Finding>, b: seq<Finding>, c: seq<Finding>, d: seq<Finding>, clean: bool, more: bool)
    requires Agree(a, c, clean) && Agree(b, d, more)
    ensures Agree(a + b, c + d, clean && more)
  {
    Blocks(a, b, c, d);
  }

  lemma TextAgrees(file: string, line: nat, path: string, at: nat, t: string)
    ensures Agree(TextFindings(file, line, t), TextFindings(path, at, t), (file == path && line == at) || Plain(t))
    ensures Agree([], TextFindings(path, at, t), Plain(t))
  {
    FindingsElsewhere(file, line, path, at, t, |t|);
    FindingsElsewhere(path, at, file, line, t, |t|);
    assert t[..|t|] == t;
  }

  lemma EditAgrees(path: string, file: string, e: Edit, line: nat, counted: nat, shift: int)
    requires shift == counted + 1 - line
    ensures |ScannedEdit(file, e, counted)| <= |EditFinding(path, e, line)|
    ensures ScannedEdit(file, e, counted) == EditFinding(path, e, line) <==> CleanEdit(path, file, e, shift)
  {
    if e.Insert? { TextAgrees(file, counted + 1, path, line, e.text); }
  }

  lemma EditNoLonger(path: string, file: string, e: Edit, line: nat, counted: nat)
    ensures |ScannedEdit(file, e, counted)| <= |EditFinding(path, e, line)|
  {
    EditAgrees(path, file, e, line, counted, counted + 1 - line);
  }

  lemma ShiftIs(e: Edit, line: nat, counted: nat, shift: int)
    requires shift == counted + 1 - line
    ensures ShiftAfter(shift, e) == CountAfter(counted, e) + 1 - (line + NewSizeOf(e))
  {
  }

  lemma FirstScanned(file: string, edits: seq<Edit>, counted: nat)
    requires edits != []
    ensures ScannedEdits(file, edits, counted)
            == ScannedEdit(file, edits[0], counted)
               + ScannedEdits(FileAfterEdit(file, edits[0]), edits[1..], CountAfter(counted, edits[0]))
  {
  }

  lemma FirstExpected(path: string, edits: seq<Edit>, line: nat)
    requires edits != []
    ensures EditFindings(path, edits, line)
            == EditFinding(path, edits[0], line) + EditFindings(path, edits[1..], line + NewSizeOf(edits[0]))
  {
  }

  lemma {:induction false} EditsNoLonger(path: string, file: string, edits: seq<Edit>, line: nat, counted: nat)
    ensures |ScannedEdits(file, edits, counted)| <= |EditFindings(path, edits, line)|
    decreases |edits|
  {
    if edits != [] {
      FirstScanned(file, edits, counted);
      FirstExpected(path, edits, line);
      EditNoLonger(path, file, edits[0], line, counted);
      EditsNoLonger(path, FileAfterEdit(file, edits[0]), edits[1..], line + NewSizeOf(edits[0]),
                    CountAfter(counted, edits[0]));
    }
  }

  /** The report on the edit lines is as expected exactly when that on the first and that on the rest are. */
  lemma FirstAgrees(path: string, file: string, edits: seq<Edit>, line: nat, counted: nat)
    requires edits != []
    ensures ScannedEdits(file, edits, counted) == EditFindings(path, edits, line)
            <==> ScannedEdit(file, edits[0], counted) == EditFinding(path, edits[0], line)
                 && ScannedEdits(FileAfterEdit(file, edits[0]), edits[1..], CountAfter(counted, edits[0]))
                    == EditFindings(path, edits[1..], line + NewSizeOf(edits[0]))
  {
    var next, count := line + NewSizeOf(edits[0]), CountAfter(counted, edits[0]);
    var named := FileAfterEdit(file, edits[0]);
    FirstScanned(file, edits, counted);
    FirstExpected(path, edits, line);
    EditNoLonger(path, file, edits[0], line, counted);
    EditsNoLonger(path, named, edits[1..], next, count);
    Blocks(ScannedEdit(file, edits[0], counted), ScannedEdits(named, edits[1..], count),
           EditFinding(path, edits[0], line), EditFindings(path, edits[1..], next));
  }

  lemma FirstClean(path: string, file: string, edits: seq<Edit>, shift: int)
    requires edits != []
    ensures CleanEdits(path, file, edits, shift)
            <==> CleanEdit(path, file, edits[0], shift)
                 && CleanEdits(path, FileAfterEdit(file, edits[0]), edits[1..], ShiftAfter(shift, edits[0]))
  {
  }

  lemma {:induction false} EditsAgree(
    path: string, file: string, edits: seq<Edit>, line: nat, counted: nat, shift: int)
    requires shift == counted + 1 - line
    ensures ScannedEdits(file, edits, counted) == EditFindings(path, edits, line)
            <==> CleanEdits(path, file, edits, shift)
    decreases |edits|
  {
    if edits != [] {
      FirstAgrees(path, file, edits, line, counted);
      EditAgrees(path, file, edits[0], line, counted, shift);
      ShiftIs(edits[0], line, counted, shift);
      FirstClean(path, file, edits, shift);
      EditsAgree(path, FileAfterEdit(file, edits[0]), edits[1..], line + NewSizeOf(edits[0]),
                 CountAfter(counted, edits[0]), ShiftAfter(shift, edits[0]));
    }
  }

  lemma SegmentAgrees(path: string, file: string, segment: Segment, line: nat)
    requires line > 0
    ensures Agree(ScannedSegment(file, segment, line), FindingsOf(path, segment, line),
                  CleanSegment(path, file, segment))
  {
    if segment.Hunk? {
      EditsNoLonger(path, file, segment.edits, line, line - 1);
      EditsAgree(path, file, segment.edits, line, line - 1, 0);
    }
  }

  lemma {:induction false} SegmentsAgree(path: string, file: string, segments: seq<Segment>, line: nat)
    requires line > 0
    ensures Agree(ScannedSegments(file, segments, line), SegmentFindings(path, segments, line),
                  CleanSegments(path, file, segments))
    decreases |segments|
  {
    if segments != [] {
      var next, after := line + NewSize(segments[0]), FileAfterSegment(file, segments[0]);
      SegmentAgrees(path, file, segments[0], line);
      SegmentsAgree(path, after, segments[1..], next);
      JoinAgree(ScannedSegment(file, segments[0], line), ScannedSegments(after, segments[1..], next),
                FindingsOf(path, segments[0], line), SegmentFindings(path, segments[1..], next),
                CleanSegment(path, file, segments[0]), CleanSegments(path, after, segments[1..]));
    }
  }

  lemma FileAgrees(file: string, f: FileDiff)
    requires FileOk(f)
    ensures Agree(ScannedIn(file, f), ExpectedIn(f), CleanFile(file, f))
  {
    if f.Textual? {
      var named := HeaderFile(file, f.newHeader);
      if f.newPath.Some? {
        SegmentsAgree(f.newPath.value, named, f.segments, 1);
      } else {
        NothingNew(named, f.segments, 1);
      }
    }
  }

  lemma {:induction false} DiffsAgree(file: string, fs: seq<FileDiff>)
    requires DiffOk(fs)
    ensures Agree(ScannedDiff(file, fs), ExpectedFindings(fs), CleanDiff(file, fs))
    decreases |fs|
  {
    if fs != [] {
      var after := FileAfterFile(file, fs[0]);
      FileAgrees(file, fs[0]);
      DiffsAgree(after, fs[1..]);
      JoinAgree(ScannedIn(file, fs[0]), ScannedDiff(after, fs[1..]), ExpectedIn(fs[0]), ExpectedFindings(fs[1..]),
                CleanFile(file, fs[0]), CleanDiff(after, fs[1..]));
    }
  }

  // ----- the main result -----

  /** The text of a diff: every rendered line ended by a line feed. */
  function DiffText(fs: seq<FileDiff>): string {
    Unlines(RenderDiff(fs))
  }

  /** No line of the change contains a line feed. */
  predicate OneLineEach(lines: seq<string>) {
    forall i :: 0 <= i < |lines| ==> '\n' !in lines[i]
  }

  /**
   * Scanning the text of any consistent change, whatever its file headers say, reports every suspicious
   * character of the inserted lines exactly once, at its place in the new file, if and only if none sits on
   * an inserted line that begins with "++", that is scanned under another name than its file's path, or that
   * follows in its hunk unequal numbers of no-newline markers and of inserted lines "++ b/...".
   */
  lemma {:induction false} DiffScanExactly(fs: seq<FileDiff>)
    requires DiffOk(fs) && OneLineEach(RenderDiff(fs))
    ensures ScanLines(START, Lines(DiffText(fs))).findings == ExpectedFindings(fs) <==> CleanDiff("<unknown>", fs)
  {
    ScanRenderedText(fs);
    DiffsAgree(START.file, fs);
  }

  /** What the scan of the text reports, clean or not. */
  lemma {:induction false} ScanRenderedText(fs: seq<FileDiff>)
    requires DiffOk(fs) && OneLineEach(RenderDiff(fs))
    ensures ScanLines(START, Lines(DiffText(fs))).findings == ScannedDiff("<unknown>", fs)
  {
    LinesOfUnlines(RenderDiff(fs));
    ScanStripped(START, RenderDiff(fs));
    ScanRendered(START, fs);
    NothingAdded(START, ScannedDiff(START.file, fs));
  }

  method ScanRenderedDiff(fs: seq<FileDiff>) returns (findings: seq<Finding>)
    requires DiffOk(fs) && OneLineEach(RenderDiff(fs))
    ensures findings == ScannedDiff("<unknown>", fs)
    ensures findings == ExpectedFindings(fs) <==> CleanDiff("<unknown>", fs)
  {
    findings := ScanDiff(DiffText(fs));
    ScanRenderedText(fs);
    DiffScanExactly(fs);
  }

  // ----- which headers name their file -----

  /** A bare header is read as its path, unless that ends in a carriage return. */
  lemma {:induction false} BareHeader(file: string, path: string)
    ensures HeaderFile(file, "b/" + path) == StripCr(path)
  {
    assert ("b/" + path)[..2] == "b/" && ("b/" + path)[2..] == path;
  }

  /** A header with a tab after the path is read with the tab and what follows it. */
  lemma {:induction false} TabbedHeader(file: string, path: string, after: string)
    ensures HeaderFile(file, "b/" + path + "\t" + after) == path + "\t" + StripCr(after) != path
  {
    assert "b/" + path + "\t" + after == "b/" + ((path + "\t") + after);
    BareHeader(file, (path + "\t") + after);
    StripPrefixed(path + "\t", after);
    assert |path + "\t" + StripCr(after)| > |path|;
  }

  /** A quoted header is not recognised: its lines are reported under the previous file's name. */
  lemma {:induction false} QuotedHeader(file: string, rest: string)
    ensures HeaderFile(file, "\"" + rest) == file
  {
    assert ("\"" + rest)[0] == '"';
  }

  // ----- when nothing is reported -----

  /** Every inserted line begins with "++" or has no suspicious character. */
  predicate Unremarkable(edits: seq<Edit>) {
    forall i :: 0 <= i < |edits| && edits[i].Insert? && !("++" <= edits[i].text) ==> Plain(edits[i].text)
  }

  predicate UnremarkableSegments(segments: seq<Segment>) {
    forall i :: 0 <= i < |segments| && segments[i].Hunk? ==> Unremarkable(segments[i].edits)
  }

  predicate UnremarkableDiff(fs: seq<FileDiff>) {
    forall i :: 0 <= i < |fs| && fs[i].Textual? ==> UnremarkableSegments(fs[i].segments)
  }

  lemma UnremarkableFirst(edits: seq<Edit>)
    requires edits != []
    ensures Unremarkable(edits)
            <==> (edits[0].Insert? && !("++" <= edits[0].text) ==> Plain(edits[0].text)) && Unremarkable(edits[1..])
  {
    if Unremarkable(edits[1..]) {
      assert forall i :: 0 < i < |edits| ==> edits[i] == edits[1..][i - 1];
    }
  }

  lemma {:induction false} NoneInEdits(file: string, edits: seq<Edit>, counted: nat)
    ensures ScannedEdits(file, edits, counted) == [] <==> Unremarkable(edits)
    decreases |edits|
  {
    if edits != [] {
      UnremarkableFirst(edits);
      FirstScanned(file, edits, counted);
      NoneInEdit(file, edits[0], counted);
      NoneInEdits(FileAfterEdit(file, edits[0]), edits[1..], CountAfter(counted, edits[0]));
    }
  }

  lemma NoneInEdit(file: string, e: Edit, counted: nat)
    ensures ScannedEdit(file, e, counted) == [] <==> (e.Insert? && !("++" <= e.text) ==> Plain(e.text))
  {
    if e.Insert? {
      FindingsElsewhere(file, counted + 1, file, counted + 1, e.text, |e.text|);
      assert e.text[..|e.text|] == e.text;
    }
  }

  lemma UnremarkableSegmentsFirst(segments: seq<Segment>)
    requires segments != []
    ensures UnremarkableSegments(segments)
            <==> (segments[0].Hunk? ==> Unremarkable(segments[0].edits)) && UnremarkableSegments(segments[1..])
  {
    if UnremarkableSegments(segments[1..]) {
      assert forall i :: 0 < i < |segments| ==> segments[i] == segments[1..][i - 1];
    }
  }

  lemma NoneInSegment(file: string, segment: Segment, line: nat)
    requires line > 0
    ensures ScannedSegment(file, segment, line) == [] <==> (segment.Hunk? ==> Unremarkable(segment.edits))
  {
    if segment.Hunk? { NoneInEdits(file, segment.edits, line - 1); }
  }

  lemma FirstSegmentScanned(file: string, segments: seq<Segment>, line: nat)
    requires line > 0 && segments != []
    ensures ScannedSegments(file, segments, line) == []
            <==> ScannedSegment(file, segments[0], line) == []
                 && ScannedSegments(FileAfterSegment(file, segments[0]), segments[1..], line + NewSize(segments[0]))
                    == []
  {
  }

  lemma {:induction false} NoneInSegments(file: string, segments: seq<Segment>, line: nat)
    requires line > 0
    ensures ScannedSegments(file, segments, line) == [] <==> UnremarkableSegments(segments)
    decreases |segments|
  {
    if segments != [] {
      UnremarkableSegmentsFirst(segments);
      FirstSegmentScanned(file, segments, line);
      NoneInSegment(file, segments[0], line);
      NoneInSegments(FileAfterSegment(file, segments[0]), segments[1..], line + NewSize(segments[0]));
    }
  }

  lemma UnremarkableDiffFirst(fs: seq<FileDiff>)
    requires fs != []
    ensures UnremarkableDiff(fs)
            <==> (fs[0].Textual? ==> UnremarkableSegments(fs[0].segments)) && UnremarkableDiff(fs[1..])
  {
    if UnremarkableDiff(fs[1..]) {
      assert forall i :: 0 < i < |fs| ==> fs[i] == fs[1..][i - 1];
    }
  }

  lemma {:induction false} NoneInDiff(file: string, fs: seq<FileDiff>)
    ensures ScannedDiff(file, fs) == [] <==> UnremarkableDiff(fs)
    decreases |fs|
  {
    if fs != [] {
      UnremarkableDiffFirst(fs);
      if fs[0].Textual? { NoneInSegments(HeaderFile(file, fs[0].newHeader), fs[0].segments, 1); }
      NoneInDiff(FileAfterFile(file, fs[0]), fs[1..]);
    }
  }

  /**
   * The scan passes a change if and only if every inserted line with a suspicious character begins with "++",
   * whatever headers and markers do to names and line numbers.
   */
  lemma {:induction false} PassesExactly(fs: seq<FileDiff>)
    requires DiffOk(fs) && OneLineEach(RenderDiff(fs))
    ensures ScanLines(START, Lines(DiffText(fs))).findings == [] <==> UnremarkableDiff(fs)
  {
    ScanRenderedText(fs);
    NoneInDiff(START.file, fs);
  }

  // ----- header-like lines -----

  /**
   * After an inserted line that looks like a file header, the next inserted line is
   * reported under the text of that line and a line too early.
   */
  lemma {:induction false} HeaderLikeLineMisleads(s: ScanState, header: string, t: string)
    requires HeaderLike(header) && !("++" <= t)
    ensures ScanRaws(s, RenderEdits([Insert(header), Insert(t)])).findings
            == s.findings + TextFindings(FileNamed(header), s.line + 1, t)
    ensures EditFindings(s.file, [Insert(header), Insert(t)], s.line + 1)
            == TextFindings(s.file, s.line + 1, header) + TextFindings(s.file, s.line + 2, t)
  {
    var edits := [Insert(header), Insert(t)];
    TwoEdits(s, edits);
    TwoExpected(s.file, edits, s.line + 1);
    HeaderLikeSkipped(header);
    SkippedThenReported(s, header, t);
  }

  lemma SkippedThenReported(s: ScanState, header: string, t: string)
    requires HeaderLike(header) && "++" <= header && !("++" <= t)
    ensures AfterEdit(AfterEdit(s, Insert(header)), Insert(t)).findings
            == s.findings + TextFindings(FileNamed(header), s.line + 1, t)
  {
    var u := AfterEdit(s, Insert(header));
    NothingAdded(s, []);
    assert u.findings == s.findings && u.file == FileNamed(header) && u.line == s.line;
    assert AfterEdit(u, Insert(t)).findings == u.findings + ScannedEdit(u.file, Insert(t), u.line);
  }

  lemma TwoEdits(s: ScanState, edits: seq<Edit>)
    requires |edits| == 2
    ensures ScanRaws(s, RenderEdits(edits)) == AfterEdit(AfterEdit(s, edits[0]), edits[1])
  {
    ScanFirstEdit(s, edits);
    ScanFirstEdit(AfterEdit(s, edits[0]), edits[1..]);
    assert edits[1..][1..] == [];
  }

  lemma ScanFirstEdit(s: ScanState, edits: seq<Edit>)
    requires edits != []
    ensures ScanRaws(s, RenderEdits(edits)) == ScanRaws(AfterEdit(s, edits[0]), RenderEdits(edits[1..]))
  {
    RenderedFirst(edits);
    ScanEdit(s, edits[0]);
  }

  lemma TwoExpected(file: string, edits: seq<Edit>, line: nat)
    requires |edits| == 2
    ensures EditFindings(file, edits, line)
            == EditFinding(file, edits[0], line) + EditFinding(file, edits[1], line + NewSizeOf(edits[0]))
  {
    var more := edits[1..];
    assert more[1..] == [];
    assert EditFindings(file, more, line + NewSizeOf(edits[0]))
        == EditFinding(file, edits[1], line + NewSizeOf(edits[0])) + [];
  }
}
