/**
 * The scanner for invisible characters in unified diffs,
 * bins/scan-invisible-chars/src/main.rs.
 */
module DiffScan {
  import opened Wrappers
  import opened Decimal
  import opened Text

  /** A suspicious character's name, before it is written out. */
  datatype Label =
    | Listed(codepoint: nat)
    | TagCharacter(codepoint: nat)
    | VariationSelector(codepoint: nat)
    | VariationSelectorSupplement(codepoint: nat)

  datatype Finding = Finding(file: string, line: nat, col: nat, codepoint: nat, name: Label)

  // ----- which characters are suspicious -----

  /** The code points with names of their own. */
  predicate IsListed(n: nat) {
    || 0x200B <= n <= 0x200F || 0x202A <= n <= 0x202E || 0x2060 <= n <= 0x2064 || 0x2066 <= n <= 0x2069
    || n == 0xFEFF || n == 0x00AD || n == 0x034F || n == 0x061C || n == 0x180E || 0xFFF9 <= n <= 0xFFFB
    || n == 0xE0001
  }

  function ClassifyChar(c: char): Option<Label> {
    var n := c as int;
    if IsListed(n) then Some(Listed(n))
    else if 0xE0020 <= n <= 0xE007F then Some(TagCharacter(n))
    else if 0xFE00 <= n <= 0xFE0F then Some(VariationSelector(n))
    else if 0xE0100 <= n <= 0xE01EF then Some(VariationSelectorSupplement(n))
    else None
  }

  predicate Suspicious(c: char) {
    ClassifyChar(c).Some?
  }

  predicate Plain(t: string) {
    forall i :: 0 <= i < |t| ==> !Suspicious(t[i])
  }

  /** The findings among the first n characters of a line's text. */
  function CharFindings(file: string, line: nat, t: string, n: nat): seq<Finding>
    requires n <= |t|
  {
    if n == 0 then [] else CharFindings(file, line, t, n - 1) + CharFinding(file, line, t, n)
  }

  /** The finding, if any, at column n. */
  function CharFinding(file: string, line: nat, t: string, n: nat): seq<Finding>
    requires 0 < n <= |t|
  {
    match ClassifyChar(t[n - 1])
    case None => []
    case Some(name) => [Finding(file, line, n, t[n - 1] as int, name)]
  }

  function TextFindings(file: string, line: nat, t: string): seq<Finding> {
    CharFindings(file, line, t, |t|)
  }

  // ----- the names -----

  function HexDigit(d: nat): char
    requires d < 16
  {
    if d < 10 then '0' + d as char else 'A' + (d - 10) as char
  }

  /** At least `width` upper-case hexadecimal digits. */
  function Hex(n: nat, width: nat): string
    decreases n, width
  {
    if n < 16 && width <= 1 then [HexDigit(n)]
    else Hex(n / 16, if width == 0 then 0 else width - 1) + [HexDigit(n % 16)]
  }

  function ZeroWidthCodepoints(): seq<(nat, string)> {
    [
      (0x200B, "ZERO WIDTH SPACE"),
      (0x200C, "ZERO WIDTH NON-JOINER"),
      (0x200D, "ZERO WIDTH JOINER"),
      (0x200E, "LEFT-TO-RIGHT MARK"),
      (0x200F, "RIGHT-TO-LEFT MARK")
    ]
  }

  function DirectionCodepoints(): seq<(nat, string)> {
    [
      (0x202A, "LEFT-TO-RIGHT EMBEDDING"),
      (0x202B, "RIGHT-TO-LEFT EMBEDDING"),
      (0x202C, "POP DIRECTIONAL FORMATTING"),
      (0x202D, "LEFT-TO-RIGHT OVERRIDE"),
      (0x202E, "RIGHT-TO-LEFT OVERRIDE"),
      (0x2066, "LEFT-TO-RIGHT ISOLATE"),
      (0x2067, "RIGHT-TO-LEFT ISOLATE"),
      (0x2068, "FIRST STRONG ISOLATE"),
      (0x2069, "POP DIRECTIONAL ISOLATE")
    ]
  }

  function OperatorCodepoints(): seq<(nat, string)> {
    [
      (0x2060, "WORD JOINER"),
      (0x2061, "FUNCTION APPLICATION"),
      (0x2062, "INVISIBLE TIMES"),
      (0x2063, "INVISIBLE SEPARATOR"),
      (0x2064, "INVISIBLE PLUS")
    ]
  }

  function OtherCodepoints(): seq<(nat, string)> {
    [
      (0xFEFF, "BYTE ORDER MARK"),
      (0x00AD, "SOFT HYPHEN"),
      (0x034F, "COMBINING GRAPHEME JOINER"),
      (0x061C, "ARABIC LETTER MARK"),
      (0x180E, "MONGOLIAN VOWEL SEPARATOR"),
      (0xFFF9, "INTERLINEAR ANNOTATION ANCHOR"),
      (0xFFFA, "INTERLINEAR ANNOTATION SEPARATOR"),
      (0xFFFB, "INTERLINEAR ANNOTATION TERMINATOR"),
      (0xE0001, "LANGUAGE TAG")
    ]
  }

  function NamedCodepoints(): seq<(nat, string)> {
    ZeroWidthCodepoints() + DirectionCodepoints() + OperatorCodepoints() + OtherCodepoints()
  }

  function NameIn(table: seq<(nat, string)>, n: nat): Option<string> {
    if table == [] then None
    else if table[0].0 == n then Some(table[0].1)
    else NameIn(table[1..], n)
  }

  /** The name as the report prints it. */
  function LabelText(l: Label): string {
    match l
    case Listed(n) => (match NameIn(NamedCodepoints(), n) case Some(name) => name case None => "")
    case TagCharacter(n) => "TAG CHARACTER U+" + Hex(n, 4)
    case VariationSelector(n) => "VARIATION SELECTOR U+" + Hex(n, 4)
    case VariationSelectorSupplement(n) => "VARIATION SELECTOR SUPPLEMENT U+" + Hex(n, 4)
  }

  ghost predicate InTable(table: seq<(nat, string)>, n: nat) {
    exists i :: 0 <= i < |table| && table[i].0 == n
  }

  lemma {:induction false} NameInTable(table: seq<(nat, string)>, n: nat)
    ensures NameIn(table, n).Some? <==> InTable(table, n)
  {
    if table != [] {
      NameInTable(table[1..], n);
      if InTable(table, n) && table[0].0 != n {
        var i :| 0 <= i < |table| && table[i].0 == n;
        assert table[1..][i - 1].0 == n;
      }
      if InTable(table[1..], n) {
        var i :| 0 <= i < |table[1..]| && table[1..][i].0 == n;
        assert table[i + 1].0 == n;
      }
    }
  }

  lemma InEitherTable(a: seq<(nat, string)>, b: seq<(nat, string)>, n: nat)
    ensures InTable(a + b, n) <==> InTable(a, n) || InTable(b, n)
  {
    if InTable(a, n) {
      var i :| 0 <= i < |a| && a[i].0 == n;
      assert (a + b)[i].0 == n;
    }
    if InTable(b, n) {
      var i :| 0 <= i < |b| && b[i].0 == n;
      assert (a + b)[|a| + i].0 == n;
    }
    if InTable(a + b, n) {
      var i :| 0 <= i < |a + b| && (a + b)[i].0 == n;
      assert if i < |a| then a[i].0 == n else b[i - |a|].0 == n;
    }
  }

  lemma ZeroWidthListed(n: nat)
    ensures InTable(ZeroWidthCodepoints(), n) <==> 0x200B <= n <= 0x200F
  {
    if 0x200B <= n <= 0x200F { assert ZeroWidthCodepoints()[n - 0x200B].0 == n; }
  }

  lemma DirectionListed(n: nat)
    ensures InTable(DirectionCodepoints(), n) <==> 0x202A <= n <= 0x202E || 0x2066 <= n <= 0x2069
  {
    if 0x202A <= n <= 0x202E { assert DirectionCodepoints()[n - 0x202A].0 == n; }
    if 0x2066 <= n <= 0x2069 { assert DirectionCodepoints()[n - 0x2066 + 5].0 == n; }
  }

  lemma OperatorListed(n: nat)
    ensures InTable(OperatorCodepoints(), n) <==> 0x2060 <= n <= 0x2064
  {
    if 0x2060 <= n <= 0x2064 { assert OperatorCodepoints()[n - 0x2060].0 == n; }
  }

  lemma OtherListed(n: nat)
    ensures InTable(OtherCodepoints(), n)
            <==> n in {0xFEFF, 0x00AD, 0x034F, 0x061C, 0x180E, 0xFFF9, 0xFFFA, 0xFFFB, 0xE0001}
  {
    var t := OtherCodepoints();
    assert t[0].0 == 0xFEFF && t[1].0 == 0x00AD && t[2].0 == 0x034F && t[3].0 == 0x061C && t[4].0 == 0x180E;
    assert t[5].0 == 0xFFF9 && t[6].0 == 0xFFFA && t[7].0 == 0xFFFB && t[8].0 == 0xE0001;
  }

  /** Exactly the code points with an entry in the table of names are taken for listed ones. */
  lemma {:induction false} ListedExactly(n: nat)
    ensures IsListed(n) <==> NameIn(NamedCodepoints(), n).Some?
  {
    var a, b, d := ZeroWidthCodepoints(), DirectionCodepoints(), OperatorCodepoints();
    NameInTable(NamedCodepoints(), n);
    InEitherTable(a, b, n);
    InEitherTable(a + b, d, n);
    InEitherTable(a + b + d, OtherCodepoints(), n);
    ZeroWidthListed(n);
    DirectionListed(n);
    OperatorListed(n);
    OtherListed(n);
  }

  // ----- a printed name tells its code point -----

  function HexDigitValue(c: char): nat {
    if '0' <= c <= '9' then (c - '0') as nat else if 'A' <= c <= 'F' then (c - 'A') as nat + 10 else 0
  }

  function HexValue(s: string): nat {
    if s == [] then 0 else 16 * HexValue(s[..|s| - 1]) + HexDigitValue(s[|s| - 1])
  }

  lemma {:induction false} HexReadBack(n: nat, width: nat)
    ensures HexValue(Hex(n, width)) == n
    decreases n, width
  {
    if n < 16 && width <= 1 {
      var one: string := [HexDigit(n)];
      assert one[..0] == [];
    } else {
      var front := Hex(n / 16, if width == 0 then 0 else width - 1);
      HexReadBack(n / 16, if width == 0 then 0 else width - 1);
      assert (front + [HexDigit(n % 16)])[..|front|] == front;
    }
  }

  /** The length and the third letter, which together differ for all listed names. */
  function Key(name: string): nat {
    if |name| < 3 then 0 else 1000 * |name| + name[2] as int
  }

  function KeyCodepoint(key: nat): nat {
    if key == 16082 then 0x200B
    else if key == 21082 then 0x200C
    else if key == 17082 then 0x200D
    else if key == 18070 then 0x200E
    else if key == 18071 then 0x200F
    else if key == 23070 then 0x202A
    else if key == 23071 then 0x202B
    else if key == 26080 then 0x202C
    else if key == 22070 then 0x202D
    else if key == 22071 then 0x202E
    else if key == 21070 then 0x2066
    else if key == 21071 then 0x2067
    else if key == 20082 then 0x2068
    else if key == 23080 then 0x2069
    else if key == 11082 then 0x2060
    else if key == 20078 then 0x2061
    else if key == 15086 then 0x2062
    else if key == 19086 then 0x2063
    else if key == 14086 then 0x2064
    else if key == 15084 then 0xFEFF
    else if key == 11070 then 0x00AD
    else if key == 25077 then 0x034F
    else if key == 18065 then 0x061C
    else if key == 25078 then 0x180E
    else if key == 29084 then 0xFFF9
    else if key == 32084 then 0xFFFA
    else if key == 33084 then 0xFFFB
    else if key == 12078 then 0xE0001
    else 0
  }

  /** The code point of a printed name. */
  function CodepointNamed(name: string): nat {
    if |name| >= 16 && name[0] == 'T' then HexValue(name[16..])
    else if |name| >= 21 && name[0] == 'V' && name[19] == 'U' then HexValue(name[21..])
    else if |name| >= 32 && name[0] == 'V' then HexValue(name[32..])
    else KeyCodepoint(Key(name))
  }

  /** A table entry whose name does not look like a numbered one and whose key gives its code point. */
  predicate ReadsBack(entry: (nat, string)) {
    |entry.1| >= 3 && entry.1[0] !in {'T', 'V'} && KeyCodepoint(Key(entry.1)) == entry.0
  }

  lemma ZeroWidthReadBack(i: nat)
    requires i < |ZeroWidthCodepoints()|
    ensures ReadsBack(ZeroWidthCodepoints()[i])
  {
    var t := ZeroWidthCodepoints();
    assert i == 0 ==> Key(t[0].1) == 16082;
    assert i == 1 ==> Key(t[1].1) == 21082;
    assert i == 2 ==> Key(t[2].1) == 17082;
    assert i == 3 ==> Key(t[3].1) == 18070;
    assert i == 4 ==> Key(t[4].1) == 18071;
  }

  lemma DirectionReadBack(i: nat)
    requires i < |DirectionCodepoints()|
    ensures ReadsBack(DirectionCodepoints()[i])
  {
    var t := DirectionCodepoints();
    assert i == 0 ==> Key(t[0].1) == 23070;
    assert i == 1 ==> Key(t[1].1) == 23071;
    assert i == 2 ==> Key(t[2].1) == 26080;
    assert i == 3 ==> Key(t[3].1) == 22070;
    assert i == 4 ==> Key(t[4].1) == 22071;
    assert i == 5 ==> Key(t[5].1) == 21070;
    assert i == 6 ==> Key(t[6].1) == 21071;
    assert i == 7 ==> Key(t[7].1) == 20082;
    assert i == 8 ==> Key(t[8].1) == 23080;
  }

  lemma OperatorReadBack(i: nat)
    requires i < |OperatorCodepoints()|
    ensures ReadsBack(OperatorCodepoints()[i])
  {
    var t := OperatorCodepoints();
    assert i == 0 ==> Key(t[0].1) == 11082;
    assert i == 1 ==> Key(t[1].1) == 20078;
    assert i == 2 ==> Key(t[2].1) == 15086;
    assert i == 3 ==> Key(t[3].1) == 19086;
    assert i == 4 ==> Key(t[4].1) == 14086;
  }

  lemma SingleReadBack(i: nat)
    requires i < 5
    ensures ReadsBack(OtherCodepoints()[i])
  {
    var t := OtherCodepoints();
    assert i == 0 ==> Key(t[0].1) == 15084;
    assert i == 1 ==> Key(t[1].1) == 11070;
    assert i == 2 ==> Key(t[2].1) == 25077;
    assert i == 3 ==> Key(t[3].1) == 18065;
    assert i == 4 ==> Key(t[4].1) == 25078;
  }

  lemma AnnotationReadBack(i: nat)
    requires 5 <= i < |OtherCodepoints()|
    ensures ReadsBack(OtherCodepoints()[i])
  {
    var t := OtherCodepoints();
    assert i == 5 ==> Key(t[5].1) == 29084;
    assert i == 6 ==> Key(t[6].1) == 32084;
    assert i == 7 ==> Key(t[7].1) == 33084;
    assert i == 8 ==> Key(t[8].1) == 12078;
  }

  lemma OtherReadBack(i: nat)
    requires i < |OtherCodepoints()|
    ensures ReadsBack(OtherCodepoints()[i])
  {
    if i < 5 { SingleReadBack(i); } else { AnnotationReadBack(i); }
  }

  lemma TableReadBack(i: nat)
    requires i < |NamedCodepoints()|
    ensures ReadsBack(NamedCodepoints()[i])
  {
    var a, b, c, d := ZeroWidthCodepoints(), DirectionCodepoints(), OperatorCodepoints(), OtherCodepoints();
    if i < |a| {
      ZeroWidthReadBack(i);
    } else if i < |a| + |b| {
      DirectionReadBack(i - |a|);
    } else if i < |a| + |b| + |c| {
      OperatorReadBack(i - |a| - |b|);
    } else {
      OtherReadBack(i - |a| - |b| - |c|);
    }
  }

  lemma {:induction false} NameInEntry(table: seq<(nat, string)>, n: nat) returns (i: nat)
    requires NameIn(table, n).Some?
    ensures i < |table| && table[i] == (n, NameIn(table, n).value)
  {
    if table[0].0 == n {
      i := 0;
    } else {
      i := NameInEntry(table[1..], n);
      i := i + 1;
    }
  }

  lemma ListedReadBack(n: nat)
    requires IsListed(n)
    ensures CodepointNamed(LabelText(Listed(n))) == n
  {
    ListedExactly(n);
    var i := NameInEntry(NamedCodepoints(), n);
    TableReadBack(i);
    PlainName(LabelText(Listed(n)));
  }

  lemma PlainName(name: string)
    requires |name| >= 3 && name[0] !in {'T', 'V'}
    ensures CodepointNamed(name) == KeyCodepoint(Key(name))
  {
  }

  lemma AfterPrefix(prefix: string, digits: string)
    ensures (prefix + digits)[|prefix|..] == digits
    ensures forall i :: 0 <= i < |prefix| ==> (prefix + digits)[i] == prefix[i]
  {
  }

  lemma TagReadBack(digits: string)
    ensures CodepointNamed("TAG CHARACTER U+" + digits) == HexValue(digits)
  {
    var prefix := "TAG CHARACTER U+";
    assert |prefix| == 16 && prefix[0] == 'T';
    AfterPrefix(prefix, digits);
  }

  lemma SelectorReadBack(digits: string)
    ensures CodepointNamed("VARIATION SELECTOR U+" + digits) == HexValue(digits)
  {
    var prefix := "VARIATION SELECTOR U+";
    assert |prefix| == 21 && prefix[0] == 'V' && prefix[19] == 'U';
    AfterPrefix(prefix, digits);
  }

  lemma SupplementReadBack(digits: string)
    ensures CodepointNamed("VARIATION SELECTOR SUPPLEMENT U+" + digits) == HexValue(digits)
  {
    var prefix := "VARIATION SELECTOR SUPPLEMENT U+";
    assert |prefix| == 32 && prefix[0] == 'V' && prefix[19] == 'S';
    AfterPrefix(prefix, digits);
  }

  /** The name printed for a suspicious character tells which one it is. */
  lemma {:induction false} NameReadBack(c: char)
    requires Suspicious(c)
    ensures CodepointNamed(LabelText(ClassifyChar(c).value)) == c as int
  {
    var n := c as int;
    HexReadBack(n, 4);
    match ClassifyChar(c).value
    case Listed(_) => ListedReadBack(n);
    case TagCharacter(_) => TagReadBack(Hex(n, 4));
    case VariationSelector(_) => SelectorReadBack(Hex(n, 4));
    case VariationSelectorSupplement(_) => SupplementReadBack(Hex(n, 4));
  }

  /** The invisible counterpart of an ASCII character. */
  function TagOf(ascii: nat): nat {
    0xE0000 + ascii
  }

  /** The k-th variation selector, counted from one: sixteen in the first block, the rest in the supplement. */
  function Selector(k: nat): nat
    requires k > 0
  {
    if k <= 16 then 0xFE00 + k - 1 else 0xE0100 + k - 17
  }

  /** The four kinds of suspicious code points, and how each is reported. */
  ghost predicate Reported(n: nat, name: string) {
    || NameIn(NamedCodepoints(), n) == Some(name)
    || (name == "TAG CHARACTER U+" + Hex(n, 4) && exists ascii: nat :: 0x20 <= ascii < 0x80 && n == TagOf(ascii))
    || (name == "VARIATION SELECTOR U+" + Hex(n, 4) && exists k: nat :: 1 <= k <= 16 && n == Selector(k))
    || (name == "VARIATION SELECTOR SUPPLEMENT U+" + Hex(n, 4) && exists k: nat :: 17 <= k <= 256 && n == Selector(k))
  }

  lemma TagsExactly(n: nat)
    ensures 0xE0020 <= n <= 0xE007F <==> exists ascii: nat :: 0x20 <= ascii < 0x80 && n == TagOf(ascii)
  {
    if 0xE0020 <= n <= 0xE007F { assert n == TagOf(n - 0xE0000); }
  }

  lemma SelectorsExactly(n: nat)
    ensures 0xFE00 <= n <= 0xFE0F <==> exists k: nat :: 1 <= k <= 16 && n == Selector(k)
    ensures 0xE0100 <= n <= 0xE01EF <==> exists k: nat :: 17 <= k <= 256 && n == Selector(k)
  {
    if 0xFE00 <= n <= 0xFE0F { assert n == Selector(n - 0xFE00 + 1); }
    if 0xE0100 <= n <= 0xE01EF { assert n == Selector(n - 0xE0100 + 17); }
  }

  /** Which characters are reported, and under which name. */
  lemma {:induction false} SuspiciousExactly(c: char, name: string)
    ensures Suspicious(c) && LabelText(ClassifyChar(c).value) == name <==> Reported(c as int, name)
  {
    var n := c as int;
    ListedExactly(n);
    TagsExactly(n);
    SelectorsExactly(n);
  }

  /** ASCII characters are never suspicious. */
  lemma {:induction false} AsciiIsPlain(c: char)
    requires c as int < 0x80
    ensures !Suspicious(c)
  {
  }

  // ----- hunk headers -----

  const USIZE_MAX: nat := 0xFFFF_FFFF_FFFF_FFFF

  /** parse::<usize> on text without a sign. */
  function ParseUsize(s: string): Option<nat> {
    if s != [] && AllDigits(s) && Value(s) <= USIZE_MAX then Some(Value(s)) else None
  }

  /** What precedes the first c, or everything. */
  function Before(s: string, c: char): string {
    if s == [] || s[0] == c then [] else [s[0]] + Before(s[1..], c)
  }

  /** What precedes the first "@@", or everything. */
  function BeforeAtAt(s: string): string {
    if s == [] || "@@" <= s then [] else [s[0]] + BeforeAtAt(s[1..])
  }

  function ParseNewLineStart(header: string): nat {
    var first := Before(header, '+');
    if |first| >= |header| then 1 else
    var rest := Before(header[|first| + 1..], '+');
    match ParseUsize(Before(Trim(BeforeAtAt(rest)), ','))
    case Some(n) => n
    case None => 1
  }

  // ----- the scan -----

  /** The loop's variables: current_file, line_in_new and findings. */
  datatype ScanState = ScanState(file: string, line: nat, findings: seq<Finding>)

  /** What the loop takes a line for, in the order of its tests. */
  datatype Kind = FileHeader | OldHeader | HunkHeader | Added | Removed | Other

  function KindOf(raw: string): Kind {
    if "+++ b/" <= raw then FileHeader
    else if "--- " <= raw then OldHeader
    else if "@@" <= raw then HunkHeader
    else if "+" <= raw && !("+++" <= raw) then Added
    else if "-" <= raw then Removed
    else Other
  }

  function ScanLine(s: ScanState, raw: string): ScanState {
    match KindOf(raw)
    case FileHeader => s.(file := raw[6..])
    case HunkHeader => s.(line := LinesBefore(raw))
    case Added => AfterAdded(s, raw[1..])
    case Other => s.(line := s.line + 1)
    case _ => s
  }

  /** The number of lines before the hunk: saturating_sub. */
  function LinesBefore(header: string): nat {
    var start := ParseNewLineStart(header);
    if start == 0 then 0 else start - 1
  }

  function AfterAdded(s: ScanState, t: string): ScanState {
    s.(line := s.line + 1, findings := s.findings + TextFindings(s.file, s.line + 1, t))
  }

  function ScanLines(s: ScanState, lines: seq<string>): ScanState
    decreases |lines|
  {
    if lines == [] then s else ScanLines(ScanLine(s, lines[0]), lines[1..])
  }

  const START := ScanState("<unknown>", 0, [])

  method ScanDiff(text: string) returns (findings: seq<Finding>)
    ensures findings == ScanLines(START, Lines(text)).findings
  {
    findings := [];
    var file, line := "<unknown>", 0;
    var lines := Lines(text);
    ScanBegun(lines);
    for i := 0 to |lines|
      invariant Scanned(lines, i, ScanState(file, line, findings))
    {
      ScanNext(lines, i, ScanState(file, line, findings));
      file, line, findings := ScanOne(file, line, findings, lines[i]);
    }
    ScanEnded(lines, ScanState(file, line, findings));
  }

  /** s is the scanner's state after the first i lines. */
  ghost predicate Scanned(lines: seq<string>, i: nat, s: ScanState) {
    i <= |lines| && ScanLines(START, lines) == ScanLines(s, lines[i..])
  }

  lemma ScanBegun(lines: seq<string>)
    ensures Scanned(lines, 0, START)
  {
    assert lines[0..] == lines;
  }

  lemma ScanNext(lines: seq<string>, i: nat, s: ScanState)
    requires i < |lines| && Scanned(lines, i, s)
    ensures Scanned(lines, i + 1, ScanLine(s, lines[i]))
  {
    assert lines[i..][1..] == lines[i + 1..];
  }

  lemma ScanEnded(lines: seq<string>, s: ScanState)
    requires Scanned(lines, |lines|, s)
    ensures ScanLines(START, lines) == s
  {
  }

  /** The body of the loop over the lines. */
  method ScanOne(file0: string, line0: nat, findings0: seq<Finding>, raw: string)
    returns (file: string, line: nat, findings: seq<Finding>)
    ensures ScanState(file, line, findings) == ScanLine(ScanState(file0, line0, findings0), raw)
  {
    file, line, findings := file0, line0, findings0;
    if "+++ b/" <= raw {
      file := raw[6..];
    } else if "--- " <= raw {
    } else if "@@" <= raw {
      var start := ParseNewLineStart(raw);
      line := if start == 0 then 0 else start - 1;
    } else if "+" <= raw && !("+++" <= raw) {
      line := line + 1;
      findings := ScanText(file, line, raw[1..], findings);
    } else if !("-" <= raw) {
      line := line + 1;
    }
  }

  /** The loop over one added line's characters. */
  method ScanText(file: string, line: nat, t: string, findings0: seq<Finding>) returns (findings: seq<Finding>)
    ensures findings == findings0 + TextFindings(file, line, t)
  {
    findings := findings0;
    for col := 0 to |t|
      invariant findings == findings0 + CharFindings(file, line, t, col)
    {
      NextColumn(findings0, file, line, t, col);
      var name := ClassifyChar(t[col]);
      if name.Some? {
        findings := findings + [Finding(file, line, col + 1, t[col] as int, name.value)];
      }
    }
  }

  lemma NextColumn(findings: seq<Finding>, file: string, line: nat, t: string, col: nat)
    requires col < |t|
    ensures findings + CharFindings(file, line, t, col + 1)
            == findings + CharFindings(file, line, t, col) + CharFinding(file, line, t, col + 1)
    ensures findings + CharFindings(file, line, t, col) + []
            == findings + CharFindings(file, line, t, col)
  {
  }

  // ----- changes, as edit scripts over whole files -----

  /** One line of an edit script; NoNewline is the marker that the line before it ends its file. */
  datatype Edit = Keep(text: string) | Delete(text: string) | Insert(text: string) | NoNewline

  /** A file's script in pieces: unchanged lines the diff does not show, and hunks. */
  datatype Segment = Unshown(lines: seq<string>) | Hunk(edits: seq<Edit>, section: string, omitOne: bool)

  /**
   * One file's part of a diff.  The headers are what the printer writes after "--- " and "+++ ": paths with
   * or without a prefix, quoted or not, with or without a tab and a timestamp after them.  No new path means
   * the file is deleted.  A change without text, such as a rename, has extended header lines only.
   */
  datatype FileDiff =
    | Textual(preamble: seq<string>, oldHeader: string, newHeader: string, newPath: Option<string>,
              segments: seq<Segment>)
    | Textless(preamble: seq<string>)

  /** The number of lines of the new file that an edit line is. */
  function NewSizeOf(e: Edit): nat {
    if e.Keep? || e.Insert? then 1 else 0
  }

  function NewCount(edits: seq<Edit>): nat {
    if edits == [] then 0 else NewSizeOf(edits[0]) + NewCount(edits[1..])
  }

  function OldCount(edits: seq<Edit>): nat {
    if edits == [] then 0 else (if edits[0].Keep? || edits[0].Delete? then 1 else 0) + OldCount(edits[1..])
  }

  // ----- rendering, by section "Diff -u or -U Output Format" of POSIX.1-2017 diff -----

  function RenderEdit(e: Edit): string {
    match e
    case Keep(t) => " " + t
    case Delete(t) => "-" + t
    case Insert(t) => "+" + t
    case NoNewline => "\\ No newline at end of file"
  }

  function RenderEdits(edits: seq<Edit>): seq<string> {
    if edits == [] then [] else [RenderEdit(edits[0])] + RenderEdits(edits[1..])
  }

  /** An empty range names the line before it. */
  function RangeStart(line: nat, count: nat): nat
    requires line > 0
  {
    if count == 0 then line - 1 else line
  }

  function RenderRange(start: nat, count: nat, omitOne: bool): string {
    if omitOne && count == 1 then ToString(start) else ToString(start) + "," + ToString(count)
  }

  function RenderHeader(
    oldLine: nat, oldCount: nat, newLine: nat, newCount: nat, section: string, omitOne: bool): string
    requires oldLine > 0 && newLine > 0
  {
    "@@ -" + RenderRange(RangeStart(oldLine, oldCount), oldCount, omitOne) + " +"
    + RenderRange(RangeStart(newLine, newCount), newCount, omitOne) + " @@" + section
  }

  function NewSize(segment: Segment): nat {
    match segment
    case Unshown(lines) => |lines|
    case Hunk(edits, _, _) => NewCount(edits)
  }

  function OldSize(segment: Segment): nat {
    match segment
    case Unshown(lines) => |lines|
    case Hunk(edits, _, _) => OldCount(edits)
  }

  /** One piece, starting at the given lines of the old and new file. */
  function RenderSegment(segment: Segment, oldLine: nat, newLine: nat): seq<string>
    requires oldLine > 0 && newLine > 0
  {
    match segment
    case Unshown(_) => []
    case Hunk(edits, section, omitOne) =>
      [RenderHeader(oldLine, OldCount(edits), newLine, NewCount(edits), section, omitOne)] + RenderEdits(edits)
  }

  function RenderSegments(segments: seq<Segment>, oldLine: nat, newLine: nat): seq<string>
    requires oldLine > 0 && newLine > 0
  {
    if segments == [] then [] else
    RenderSegment(segments[0], oldLine, newLine)
    + RenderSegments(segments[1..], oldLine + OldSize(segments[0]), newLine + NewSize(segments[0]))
  }

  function HeaderLines(f: FileDiff): seq<string>
    requires f.Textual?
  {
    ["--- " + f.oldHeader] + ["+++ " + f.newHeader]
  }

  function RenderFile(f: FileDiff): seq<string> {
    if f.Textual? then f.preamble + HeaderLines(f) + RenderSegments(f.segments, 1, 1) else f.preamble
  }

  function RenderDiff(fs: seq<FileDiff>): seq<string> {
    if fs == [] then [] else RenderFile(fs[0]) + RenderDiff(fs[1..])
  }

  // ----- what ought to be reported -----

  /** The suspicious characters of the inserted lines, at their places in the new file. */
  function EditFindings(file: string, edits: seq<Edit>, line: nat): seq<Finding> {
    if edits == [] then []
    else EditFinding(file, edits[0], line) + EditFindings(file, edits[1..], line + NewSizeOf(edits[0]))
  }

  function EditFinding(file: string, e: Edit, line: nat): seq<Finding> {
    if e.Insert? then TextFindings(file, line, e.text) else []
  }

  function FindingsOf(file: string, segment: Segment, line: nat): seq<Finding> {
    if segment.Hunk? then EditFindings(file, segment.edits, line) else []
  }

  function SegmentFindings(file: string, segments: seq<Segment>, line: nat): seq<Finding> {
    if segments == [] then [] else
    FindingsOf(file, segments[0], line) + SegmentFindings(file, segments[1..], line + NewSize(segments[0]))
  }

  function ExpectedIn(f: FileDiff): seq<Finding> {
    if f.Textual? && f.newPath.Some? then SegmentFindings(f.newPath.value, f.segments, 1) else []
  }

  function ExpectedFindings(fs: seq<FileDiff>): seq<Finding> {
    if fs == [] then [] else ExpectedIn(fs[0]) + ExpectedFindings(fs[1..])
  }

  // ----- the expected findings are those of the new file -----

  /** The new file's lines, each with whether the change inserts it. */
  function NewLines(edits: seq<Edit>): seq<(string, bool)> {
    if edits == [] then [] else NewLine(edits[0]) + NewLines(edits[1..])
  }

  function NewLine(e: Edit): seq<(string, bool)> {
    match e
    case Keep(t) => [(t, false)]
    case Insert(t) => [(t, true)]
    case _ => []
  }

  function KeptLines(lines: seq<string>): (r: seq<(string, bool)>)
    ensures |r| == |lines| && forall i :: 0 <= i < |r| ==> r[i] == (lines[i], false)
  {
    if lines == [] then [] else [(lines[0], false)] + KeptLines(lines[1..])
  }

  function NewLinesOf(segment: Segment): seq<(string, bool)> {
    match segment
    case Unshown(lines) => KeptLines(lines)
    case Hunk(edits, _, _) => NewLines(edits)
  }

  function NewFile(segments: seq<Segment>): seq<(string, bool)> {
    if segments == [] then [] else NewLinesOf(segments[0]) + NewFile(segments[1..])
  }

  /** f is a suspicious character of an inserted line, in the file whose lines from `line` on are given. */
  ghost predicate At(file: string, lines: seq<(string, bool)>, line: nat, f: Finding) {
    && f.file == file && line <= f.line < line + |lines|
    && var (t, inserted) := lines[f.line - line];
      inserted && 1 <= f.col <= |t| && ClassifyChar(t[f.col - 1]) == Some(f.name) && f.codepoint == t[f.col - 1] as int
  }

  predicate Precedes(f: Finding, g: Finding) {
    f.line < g.line || (f.line == g.line && f.col < g.col)
  }

  /** In reading order, hence each once. */
  ghost predicate InOrder(fs: seq<Finding>) {
    forall i, j :: 0 <= i < j < |fs| ==> Precedes(fs[i], fs[j])
  }

  /** fs lists exactly the findings in the given lines, in reading order. */
  ghost predicate Lists(fs: seq<Finding>, file: string, lines: seq<(string, bool)>, line: nat) {
    (forall f :: f in fs <==> At(file, lines, line, f)) && InOrder(fs)
  }

  /** f is a suspicious character among the first n of the text. */
  predicate Column(file: string, line: nat, t: string, n: nat, f: Finding) {
    && f.file == file && f.line == line && 1 <= f.col <= |t| && f.col <= n
    && ClassifyChar(t[f.col - 1]) == Some(f.name) && f.codepoint == t[f.col - 1] as int
  }

  ghost predicate ListsColumns(fs: seq<Finding>, file: string, line: nat, t: string, n: nat) {
    (forall f :: f in fs <==> Column(file, line, t, n, f)) && InOrder(fs)
  }

  lemma OneColumn(file: string, line: nat, t: string, n: nat, f: Finding)
    requires 0 < n <= |t|
    ensures f in CharFinding(file, line, t, n) <==> Column(file, line, t, n, f) && f.col == n
  {
  }

  lemma OrderedAppend(fs: seq<Finding>, gs: seq<Finding>)
    requires InOrder(fs) && InOrder(gs) && forall f, g :: f in fs && g in gs ==> Precedes(f, g)
    ensures InOrder(fs + gs)
  {
    forall i, j | 0 <= i < j < |fs + gs| ensures Precedes((fs + gs)[i], (fs + gs)[j]) {
      if i < |fs| <= j { assert fs[i] in fs && gs[j - |fs|] in gs; }
    }
  }

  lemma {:induction false} ColumnsListed(file: string, line: nat, t: string, n: nat)
    requires n <= |t|
    ensures ListsColumns(CharFindings(file, line, t, n), file, line, t, n)
  {
    if n > 0 {
      var fs, gs := CharFindings(file, line, t, n - 1), CharFinding(file, line, t, n);
      ColumnsListed(file, line, t, n - 1);
      forall f ensures f in fs + gs <==> Column(file, line, t, n, f) { OneColumn(file, line, t, n, f); }
      forall f, g | f in fs && g in gs ensures Precedes(f, g) {
        OneColumn(file, line, t, n, g);
        assert Column(file, line, t, n - 1, f);
      }
      OrderedAppend(fs, gs);
    }
  }

  lemma TextFindingsAt(file: string, line: nat, t: string)
    ensures Lists(TextFindings(file, line, t), file, [(t, true)], line)
  {
    ColumnsListed(file, line, t, |t|);
    forall f ensures At(file, [(t, true)], line, f) <==> Column(file, line, t, |t|, f) {
    }
  }

  lemma AtEither(file: string, a: seq<(string, bool)>, b: seq<(string, bool)>, line: nat, f: Finding)
    ensures At(file, a + b, line, f) <==> At(file, a, line, f) || At(file, b, line + |a|, f)
  {
  }

  /** Findings of a first stretch of lines followed by those of the rest, from line `next` on. */
  lemma JoinAt(
    file: string, a: seq<(string, bool)>, b: seq<(string, bool)>, both: seq<(string, bool)>, line: nat, next: nat,
    fs: seq<Finding>, gs: seq<Finding>, all: seq<Finding>)
    requires Lists(fs, file, a, line) && Lists(gs, file, b, next)
    requires both == a + b && next == line + |a| && all == fs + gs
    ensures Lists(all, file, both, line)
  {
    forall f ensures f in all <==> At(file, both, line, f) {
      AtEither(file, a, b, line, f);
    }
    forall f, g | f in fs && g in gs ensures Precedes(f, g) {
      assert At(file, a, line, f) && At(file, b, next, g);
    }
    OrderedAppend(fs, gs);
  }

  lemma NothingAt(file: string, line: nat)
    ensures Lists([], file, [], line)
  {
  }

  /** A kept line has no findings. */
  lemma KeptNothing(file: string, t: string, line: nat)
    ensures Lists([], file, [(t, false)], line)
  {
  }

  lemma {:induction false} NewLinesCounted(edits: seq<Edit>)
    ensures |NewLines(edits)| == NewCount(edits)
  {
    if edits != [] { NewLinesCounted(edits[1..]); }
  }

  lemma EditFindingAt(file: string, e: Edit, line: nat)
    ensures Lists(EditFinding(file, e, line), file, NewLine(e), line) && |NewLine(e)| == NewSizeOf(e)
  {
    match e
    case Insert(t) => TextFindingsAt(file, line, t);
    case Keep(t) => KeptNothing(file, t, line);
    case _ => NothingAt(file, line);
  }

  lemma {:induction false} EditFindingsAt(file: string, edits: seq<Edit>, line: nat)
    ensures Lists(EditFindings(file, edits, line), file, NewLines(edits), line)
  {
    if edits == [] {
      NothingAt(file, line);
    } else {
      var next := line + NewSizeOf(edits[0]);
      EditFindingAt(file, edits[0], line);
      EditFindingsAt(file, edits[1..], next);
      JoinAt(file, NewLine(edits[0]), NewLines(edits[1..]), NewLines(edits), line, next,
             EditFinding(file, edits[0], line), EditFindings(file, edits[1..], next), EditFindings(file, edits, line));
    }
  }

  lemma KeptNothings(file: string, lines: seq<string>, line: nat)
    ensures Lists([], file, KeptLines(lines), line)
  {
  }

  lemma FindingsOfAt(file: string, segment: Segment, line: nat)
    ensures Lists(FindingsOf(file, segment, line), file, NewLinesOf(segment), line)
    ensures |NewLinesOf(segment)| == NewSize(segment)
  {
    if segment.Hunk? {
      EditFindingsAt(file, segment.edits, line);
      NewLinesCounted(segment.edits);
    } else {
      KeptNothings(file, segment.lines, line);
    }
  }

  /**
   * What is expected of a file: one finding for every suspicious character of
   * every inserted line, with its line and column in the new file, in order.
   */
  lemma {:induction false} SegmentFindingsAt(file: string, segments: seq<Segment>, line: nat)
    ensures Lists(SegmentFindings(file, segments, line), file, NewFile(segments), line)
  {
    if segments != [] {
      var first, rest, next := segments[0], segments[1..], line + NewSize(segments[0]);
      FindingsOfAt(file, first, line);
      SegmentFindingsAt(file, rest, next);
      JoinAt(file, NewLinesOf(first), NewFile(rest), NewFile(segments), line, next,
             FindingsOf(file, first, line), SegmentFindings(file, rest, next), SegmentFindings(file, segments, line));
    } else {
      NothingAt(file, line);
    }
  }

  // ----- hunk headers are read back -----

  lemma {:induction false} BeforeIs(s: string, c: char, n: nat)
    requires n <= |s| && c !in s[..n] && (n < |s| ==> s[n] == c)
    ensures Before(s, c) == s[..n]
  {
    if n > 0 {
      assert s[..n][0] == s[0] && s[1..][..n - 1] == s[..n][1..];
      BeforeIs(s[1..], c, n - 1);
    }
  }

  lemma {:induction false} BeforeAtAtIs(p: string, rest: string)
    requires '@' !in p
    ensures BeforeAtAt(p + "@@" + rest) == p
  {
    var s := p + "@@" + rest;
    if p != [] {
      assert s[1..] == p[1..] + "@@" + rest;
      assert s[0] == p[0] != '@';
      BeforeAtAtIs(p[1..], rest);
    }
  }

  predicate RangeChars(s: string) {
    s != [] && forall i :: 0 <= i < |s| ==> IsDigit(s[i]) || s[i] == ','
  }

  lemma RangeText(start: nat, count: nat, omitOne: bool)
    ensures RangeChars(RenderRange(start, count, omitOne))
    ensures Before(RenderRange(start, count, omitOne), ',') == ToString(start)
  {
    var n := |ToString(start)|;
    var r := RenderRange(start, count, omitOne);
    assert r[..n] == ToString(start);
    BeforeIs(r, ',', n);
  }

  lemma TrimRange(r: string)
    requires RangeChars(r)
    ensures Trim(r + " ") == r
  {
    var s := r + " ";
    assert s[0] == r[0] && s[..|s| - 1] == r;
    assert TrimStart(s) == s;
    assert TrimEnd(s) == TrimEnd(r);
    assert r[|r| - 1] == s[|s| - 2];
  }

  lemma SplitAt(first: string, c: char, after: string)
    requires c !in first
    ensures Before(first + [c] + after, c) == first && (first + [c] + after)[|first| + 1..] == after
  {
    var h := first + [c] + after;
    assert h[..|first|] == first;
    BeforeIs(h, c, |first|);
  }

  /** The text after the plus sign, cut, trimmed and cut again, is the start of the new range. */
  lemma NewRangeRead(start: nat, count: nat, omitOne: bool, section: string)
    requires start <= USIZE_MAX
    ensures var after := RenderRange(start, count, omitOne) + " @@" + section;
      ParseUsize(Before(Trim(BeforeAtAt(Before(after, '+'))), ',')) == Some(start)
  {
    var r := RenderRange(start, count, omitOne);
    var tail := Before(section, '+');
    RangeText(start, count, omitOne);
    BeforeConcat(r + " @@", section, '+');
    assert r + " @@" + tail == (r + " ") + "@@" + tail;
    BeforeAtAtIs(r + " ", tail);
    TrimRange(r);
    ValueOfToString(start);
  }

  /** Whatever the section text, a rendered header gives back the start of the new range. */
  lemma {:induction false} HeaderParses(
    oldLine: nat, oldCount: nat, newLine: nat, newCount: nat, section: string, omitOne: bool)
    requires oldLine > 0 && newLine > 0 && RangeStart(newLine, newCount) <= USIZE_MAX
    ensures ParseNewLineStart(RenderHeader(oldLine, oldCount, newLine, newCount, section, omitOne)) ==
            RangeStart(newLine, newCount)
  {
    var start := RangeStart(newLine, newCount);
    var first := "@@ -" + RenderRange(RangeStart(oldLine, oldCount), oldCount, omitOne) + " ";
    var after := RenderRange(start, newCount, omitOne) + " @@" + section;
    RangeText(RangeStart(oldLine, oldCount), oldCount, omitOne);
    assert RenderHeader(oldLine, oldCount, newLine, newCount, section, omitOne) == first + ['+'] + after;
    SplitAt(first, '+', after);
    NewRangeRead(start, newCount, omitOne, section);
  }

  /** A header without a plus sign counts from line 1. */
  lemma {:induction false} HeaderWithoutPlus(header: string)
    requires '+' !in header
    ensures ParseNewLineStart(header) == 1
  {
    assert header + [] == header;
    BeforeConcat(header, [], '+');
  }

  /** The piece after the plus sign, trimmed, is the start if it is a numeral in range, and otherwise that is 1. */
  lemma {:induction false} HeaderStart(first: string, piece: string, section: string)
    requires '+' !in first && '+' !in piece && '@' !in piece && ',' !in piece
    ensures ParseNewLineStart(first + "+" + (piece + " @@" + section)) ==
            match ParseUsize(Trim(piece)) case Some(n) => n case None => 1
  {
    var after := piece + " @@" + section;
    SplitAt(first, '+', after);
    var tail := Before(section, '+');
    BeforeConcat(piece + " @@", section, '+');
    assert piece + " @@" + tail == (piece + " ") + "@@" + tail;
    BeforeAtAtIs(piece + " ", tail);
    TrimSpaceAfter(piece);
    NothingBefore(Trim(piece), ',');
  }

  lemma TrimSpaceAfter(piece: string)
    ensures Trim(piece + " ") == Trim(piece) && forall c :: c in Trim(piece) ==> c in piece
  {
    TrimExactly(piece, Trim(piece));
    var a, b :| TrimsTo(piece, a, Trim(piece), b);
    assert TrimsTo(piece + " ", a, Trim(piece), b + " ");
    TrimExactly(piece + " ", Trim(piece));
  }

  lemma NothingBefore(s: string, c: char)
    requires c !in s
    ensures Before(s, c) == s
  {
    assert s + [] == s;
    BeforeConcat(s, [], c);
  }

  lemma {:induction false} BeforeConcat(a: string, b: string, c: char)
    requires c !in a
    ensures Before(a + b, c) == a + Before(b, c)
  {
    if a == [] {
      assert a + b == b;
    } else {
      assert (a + b)[1..] == a[1..] + b;
      BeforeConcat(a[1..], b, c);
    }
  }
}
