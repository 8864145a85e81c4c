/**
 * Fenced code blocks in running text, and the loop that extracts them.
 *
 * A document is what the author meant: prose lines and fenced blocks in some order, the last
 * block possibly without a closing fence.
 */
module CodeBlocks {
  import opened Text

  datatype CodeBlock = CodeBlock(language: string, content: string)

  datatype Document =
    | End
    | Unclosed(opening: string, content: seq<string>)
    | Prose(line: string, rest: Document)
    | Fenced(opening: string, content: seq<string>, closing: string, rest: Document)

  predicate OpensFence(line: string) {
    "```" <= Trim(line)
  }

  predicate ClosesFence(line: string) {
    Trim(line) == "```"
  }

  function Language(opening: string): string
    requires OpensFence(opening)
  {
    Trim(Trim(opening)[3..])
  }

  /** Prose does not open a fence, opening lines do, and closing lines close one. */
  predicate WellFormed(doc: Document) {
    match doc
    case End => true
    case Unclosed(opening, _) => OpensFence(opening)
    case Prose(line, rest) => !OpensFence(line) && WellFormed(rest)
    case Fenced(opening, _, closing, rest) => OpensFence(opening) && ClosesFence(closing) && WellFormed(rest)
  }

  predicate NoneCloses(content: seq<string>) {
    forall i :: 0 <= i < |content| ==> !ClosesFence(content[i])
  }

  /** No block contains a line that reads as its closing fence. */
  predicate Clean(doc: Document) {
    match doc
    case End => true
    case Unclosed(_, content) => NoneCloses(content)
    case Prose(_, rest) => Clean(rest)
    case Fenced(_, content, _, rest) => NoneCloses(content) && Clean(rest)
  }

  function LinesOf(doc: Document): seq<string> {
    match doc
    case End => []
    case Unclosed(opening, content) => [opening] + content
    case Prose(line, rest) => [line] + LinesOf(rest)
    case Fenced(opening, content, closing, rest) => [opening] + (content + ([closing] + LinesOf(rest)))
  }

  /** The blocks the author meant. */
  function Blocks(doc: Document): seq<CodeBlock>
    requires WellFormed(doc)
  {
    match doc
    case End => []
    case Unclosed(opening, content) => [CodeBlock(Language(opening), JoinLines(content))]
    case Prose(_, rest) => Blocks(rest)
    case Fenced(opening, content, _, rest) => [CodeBlock(Language(opening), JoinLines(content))] + Blocks(rest)
  }

  // ---- what the extractor reads ----

  /** The number of lines before the first closing fence. */
  function ContentAhead(lines: seq<string>): (n: nat)
    ensures n <= |lines| && forall i :: 0 <= i < n ==> !ClosesFence(lines[i])
    ensures n < |lines| ==> ClosesFence(lines[n])
  {
    if lines == [] || ClosesFence(lines[0]) then 0 else 1 + ContentAhead(lines[1..])
  }

  function BlockAt(lines: seq<string>): CodeBlock
    requires lines != [] && OpensFence(lines[0])
  {
    CodeBlock(Language(lines[0]), JoinLines(lines[1..][..ContentAhead(lines[1..])]))
  }

  function AfterBlock(lines: seq<string>): (rest: seq<string>)
    requires lines != []
    ensures |rest| < |lines|
  {
    var n := ContentAhead(lines[1..]);
    if n < |lines| - 1 then lines[1..][n + 1..] else []
  }

  function BlocksIn(lines: seq<string>): seq<CodeBlock>
    decreases |lines|
  {
    if lines == [] then []
    else if OpensFence(lines[0]) then [BlockAt(lines)] + BlocksIn(AfterBlock(lines))
    else BlocksIn(lines[1..])
  }

  /** Where the block opened before position i ends. */
  function EndOfBlock(lines: seq<string>, i: nat): (next: nat)
    requires i <= |lines|
    ensures i <= next <= |lines|
  {
    var n := ContentAhead(lines[i..]);
    if i + n < |lines| then i + n + 1 else |lines|
  }

  function ContentFrom(lines: seq<string>, i: nat): seq<string>
    requires i <= |lines|
  {
    lines[i..i + ContentAhead(lines[i..])]
  }

  /** The blocks found before position i and those found from there on are the blocks. */
  ghost predicate Splits(lines: seq<string>, i: nat, blocks: seq<CodeBlock>) {
    i <= |lines| && BlocksIn(lines) == blocks + BlocksIn(lines[i..])
  }

  lemma NextLine(lines: seq<string>, i: nat, blocks: seq<CodeBlock>)
    requires i < |lines| && Splits(lines, i, blocks)
    ensures !OpensFence(lines[i]) ==> Splits(lines, i + 1, blocks)
    ensures OpensFence(lines[i]) ==>
              var block := CodeBlock(Language(lines[i]), JoinLines(ContentFrom(lines, i + 1)));
              Splits(lines, EndOfBlock(lines, i + 1), blocks + [block])
  {
    var here := lines[i..];
    assert here[1..] == lines[i + 1..];
    if OpensFence(lines[i]) {
      var n := ContentAhead(here[1..]);
      var next := EndOfBlock(lines, i + 1);
      assert here[1..][..n] == ContentFrom(lines, i + 1);
      assert AfterBlock(here) == lines[next..];
      var block := BlockAt(here);
      assert blocks + ([block] + BlocksIn(lines[next..])) == (blocks + [block]) + BlocksIn(lines[next..]);
    }
  }

  lemma ContentEnds(lines: seq<string>, start: nat, end: nat)
    requires start <= end <= |lines| && NoneCloses(lines[start..end]) && (end < |lines| ==> ClosesFence(lines[end]))
    ensures ContentFrom(lines, start) == lines[start..end]
    ensures EndOfBlock(lines, start) == if end < |lines| then end + 1 else |lines|
  {
    assert lines[start..] == lines[start..end] + lines[end..];
    ContentAheadIs(lines[start..end], lines[end..]);
  }

  /** Reads the content of a block from position `next`, and passes its closing fence if there is one. */
  method ReadContent(lines: seq<string>, start: nat) returns (content: seq<string>, next: nat)
    requires start <= |lines|
    ensures start <= next <= |lines|
    ensures content == ContentFrom(lines, start) && next == EndOfBlock(lines, start)
  {
    content := [];
    next := start;
    while next < |lines|
      invariant start <= next <= |lines|
      invariant content == lines[start..next] && NoneCloses(content)
    {
      var inner := lines[next];
      next := next + 1;
      if ClosesFence(inner) {
        ContentEnds(lines, start, next - 1);
        return;
      }
      content := content + [inner];
    }
    ContentEnds(lines, start, next);
  }

  method ExtractCodeBlocks(text: string) returns (blocks: seq<CodeBlock>)
    ensures blocks == BlocksIn(Lines(text))
    ensures MeantBy(Lines(text), blocks)
  {
    var lines := Lines(text);
    var next := 0;
    blocks := [];
    while next < |lines|
      invariant next <= |lines|
      invariant Splits(lines, next, blocks)
    {
      var line := lines[next];
      NextLine(lines, next, blocks);
      next := next + 1;
      if OpensFence(line) {
        var content;
        content, next := ReadContent(lines, next);
        blocks := blocks + [CodeBlock(Language(line), JoinLines(content))];
      }
    }
    ExtractsWhatIsMeant(lines);
  }

  // ---- extraction is exact ----

  lemma {:induction false} ContentAheadIs(content: seq<string>, after: seq<string>)
    requires NoneCloses(content) && (after == [] || ClosesFence(after[0]))
    ensures ContentAhead(content + after) == |content|
  {
    if content == [] {
      assert content + after == after;
    } else {
      assert (content + after)[0] == content[0] && (content + after)[1..] == content[1..] + after;
      ContentAheadIs(content[1..], after);
    }
  }

  /** A content line that closes the fence cuts the content short. */
  lemma {:induction false} ContentCut(content: seq<string>, after: seq<string>)
    requires !NoneCloses(content)
    ensures ContentAhead(content + after) < |content|
    ensures ClosesFence(content[ContentAhead(content + after)])
  {
    assert (content + after)[0] == content[0];
    if !ClosesFence(content[0]) {
      assert (content + after)[1..] == content[1..] + after;
      ContentCut(content[1..], after);
    }
  }

  lemma {:induction false} JoinLonger(lines: seq<string>, k: nat)
    requires k < |lines| && lines[k] != []
    ensures |JoinLines(lines[..k])| < |JoinLines(lines)|
  {
    if k > 0 {
      assert lines[..k][1..] == lines[1..][..k - 1];
      JoinLonger(lines[1..], k - 1);
    }
  }

  lemma ClosingNotEmpty(line: string)
    requires ClosesFence(line)
    ensures line != []
  {
  }

  lemma {:induction false} FirstBlock(opening: string, content: seq<string>, after: seq<string>)
    requires OpensFence(opening) && (after == [] || ClosesFence(after[0]))
    ensures BlocksIn([opening] + (content + after)) != []
    ensures NoneCloses(content) ==>
              BlocksIn([opening] + (content + after))
              == [CodeBlock(Language(opening), JoinLines(content))] + BlocksIn(if after == [] then [] else after[1..])
    ensures !NoneCloses(content) ==> BlocksIn([opening] + (content + after))[0].content != JoinLines(content)
  {
    var lines := [opening] + (content + after);
    assert lines[1..] == content + after;
    if NoneCloses(content) {
      ContentAheadIs(content, after);
      assert (content + after)[..|content|] == content;
      assert AfterBlock(lines) == if after == [] then [] else after[1..];
    } else {
      ContentCut(content, after);
      var n := ContentAhead(content + after);
      assert (content + after)[..n] == content[..n];
      ClosingNotEmpty(content[n]);
      JoinLonger(content, n);
    }
  }

  /** The extractor returns the blocks the author meant exactly when none contains its own closing fence. */
  lemma {:induction false} ExtractExactly(doc: Document)
    requires WellFormed(doc)
    ensures BlocksIn(LinesOf(doc)) == Blocks(doc) <==> Clean(doc)
  {
    match doc
    case End =>
    case Unclosed(opening, content) =>
      assert content + [] == content;
      FirstBlock(opening, content, []);
    case Prose(line, rest) =>
      assert LinesOf(doc)[1..] == LinesOf(rest);
      ExtractExactly(rest);
    case Fenced(opening, content, closing, rest) =>
      FirstBlock(opening, content, [closing] + LinesOf(rest));
      ExtractExactly(rest);
      var block := CodeBlock(Language(opening), JoinLines(content));
      assert ([closing] + LinesOf(rest))[1..] == LinesOf(rest);
      assert Blocks(doc)[0] == block && Blocks(doc)[1..] == Blocks(rest);
      assert ([block] + BlocksIn(LinesOf(rest)))[1..] == BlocksIn(LinesOf(rest));
  }

  /** Whatever clean document has these lines, its blocks are these. */
  ghost predicate MeantBy(lines: seq<string>, blocks: seq<CodeBlock>) {
    forall doc :: WellFormed(doc) && Clean(doc) && LinesOf(doc) == lines ==> blocks == Blocks(doc)
  }

  lemma ExtractsWhatIsMeant(lines: seq<string>)
    ensures MeantBy(lines, BlocksIn(lines))
  {
    forall doc | WellFormed(doc) && Clean(doc) && LinesOf(doc) == lines ensures BlocksIn(lines) == Blocks(doc) {
      ExtractExactly(doc);
    }
  }

  // ---- every text is a document in one way ----

  /** The document that a list of lines is. */
  function Read(lines: seq<string>): (doc: Document)
    decreases |lines|
  {
    if lines == [] then End
    else if !OpensFence(lines[0]) then Prose(lines[0], Read(lines[1..]))
    else
      var inner := lines[1..];
      var n := ContentAhead(inner);
      if n == |inner| then Unclosed(lines[0], inner)
      else Fenced(lines[0], inner[..n], inner[n], Read(inner[n + 1..]))
  }

  predicate Reads(doc: Document, lines: seq<string>) {
    WellFormed(doc) && Clean(doc) && LinesOf(doc) == lines
  }

  lemma FencedReads(opening: string, content: seq<string>, closing: string, rest: Document, after: seq<string>)
    requires OpensFence(opening) && NoneCloses(content) && ClosesFence(closing) && Reads(rest, after)
    ensures Reads(Fenced(opening, content, closing, rest), [opening] + (content + ([closing] + after)))
  {
  }

  lemma SplitAround(opening: string, inner: seq<string>, n: nat)
    requires n < |inner|
    ensures [opening] + inner == [opening] + (inner[..n] + ([inner[n]] + inner[n + 1..]))
  {
    assert inner == inner[..n] + ([inner[n]] + inner[n + 1..]);
  }

  lemma BlockReads(opening: string, inner: seq<string>, n: nat, rest: Document)
    requires OpensFence(opening) && n < |inner| && NoneCloses(inner[..n]) && ClosesFence(inner[n])
    requires Reads(rest, inner[n + 1..])
    ensures Reads(Fenced(opening, inner[..n], inner[n], rest), [opening] + inner)
  {
    SplitAround(opening, inner, n);
    FencedReads(opening, inner[..n], inner[n], rest, inner[n + 1..]);
  }

  lemma UnclosedReads(opening: string, content: seq<string>)
    requires OpensFence(opening) && NoneCloses(content)
    ensures Reads(Unclosed(opening, content), [opening] + content)
  {
  }

  lemma ProseReads(line: string, rest: Document, after: seq<string>)
    requires !OpensFence(line) && Reads(rest, after)
    ensures Reads(Prose(line, rest), [line] + after)
  {
  }

  lemma ReadAtFence(lines: seq<string>)
    requires lines != [] && OpensFence(lines[0])
    ensures var inner := lines[1..]; var n := ContentAhead(inner);
      Read(lines) == if n < |inner| then Fenced(lines[0], inner[..n], inner[n], Read(inner[n + 1..]))
                     else Unclosed(lines[0], inner)
  {
  }

  /** Every list of lines is a well-formed document none of whose blocks contains its closing fence. */
  lemma {:induction false} ReadIsDocument(lines: seq<string>)
    ensures Reads(Read(lines), lines)
    decreases |lines|, 1
  {
    if lines != [] {
      var line, inner := lines[0], lines[1..];
      assert lines == [line] + inner;
      if OpensFence(line) {
        ReadBlockIsDocument(lines, ContentAhead(inner));
      } else {
        ReadIsDocument(inner);
        ProseReads(line, Read(inner), inner);
      }
    }
  }

  lemma {:induction false} ReadBlockIsDocument(lines: seq<string>, n: nat)
    requires lines != [] && OpensFence(lines[0]) && n == ContentAhead(lines[1..])
    ensures Reads(Read(lines), lines)
    decreases |lines|, 0
  {
    var line, inner := lines[0], lines[1..];
    assert lines == [line] + inner;
    ReadAtFence(lines);
    if n < |inner| {
      ReadIsDocument(inner[n + 1..]);
      BlockReads(line, inner, n, Read(inner[n + 1..]));
    } else {
      assert inner == inner[..n];
      UnclosedReads(line, inner);
    }
  }

  /** Reading the lines of a clean document gives it back, so no two clean documents share their lines. */
  lemma {:induction false} ReadBack(doc: Document)
    requires WellFormed(doc) && Clean(doc)
    ensures Read(LinesOf(doc)) == doc
  {
    match doc
    case End =>
    case Unclosed(opening, content) =>
      ContentAheadIs(content, []);
      assert LinesOf(doc)[1..] == content + [] == content;
    case Prose(line, rest) =>
      assert LinesOf(doc)[1..] == LinesOf(rest);
      ReadBack(rest);
    case Fenced(opening, content, closing, rest) =>
      ReadFenced(opening, content, closing, LinesOf(rest));
      ReadBack(rest);
  }

  lemma ReadFenced(opening: string, content: seq<string>, closing: string, rest: seq<string>)
    requires OpensFence(opening) && NoneCloses(content) && ClosesFence(closing)
    ensures Read([opening] + (content + ([closing] + rest))) == Fenced(opening, content, closing, Read(rest))
  {
    var after := [closing] + rest;
    var inner := content + after;
    ContentAheadIs(content, after);
    assert ([opening] + inner)[1..] == inner;
    assert inner[..|content|] == content && inner[|content|] == closing && inner[|content| + 1..] == rest;
  }

  // ---- printing blocks ----

  lemma {:induction false} TrimEndAfter(word: string, s: string)
    requires word != [] && !IsWhitespace(word[|word| - 1])
    ensures TrimEnd(word + s) == word + TrimEnd(s)
  {
    if s == [] {
      assert word + s == word;
    } else if IsWhitespace(s[|s| - 1]) {
      assert (word + s)[..|word + s| - 1] == word + s[..|s| - 1];
      TrimEndAfter(word, s[..|s| - 1]);
    }
  }

  lemma {:induction false} TrimEndTwice(s: string)
    ensures Trim(TrimEnd(s)) == Trim(s)
    decreases |s|
  {
    if s != [] && IsWhitespace(s[|s| - 1]) {
      var t := s[..|s| - 1];
      TrimEndTwice(t);
      TrimDropsLast(t, s[|s| - 1]);
      assert s == t + [s[|s| - 1]];
    }
  }

  /** Trimming ignores a whitespace character added at the end. */
  lemma {:induction false} TrimDropsLast(t: string, c: char)
    requires IsWhitespace(c)
    ensures Trim(t + [c]) == Trim(t)
  {
    if t == [] {
      assert (t + [c])[1..] == [];
    } else if IsWhitespace(t[0]) {
      assert (t + [c])[1..] == t[1..] + [c];
      TrimDropsLast(t[1..], c);
    } else {
      assert (t + [c])[..|t|] == t;
    }
  }

  /** A line of three backticks and a language opens a block in that language, trimmed. */
  lemma {:induction false} OpeningLine(language: string)
    ensures OpensFence("```" + language)
    ensures Language("```" + language) == Trim(language)
  {
    TrimEndAfter("```", language);
    TrimEndTwice(language);
    assert Trim("```" + language) == "```" + TrimEnd(language);
  }

  /** Three backticks behind any indentation, and what follows them. */
  predicate FenceLine(line: string, indent: string, rest: string) {
    AllWhitespace(indent) && line == indent + "```" + rest
  }

  lemma {:induction false} TrimStartSkips(indent: string, s: string)
    requires AllWhitespace(indent) && (s != [] ==> !IsWhitespace(s[0]))
    ensures TrimStart(indent + s) == s
  {
    if indent == [] {
      assert indent + s == s;
    } else {
      assert (indent + s)[1..] == indent[1..] + s;
      TrimStartSkips(indent[1..], s);
    }
  }

  lemma TrimsFence(line: string, indent: string, rest: string)
    requires FenceLine(line, indent, rest)
    ensures Trim(line) == "```" + TrimEnd(rest)
  {
    assert line == indent + ("```" + rest);
    TrimStartSkips(indent, "```" + rest);
    TrimEndAfter("```", rest);
  }

  /** Indentation and what surrounds the language are not part of it. */
  lemma {:induction false} FenceLanguage(line: string, indent: string, rest: string)
    requires FenceLine(line, indent, rest)
    ensures OpensFence(line) && Language(line) == Trim(rest)
  {
    TrimsFence(line, indent, rest);
    TrimEndTwice(rest);
  }

  /** A line opens a block exactly when its first three characters after the indentation are backticks. */
  lemma {:induction false} OpensExactly(line: string)
    ensures OpensFence(line) <==> exists indent, rest :: FenceLine(line, indent, rest)
  {
    if OpensFence(line) {
      TrimExactly(line, Trim(line));
      var a, b :| TrimsTo(line, a, Trim(line), b);
      assert line == a + "```" + (Trim(line)[3..] + b);
      assert FenceLine(line, a, Trim(line)[3..] + b);
    }
    if indent, rest :| FenceLine(line, indent, rest) { FenceLanguage(line, indent, rest); }
  }

  /** A line closes a block exactly when it is three backticks with nothing but whitespace around them. */
  lemma {:induction false} ClosesExactly(line: string)
    ensures ClosesFence(line) <==> exists indent, rest :: FenceLine(line, indent, rest) && AllWhitespace(rest)
  {
    TrimExactly(line, "```");
    if ClosesFence(line) {
      var a, b :| TrimsTo(line, a, "```", b);
      assert FenceLine(line, a, b);
    }
    if indent, rest :| FenceLine(line, indent, rest) && AllWhitespace(rest) {
      assert TrimsTo(line, indent, "```", rest);
    }
  }

  datatype Part = Text(lines: seq<string>) | Code(language: string, lines: seq<string>)

  /** A text written part by part, each code part between fences. */
  function Compose(parts: seq<Part>): seq<string> {
    if parts == [] then []
    else match parts[0]
      case Text(lines) => lines + Compose(parts[1..])
      case Code(language, lines) => ["```" + language] + (lines + (["```"] + Compose(parts[1..])))
  }

  function CodeParts(parts: seq<Part>): seq<CodeBlock> {
    if parts == [] then []
    else match parts[0]
      case Text(_) => CodeParts(parts[1..])
      case Code(language, lines) => [CodeBlock(Trim(language), JoinLines(lines))] + CodeParts(parts[1..])
  }

  predicate NoneOpens(lines: seq<string>) {
    forall i :: 0 <= i < |lines| ==> !OpensFence(lines[i])
  }

  /** Neither prose opens a fence nor code closes one. */
  predicate PartOk(part: Part) {
    match part
    case Text(lines) => NoneOpens(lines)
    case Code(_, lines) => NoneCloses(lines)
  }

  /** Lines as str::lines delivers them. */
  predicate OneLine(line: string) {
    '\n' !in line && (line == [] || line[|line| - 1] != '\r')
  }

  lemma {:induction false} ProseSkipped(lines: seq<string>, rest: seq<string>)
    requires NoneOpens(lines)
    ensures BlocksIn(lines + rest) == BlocksIn(rest)
  {
    if lines == [] {
      assert lines + rest == rest;
    } else {
      assert (lines + rest)[0] == lines[0] && (lines + rest)[1..] == lines[1..] + rest;
      ProseSkipped(lines[1..], rest);
    }
  }

  lemma {:induction false} ComposedLines(parts: seq<Part>)
    requires forall i :: 0 <= i < |parts| ==> PartOk(parts[i])
    ensures BlocksIn(Compose(parts)) == CodeParts(parts)
  {
    if parts != [] {
      ComposedLines(parts[1..]);
      match parts[0]
      case Text(lines) =>
        ProseSkipped(lines, Compose(parts[1..]));
      case Code(language, lines) =>
        OpeningLine(language);
        FirstBlock("```" + language, lines, ["```"] + Compose(parts[1..]));
        assert (["```"] + Compose(parts[1..]))[1..] == Compose(parts[1..]);
    }
  }

  lemma LinesReadBack(lines: seq<string>)
    requires forall i :: 0 <= i < |lines| ==> OneLine(lines[i])
    ensures Lines(Unlines(lines)) == lines
  {
    LinesOfUnlines(lines);
    assert MapStripCr(lines) == lines;
  }

  /** Writing prose and code in turn and extracting gives the code, in order and whole. */
  lemma {:induction false} RoundTrip(parts: seq<Part>)
    requires forall i :: 0 <= i < |parts| ==> PartOk(parts[i])
    requires forall i :: 0 <= i < |Compose(parts)| ==> OneLine(Compose(parts)[i])
    ensures BlocksIn(Lines(Unlines(Compose(parts)))) == CodeParts(parts)
  {
    LinesReadBack(Compose(parts));
    ComposedLines(parts);
  }
}
