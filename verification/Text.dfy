/** The string operations of Rust's standard library that the models use. */
module Text {

  /** char::is_whitespace: the Unicode White_Space property. */
  predicate IsWhitespace(c: char) {
    var n := c as int;
    0x09 <= n <= 0x0D || n == 0x20 || n == 0x85 || n == 0xA0 || n == 0x1680 || 0x2000 <= n <= 0x200A ||
    n == 0x2028 || n == 0x2029 || n == 0x202F || n == 0x205F || n == 0x3000
  }

  predicate NoWhitespace(s: string) {
    forall i :: 0 <= i < |s| ==> !IsWhitespace(s[i])
  }

  function TrimStart(s: string): string {
    if s != [] && IsWhitespace(s[0]) then TrimStart(s[1..]) else s
  }

  function TrimEnd(s: string): string {
    if s != [] && IsWhitespace(s[|s| - 1]) then TrimEnd(s[..|s| - 1]) else s
  }

  function Trim(s: string): string {
    TrimEnd(TrimStart(s))
  }

  lemma TrimOfWord(s: string)
    requires NoWhitespace(s)
    ensures Trim(s) == s
  {
  }

  predicate AllWhitespace(s: string) {
    forall i :: 0 <= i < |s| ==> IsWhitespace(s[i])
  }

  /** t is s without a and b, whitespace on the left and right of it, and neither begins nor ends with more. */
  predicate TrimsTo(s: string, a: string, t: string, b: string) {
    && s == a + t + b && AllWhitespace(a) && AllWhitespace(b)
    && (t != [] ==> !IsWhitespace(t[0]) && !IsWhitespace(t[|t| - 1]))
  }

  lemma {:induction false} TrimStartSplits(s: string) returns (a: string)
    ensures s == a + TrimStart(s) && AllWhitespace(a) && (TrimStart(s) != [] ==> !IsWhitespace(TrimStart(s)[0]))
  {
    if s != [] && IsWhitespace(s[0]) {
      a := TrimStartSplits(s[1..]);
      a := [s[0]] + a;
      assert s == [s[0]] + s[1..];
    } else {
      a := [];
    }
  }

  lemma {:induction false} TrimEndSplits(s: string) returns (b: string)
    ensures s == TrimEnd(s) + b && AllWhitespace(b)
    ensures TrimEnd(s) != [] ==> TrimEnd(s)[0] == s[0] && !IsWhitespace(TrimEnd(s)[|TrimEnd(s)| - 1])
  {
    if s != [] && IsWhitespace(s[|s| - 1]) {
      var init, last := s[..|s| - 1], s[|s| - 1];
      var c := TrimEndSplits(init);
      b := c + [last];
      assert s == init + [last] == TrimEnd(init) + (c + [last]);
    } else {
      b := [];
    }
  }

  lemma OutsideIsSpace(s: string, a: string, t: string, b: string, k: nat)
    requires TrimsTo(s, a, t, b)
    ensures k < |a| || |a| + |t| <= k < |s| ==> IsWhitespace(s[k])
  {
    if k < |a| {
      assert s[k] == a[k];
    } else if |a| + |t| <= k < |s| {
      assert s[k] == b[k - |a| - |t|];
    }
  }

  /** What one trimming keeps, any trimming keeps. */
  lemma TrimKeeps(s: string, a: string, t: string, b: string, a': string, t': string, b': string)
    requires TrimsTo(s, a, t, b) && TrimsTo(s, a', t', b') && t != []
    ensures |a'| <= |a| && |a| + |t| <= |a'| + |t'|
  {
    assert s[|a|] == t[0] && s[|a| + |t| - 1] == t[|t| - 1];
    OutsideIsSpace(s, a', t', b', |a|);
    OutsideIsSpace(s, a', t', b', |a| + |t| - 1);
  }

  /** Only one text is left when the whitespace around is taken away. */
  lemma TrimUnique(s: string, a: string, t: string, b: string, a': string, t': string, b': string)
    requires TrimsTo(s, a, t, b) && TrimsTo(s, a', t', b')
    ensures t == t'
  {
    if t != [] {
      TrimKeeps(s, a, t, b, a', t', b');
      TrimKeeps(s, a', t', b', a, t, b);
      assert t == s[|a|..|a| + |t|] && t' == s[|a|..|a| + |t|];
    } else if t' != [] {
      TrimKeeps(s, a', t', b', a, t, b);
    }
  }

  /** str::trim takes away exactly the whitespace at both ends. */
  lemma {:induction false} TrimExactly(s: string, t: string)
    ensures Trim(s) == t <==> exists a, b :: TrimsTo(s, a, t, b)
  {
    var a := TrimStartSplits(s);
    var b := TrimEndSplits(TrimStart(s));
    assert TrimsTo(s, a, Trim(s), b);
    if a', b' :| TrimsTo(s, a', t, b') { TrimUnique(s, a, Trim(s), b, a', t, b'); }
  }

  predicate Contains(s: string, sub: string) {
    exists i {:trigger s[i..]} :: 0 <= i <= |s| - |sub| && s[i..][..|sub|] == sub
  }

  /** sub, with something before it and something after it, is s. */
  ghost predicate Occurs(sub: string, s: string) {
    exists a, b :: s == a + sub + b
  }

  lemma ContainsExactly(s: string, sub: string)
    ensures Contains(s, sub) <==> Occurs(sub, s)
  {
    if Contains(s, sub) {
      var i :| 0 <= i <= |s| - |sub| && s[i..][..|sub|] == sub;
      assert s == s[..i] + sub + s[i..][|sub|..];
    }
    if a, b :| s == a + sub + b {
      assert s[|a|..][..|sub|] == sub;
    }
  }

  /** The length of the longest prefix without whitespace. */
  function WordAhead(s: string): (n: nat)
    ensures n <= |s| && (forall i :: 0 <= i < n ==> !IsWhitespace(s[i])) && (n < |s| ==> IsWhitespace(s[n]))
    ensures s != [] && !IsWhitespace(s[0]) ==> n > 0
  {
    if s == [] || IsWhitespace(s[0]) then 0 else 1 + WordAhead(s[1..])
  }

  /** str::split_whitespace */
  function SplitWhitespace(s: string): (words: seq<string>)
    ensures forall w :: w in words ==> w != [] && NoWhitespace(w)
  {
    if s == [] then []
    else if IsWhitespace(s[0]) then SplitWhitespace(s[1..])
    else [s[..WordAhead(s)]] + SplitWhitespace(s[WordAhead(s)..])
  }

  /** Words with whitespace in front of each, some of it between any two, and perhaps some behind. */
  predicate Spaced(gaps: seq<string>, words: seq<string>) {
    && |gaps| == |words|
    && (forall k :: 0 <= k < |words| ==> words[k] != [] && NoWhitespace(words[k]))
    && (forall k :: 0 <= k < |gaps| ==> AllWhitespace(gaps[k]) && (k > 0 ==> gaps[k] != []))
  }

  function WithGaps(gaps: seq<string>, words: seq<string>, tail: string): string
    requires |gaps| == |words|
  {
    if words == [] then tail else gaps[0] + words[0] + WithGaps(gaps[1..], words[1..], tail)
  }

  ghost predicate WordsOf(s: string, gaps: seq<string>, words: seq<string>, tail: string) {
    Spaced(gaps, words) && AllWhitespace(tail) && WithGaps(gaps, words, tail) == s
  }

  lemma {:induction false} SplitSkips(gap: string, s: string)
    requires AllWhitespace(gap)
    ensures SplitWhitespace(gap + s) == SplitWhitespace(s)
  {
    if gap == [] {
      assert gap + s == s;
    } else {
      assert (gap + s)[1..] == gap[1..] + s;
      SplitSkips(gap[1..], s);
    }
  }

  lemma {:induction false} SplitReadsWord(word: string, rest: string)
    requires word != [] && NoWhitespace(word) && (rest != [] ==> IsWhitespace(rest[0]))
    ensures SplitWhitespace(word + rest) == [word] + SplitWhitespace(rest)
  {
    var s := word + rest;
    WordAheadIs(s, |word|);
    assert s[..|word|] == word && s[|word|..] == rest;
  }

  lemma WordAheadIs(s: string, n: nat)
    requires n <= |s| && (forall i :: 0 <= i < n ==> !IsWhitespace(s[i])) && (n < |s| ==> IsWhitespace(s[n]))
    ensures WordAhead(s) == n
  {
  }

  lemma WordsAhead(gaps: seq<string>, words: seq<string>, tail: string)
    requires words != [] && Spaced(gaps, words) && AllWhitespace(tail)
    ensures Spaced(gaps[1..], words[1..])
    ensures var rest := WithGaps(gaps[1..], words[1..], tail); rest != [] ==> IsWhitespace(rest[0])
  {
    if |words| > 1 { assert gaps[1..][0] == gaps[1]; }
  }

  lemma {:induction false} SplitReads(gaps: seq<string>, words: seq<string>, tail: string)
    requires Spaced(gaps, words) && AllWhitespace(tail)
    ensures SplitWhitespace(WithGaps(gaps, words, tail)) == words
  {
    if words == [] {
      SplitSkips(tail, []);
      assert tail + [] == tail;
    } else {
      var rest := WithGaps(gaps[1..], words[1..], tail);
      WordsAhead(gaps, words, tail);
      assert gaps[0] + words[0] + rest == gaps[0] + (words[0] + rest);
      SplitSkips(gaps[0], words[0] + rest);
      SplitReadsWord(words[0], rest);
      SplitReads(gaps[1..], words[1..], tail);
    }
  }

  lemma {:induction false} SpaceAhead(c: char, gaps: seq<string>, words: seq<string>, tail: string, s: string)
    returns (gaps': seq<string>, tail': string)
    requires IsWhitespace(c) && WordsOf(s, gaps, words, tail)
    ensures WordsOf([c] + s, gaps', words, tail')
    ensures words != [] ==> gaps' != [] && gaps'[0] != []
  {
    if words == [] {
      gaps', tail' := [], [c] + tail;
    } else {
      gaps', tail' := [[c] + gaps[0]] + gaps[1..], tail;
      assert gaps'[1..] == gaps[1..];
      assert [c] + (gaps[0] + words[0] + WithGaps(gaps[1..], words[1..], tail)) ==
             gaps'[0] + words[0] + WithGaps(gaps[1..], words[1..], tail);
    }
  }

  lemma WordInFront(word: string, gaps: seq<string>, words: seq<string>, tail: string, s: string)
    requires word != [] && NoWhitespace(word) && WordsOf(s, gaps, words, tail)
    requires words != [] ==> gaps[0] != []
    ensures WordsOf(word + s, [[]] + gaps, [word] + words, tail)
  {
    var gs, ws := [[]] + gaps, [word] + words;
    assert gs[1..] == gaps && ws[1..] == words && gs[0] + ws[0] + s == word + s;
  }

  lemma NotNothing(gaps: seq<string>, words: seq<string>, tail: string)
    requires Spaced(gaps, words)
    ensures words != [] ==> WithGaps(gaps, words, tail) != []
  {
    if words != [] { assert |words[0]| > 0; }
  }

  lemma {:induction false} FirstWord(s: string, gaps: seq<string>, words: seq<string>, tail: string, n: nat)
    requires s != [] && !IsWhitespace(s[0]) && n == WordAhead(s) && WordsOf(s[n..], gaps, words, tail)
    requires n < |s| && gaps != [] ==> gaps[0] != []
    ensures WordsOf(s, [[]] + gaps, [s[..n]] + words, tail)
  {
    NotNothing(gaps, words, tail);
    assert s[..n] + s[n..] == s;
    WordInFront(s[..n], gaps, words, tail, s[n..]);
  }

  lemma {:induction false} SplitComesFrom(s: string) returns (gaps: seq<string>, tail: string)
    ensures WordsOf(s, gaps, SplitWhitespace(s), tail)
    ensures s != [] && IsWhitespace(s[0]) && gaps != [] ==> gaps[0] != []
    decreases |s|
  {
    if s == [] {
      gaps, tail := [], [];
    } else if IsWhitespace(s[0]) {
      gaps, tail := SplitComesFrom(s[1..]);
      gaps, tail := SpaceAhead(s[0], gaps, SplitWhitespace(s), tail, s[1..]);
      assert [s[0]] + s[1..] == s;
    } else {
      var n := WordAhead(s);
      gaps, tail := SplitComesFrom(s[n..]);
      FirstWord(s, gaps, SplitWhitespace(s[n..]), tail, n);
      gaps := [[]] + gaps;
    }
  }

  /**
   * A text has exactly the words of which it is made up: whitespace, word, whitespace, word and so on to a last
   * whitespace, with some between any two words.
   */
  lemma {:induction false} SplitExactly(s: string, words: seq<string>)
    ensures SplitWhitespace(s) == words <==> exists gaps, tail :: WordsOf(s, gaps, words, tail)
  {
    if SplitWhitespace(s) == words {
      var gaps, tail := SplitComesFrom(s);
    }
    if gaps, tail :| WordsOf(s, gaps, words, tail) { SplitReads(gaps, words, tail); }
  }

  /** A line ending in a carriage return loses it when a line feed follows. */
  function StripCr(line: string): string {
    if |line| > 0 && line[|line| - 1] == '\r' then line[..|line| - 1] else line
  }

  /** The length of the longest prefix without a line feed. */
  function LineAhead(s: string): (n: nat)
    ensures n <= |s| && (forall i :: 0 <= i < n ==> s[i] != '\n') && (n < |s| ==> s[n] == '\n')
  {
    if s == [] || s[0] == '\n' then 0 else 1 + LineAhead(s[1..])
  }

  /** str::lines: split at line feeds, a final unterminated line counting if it is not empty. */
  function Lines(s: string): seq<string> {
    var n := LineAhead(s);
    if s == [] then []
    else if n == |s| then [s]
    else [StripCr(s[..n])] + Lines(s[n + 1..])
  }

  /** Each line followed by a line feed. */
  function Unlines(lines: seq<string>): string {
    if lines == [] then [] else lines[0] + ['\n'] + Unlines(lines[1..])
  }

  function MapStripCr(lines: seq<string>): (r: seq<string>)
    ensures |r| == |lines| && forall i :: 0 <= i < |r| ==> r[i] == StripCr(lines[i])
  {
    seq(|lines|, i requires 0 <= i < |lines| => StripCr(lines[i]))
  }

  lemma LineAheadIs(s: string, n: nat)
    requires n < |s| && '\n' !in s[..n] && s[n] == '\n'
    ensures LineAhead(s) == n
  {
    var m := LineAhead(s);
    assert forall i :: 0 <= i < n ==> s[i] == s[..n][i];
    assert forall i :: 0 <= i < m ==> s[i] == s[..m][i];
  }

  lemma FirstLine(line: string, rest: string)
    requires '\n' !in line
    ensures Lines(line + ['\n'] + rest) == [StripCr(line)] + Lines(rest)
  {
    var s, n := line + ['\n'] + rest, |line|;
    assert s[..n] == line && s[n + 1..] == rest;
    LineAheadIs(s, n);
  }

  /** Reading back terminated lines gives them, up to carriage returns at their ends. */
  lemma {:induction false} LinesOfUnlines(lines: seq<string>)
    requires forall i :: 0 <= i < |lines| ==> '\n' !in lines[i]
    ensures Lines(Unlines(lines)) == MapStripCr(lines)
  {
    if lines != [] {
      FirstLine(lines[0], Unlines(lines[1..]));
      LinesOfUnlines(lines[1..]);
      assert MapStripCr(lines) == [StripCr(lines[0])] + MapStripCr(lines[1..]);
    }
  }

  predicate EndsInCr(line: string) {
    line != [] && line[|line| - 1] == '\r'
  }

  /** Each terminated part is its line, or its line and one carriage return. */
  predicate CrsStripped(parts: seq<string>, lines: seq<string>) {
    && |parts| == |lines|
    && forall k :: 0 <= k < |parts| ==>
         parts[k] == lines[k] + "\r" || (parts[k] == lines[k] && !EndsInCr(lines[k]))
  }

  /** s is the terminated parts and an unterminated last one, which may be empty. */
  predicate PartsOf(s: string, parts: seq<string>, last: string) {
    && (forall k :: 0 <= k < |parts| ==> '\n' !in parts[k]) && '\n' !in last
    && s == Unlines(parts) + last
  }

  ghost predicate LinesAre(s: string, parts: seq<string>, last: string, lines: seq<string>) {
    PartsOf(s, parts, last) &&
    (if last == [] then CrsStripped(parts, lines)
     else lines != [] && lines[|lines| - 1] == last && CrsStripped(parts, lines[..|lines| - 1]))
  }

  lemma FirstPart(s: string, parts: seq<string>, last: string) returns (rest: string)
    requires PartsOf(s, parts, last) && parts != []
    ensures s == parts[0] + ['\n'] + rest && PartsOf(rest, parts[1..], last) && '\n' !in parts[0]
  {
    rest := Unlines(parts[1..]) + last;
    assert s == parts[0] + ['\n'] + Unlines(parts[1..]) + last == parts[0] + ['\n'] + rest;
  }

  lemma StripsFirst(parts: seq<string>, tail: seq<string>)
    requires parts != []
    ensures [StripCr(parts[0])] + (MapStripCr(parts[1..]) + tail) == MapStripCr(parts) + tail
  {
    assert MapStripCr(parts) == [StripCr(parts[0])] + MapStripCr(parts[1..]);
  }

  lemma {:induction false} OnePart(last: string)
    requires '\n' !in last
    ensures Lines(last) == if last == [] then [] else [last]
  {
    NoLineFeedAhead(last);
  }

  lemma {:induction false} LinesOfParts(s: string, parts: seq<string>, last: string)
    requires PartsOf(s, parts, last)
    ensures Lines(s) == MapStripCr(parts) + if last == [] then [] else [last]
    decreases |parts|
  {
    if parts == [] {
      assert s == last && MapStripCr(parts) == [];
      OnePart(last);
    } else {
      var rest := FirstPart(s, parts, last);
      FirstLine(parts[0], rest);
      LinesOfParts(rest, parts[1..], last);
      StripsFirst(parts, if last == [] then [] else [last]);
    }
  }

  lemma {:induction false} NoLineFeedAhead(s: string)
    requires '\n' !in s
    ensures LineAhead(s) == |s|
  {
    assert forall i :: 0 <= i < |s| ==> s[i] in s;
  }

  lemma {:induction false} PartsFound(s: string) returns (parts: seq<string>, last: string)
    ensures PartsOf(s, parts, last)
    decreases |s|
  {
    var n := LineAhead(s);
    if n == |s| {
      parts, last := [], s;
    } else {
      parts, last := PartsFound(s[n + 1..]);
      assert s == s[..n] + ['\n'] + s[n + 1..];
      parts := [s[..n]] + parts;
      assert parts[1..] == parts[1..] && Unlines(parts) == s[..n] + ['\n'] + Unlines(parts[1..]);
    }
  }

  lemma StripsExactly(parts: seq<string>, lines: seq<string>)
    ensures CrsStripped(parts, lines) <==> lines == MapStripCr(parts)
  {
    if CrsStripped(parts, lines) {
      forall k | 0 <= k < |parts| ensures lines[k] == MapStripCr(parts)[k] {
        assert parts[k] == lines[k] + "\r" ==> parts[k][..|parts[k]| - 1] == lines[k];
      }
    }
  }

  lemma {:induction false} LinesGiven(s: string) returns (parts: seq<string>, last: string)
    ensures LinesAre(s, parts, last, Lines(s))
  {
    parts, last := PartsFound(s);
    LinesOfParts(s, parts, last);
    StripsExactly(parts, MapStripCr(parts));
    assert last != [] ==> (MapStripCr(parts) + [last])[..|parts|] == MapStripCr(parts);
  }

  lemma {:induction false} LinesRead(s: string, parts: seq<string>, last: string, lines: seq<string>)
    requires LinesAre(s, parts, last, lines)
    ensures Lines(s) == lines
  {
    LinesOfParts(s, parts, last);
    StripsExactly(parts, if last == [] then lines else lines[..|lines| - 1]);
    assert last != [] ==> lines == lines[..|lines| - 1] + [last];
  }

  /**
   * str::lines gives the parts between line feeds, each without one carriage return at its end, and the
   * unterminated last part, carriage return included, unless it is empty.
   */
  lemma {:induction false} LinesExactly(s: string, lines: seq<string>)
    ensures Lines(s) == lines <==> exists parts, last :: LinesAre(s, parts, last, lines)
  {
    var parts, last := LinesGiven(s);
    if ps, l :| LinesAre(s, ps, l, lines) { LinesRead(s, ps, l, lines); }
  }

  /** slice::join with a line feed: the terminated lines without the last terminator. */
  lemma {:induction false} JoinTerminates(lines: seq<string>)
    requires lines != []
    ensures JoinLines(lines) + "\n" == Unlines(lines)
  {
    if |lines| > 1 {
      JoinTerminates(lines[1..]);
      assert JoinLines(lines) + "\n" == lines[0] + ['\n'] + (JoinLines(lines[1..]) + "\n");
    } else {
      assert Unlines(lines[1..]) == [];
    }
  }

  /** slice::join with a line feed. */
  function JoinLines(lines: seq<string>): string {
    if lines == [] then []
    else if |lines| == 1 then lines[0]
    else lines[0] + ['\n'] + JoinLines(lines[1..])
  }
}
