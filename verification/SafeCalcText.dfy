/**
 * The character side of crates/amplihack-agent-core/src/safe_calc.rs: the
 * tokenizer, safe_eval itself, and a printer that they undo.
 */
module SafeCalcText {
  import opened Wrappers
  import opened Decimal
  import opened SafeCalc
  import opened SafeCalcErrors

  // ----- numbers -----

  predicate IsNumberChar(c: char) {
    IsDigit(c) || c == '.'
  }

  predicate AllNumberChars(s: string) {
    forall i :: 0 <= i < |s| ==> IsNumberChar(s[i])
  }

  function Power10(n: nat): (p: nat)
    ensures p > 0
  {
    if n == 0 then 1 else 10 * Power10(n - 1)
  }

  /** The length of the longest prefix of digits. */
  function DigitsAhead(s: string): (n: nat)
    ensures n <= |s| && (forall i :: 0 <= i < n ==> IsDigit(s[i])) && (n < |s| ==> !IsDigit(s[n]))
  {
    if s == [] || !IsDigit(s[0]) then 0 else 1 + DigitsAhead(s[1..])
  }

  /** f64 parsing of a run of digits and dots: at least one digit, at most one dot; the exact decimal. */
  function LiteralValue(text: string): Option<real> {
    var n := DigitsAhead(text);
    var fraction := if n < |text| then text[n + 1..] else [];
    if (n < |text| && text[n] != '.') || !AllDigits(fraction) || n + |fraction| == 0 then None
    else Some(Value(text[..n] + fraction) as real / Power10(|fraction|) as real)
  }

  lemma {:induction false} DigitsAheadIs(s: string, n: nat)
    requires n <= |s| && (forall i :: 0 <= i < n ==> IsDigit(s[i])) && (n < |s| ==> !IsDigit(s[n]))
    ensures DigitsAhead(s) == n
  {
  }

  /** Digits, and perhaps a dot and digits, with a digit on at least one side. */
  predicate Decimals(text: string, whole: string, fraction: string) {
    && AllDigits(whole) && AllDigits(fraction) && whole + fraction != []
    && (text == whole + "." + fraction || (text == whole && fraction == []))
  }

  lemma {:induction false} ValueSplits(whole: string, fraction: string)
    requires AllDigits(whole) && AllDigits(fraction)
    ensures Value(whole + fraction) == Value(whole) * Power10(|fraction|) + Value(fraction)
  {
    if fraction == [] {
      assert whole + fraction == whole;
    } else {
      var all, init := whole + fraction, fraction[..|fraction| - 1];
      assert all[..|all| - 1] == whole + init && all[|all| - 1] == fraction[|fraction| - 1];
      ValueSplits(whole, init);
      OneMoreDigit(Value(whole), Power10(|init|), Value(init), DigitValue(all[|all| - 1]));
    }
  }

  lemma OneMoreDigit(w: nat, p: nat, f: nat, d: nat)
    ensures 10 * (w * p + f) + d == w * (10 * p) + (10 * f + d)
  {
  }

  lemma DivideSum(a: real, p: real, b: real)
    requires p != 0.0
    ensures (a * p + b) / p == a + b / p
  {
    assert a * p / p == a;
  }

  lemma SplitOver(n: nat, a: nat, p: nat, b: nat)
    requires n == a * p + b && p != 0
    ensures n as real / p as real == a as real + b as real / p as real
  {
    assert n as real == a as real * p as real + b as real;
    DivideSum(a as real, p as real, b as real);
  }

  /** The number with the given digits before and after the dot. */
  function DecimalValue(whole: string, fraction: string): real
    requires AllDigits(whole) && AllDigits(fraction)
  {
    Value(whole) as real + Value(fraction) as real / Power10(|fraction|) as real
  }

  lemma WholeAndFraction(whole: string, fraction: string)
    requires AllDigits(whole) && AllDigits(fraction)
    ensures Value(whole + fraction) as real / Power10(|fraction|) as real == DecimalValue(whole, fraction)
  {
    ValueSplits(whole, fraction);
    SplitOver(Value(whole + fraction), Value(whole), Power10(|fraction|), Value(fraction));
  }

  ghost predicate WritesDecimal(text: string, whole: string, fraction: string, v: real) {
    Decimals(text, whole, fraction) && v == DecimalValue(whole, fraction)
  }

  lemma {:induction false} DecimalsRead(text: string, whole: string, fraction: string)
    requires Decimals(text, whole, fraction)
    ensures LiteralValue(text) == Some(DecimalValue(whole, fraction))
  {
    DigitsAheadIs(text, |whole|);
    assert text[..|whole|] == whole && (|whole| < |text| ==> text[|whole| + 1..] == fraction);
    WholeAndFraction(whole, fraction);
  }

  /** Digits up to n, and behind a dot there, digits too. */
  lemma LiteralParts(text: string, n: nat)
    requires LiteralValue(text).Some? && n == DigitsAhead(text)
    ensures n < |text| ==> text[n] == '.' && AllDigits(text[n + 1..]) && n + |text[n + 1..]| > 0
    ensures n == |text| ==> n > 0
  {
  }

  lemma SplitAtDot(text: string, n: nat)
    requires n < |text| && text[n] == '.'
    ensures text == text[..n] + "." + text[n + 1..]
  {
  }

  lemma {:induction false} LiteralSplits(text: string) returns (whole: string, fraction: string)
    requires LiteralValue(text).Some?
    ensures Decimals(text, whole, fraction)
  {
    var n := DigitsAhead(text);
    LiteralParts(text, n);
    if n < |text| {
      whole, fraction := text[..n], text[n + 1..];
      SplitAtDot(text, n);
    } else {
      whole, fraction := text, [];
    }
  }

  /** A number denotes its whole part plus its fraction's digits over the power of ten for their count. */
  lemma {:induction false} LiteralExactly(text: string, v: real)
    ensures LiteralValue(text) == Some(v) <==> exists whole, fraction :: WritesDecimal(text, whole, fraction, v)
  {
    if LiteralValue(text).Some? {
      var whole, fraction := LiteralSplits(text);
      DecimalsRead(text, whole, fraction);
      assert WritesDecimal(text, whole, fraction, LiteralValue(text).value);
    }
    if whole, fraction :| WritesDecimal(text, whole, fraction, v) {
      DecimalsRead(text, whole, fraction);
    }
  }

  // ----- the tokenizer -----

  function Symbol(c: char): Option<Token> {
    match c
    case '+' => Some(Plus)
    case '-' => Some(Minus)
    case '*' => Some(Star)
    case '/' => Some(Slash)
    case '(' => Some(LParen)
    case ')' => Some(RParen)
    case _ => None
  }

  /** The length of the longest prefix of digits and dots. */
  function NumberCharsAhead(s: string): (n: nat)
    ensures n <= |s| && (forall i :: 0 <= i < n ==> IsNumberChar(s[i])) && (n < |s| ==> !IsNumberChar(s[n]))
    ensures s != [] && IsNumberChar(s[0]) ==> n > 0
  {
    if s == [] || !IsNumberChar(s[0]) then 0 else 1 + NumberCharsAhead(s[1..])
  }

  function Prepend(ts: seq<Token>, rest: Result<seq<Token>, Error>): Result<seq<Token>, Error> {
    match rest
    case Ok(us) => Ok(ts + us)
    case Err(e) => Err(e)
  }

  /** The tokens of a text, or the leftmost error. */
  function Lex(s: string): Result<seq<Token>, Error>
    decreases |s|, 1
  {
    if s == [] then Ok([])
    else if s[0] == ' ' then Lex(s[1..])
    else if Symbol(s[0]).Some? then Prepend([Symbol(s[0]).value], Lex(s[1..]))
    else if IsNumberChar(s[0]) then LexRun(s, NumberCharsAhead(s))
    else Err(UnexpectedCharacter(s[0]))
  }

  /** A text that begins with a run of n digits and dots. */
  function LexRun(s: string, n: nat): Result<seq<Token>, Error>
    requires 0 < n <= |s|
    decreases |s|, 0
  {
    match LiteralValue(s[..n])
    case None => Err(InvalidNumber(s[..n]))
    case Some(v) => Prepend([Num(v)], Lex(s[n..]))
  }

  lemma {:induction false} NumberCharsAheadIs(s: string, n: nat)
    requires n <= |s| && AllNumberChars(s[..n]) && (n < |s| ==> !IsNumberChar(s[n]))
    ensures NumberCharsAhead(s) == n
  {
    var m := NumberCharsAhead(s);
    assert forall i :: 0 <= i < n ==> s[i] == s[..n][i];
    assert forall i :: 0 <= i < m ==> s[i] == s[..m][i];
  }

  lemma {:induction false} PrependTwice(ts: seq<Token>, us: seq<Token>, rest: Result<seq<Token>, Error>)
    ensures Prepend(ts, Prepend(us, rest)) == Prepend(ts + us, rest)
  {
    if rest.Ok? {
      assert ts + (us + rest.value) == ts + us + rest.value;
    }
  }

  /** The end of the run of digits and dots that begins at start. */
  method ScanNumber(s: string, start: nat) returns (end: nat)
    requires start <= |s|
    ensures end == start + NumberCharsAhead(s[start..])
  {
    end := start;
    while end < |s| && IsNumberChar(s[end])
      invariant start <= end <= |s| && AllNumberChars(s[start..end])
    {
      assert s[start..end + 1] == s[start..end] + [s[end]];
      end := end + 1;
    }
    assert s[start..][..end - start] == s[start..end];
    NumberCharsAheadIs(s[start..], end - start);
  }

  /** The first i characters of s have been read as tokens. */
  ghost predicate ReadSoFar(s: string, tokens: seq<Token>, i: nat) {
    i <= |s| && Lex(s) == Prepend(tokens, Lex(s[i..]))
  }

  lemma {:induction false} ReadsSpace(s: string, tokens: seq<Token>, i: nat)
    requires ReadSoFar(s, tokens, i) && i < |s| && s[i] == ' '
    ensures ReadSoFar(s, tokens, i + 1)
  {
    assert s[i..][1..] == s[i + 1..];
  }

  lemma {:induction false} ReadsSymbol(s: string, tokens: seq<Token>, i: nat)
    requires ReadSoFar(s, tokens, i) && i < |s| && Symbol(s[i]).Some?
    ensures ReadSoFar(s, tokens + [Symbol(s[i]).value], i + 1)
  {
    assert s[i..][1..] == s[i + 1..];
    PrependTwice(tokens, [Symbol(s[i]).value], Lex(s[i + 1..]));
  }

  lemma NumberCharsApart(c: char)
    requires IsNumberChar(c)
    ensures c != ' ' && Symbol(c) == None
  {
  }

  lemma {:induction false} LexNumber(t: string)
    requires t != [] && IsNumberChar(t[0])
    ensures var n := NumberCharsAhead(t);
      Lex(t) == match LiteralValue(t[..n])
                case None => Err(InvalidNumber(t[..n]))
                case Some(v) => Prepend([Num(v)], Lex(t[n..]))
  {
    NumberCharsApart(t[0]);
  }

  lemma {:induction false} ReadsNumber(s: string, tokens: seq<Token>, i: nat, end: nat)
    requires ReadSoFar(s, tokens, i) && i < |s| && IsNumberChar(s[i]) && end == i + NumberCharsAhead(s[i..])
    ensures match LiteralValue(s[i..end])
            case None => Lex(s) == Err(InvalidNumber(s[i..end]))
            case Some(v) => ReadSoFar(s, tokens + [Num(v)], end)
  {
    assert s[i..][..end - i] == s[i..end] && s[i..][end - i..] == s[end..];
    LexNumber(s[i..]);
    match LiteralValue(s[i..end])
    case None =>
    case Some(v) => PrependTwice(tokens, [Num(v)], Lex(s[end..]));
  }

  method Tokenize(s: string) returns (r: Result<seq<Token>, Error>)
    ensures r == Lex(s)
  {
    var tokens := [];
    var i := 0;
    assert ReadSoFar(s, tokens, i) by {
      assert s[0..] == s;
      assert Lex(s).Ok? ==> tokens + Lex(s).value == Lex(s).value;
    }
    while i < |s|
      invariant ReadSoFar(s, tokens, i)
    {
      if s[i] == ' ' {
        ReadsSpace(s, tokens, i);
        i := i + 1;
      } else if Symbol(s[i]).Some? {
        ReadsSymbol(s, tokens, i);
        tokens := tokens + [Symbol(s[i]).value];
        i := i + 1;
      } else if IsNumberChar(s[i]) {
        var end := ScanNumber(s, i);
        ReadsNumber(s, tokens, i, end);
        match LiteralValue(s[i..end])
        case None => return Err(InvalidNumber(s[i..end]));
        case Some(v) =>
          tokens := tokens + [Num(v)];
          i := end;
      } else {
        return Err(UnexpectedCharacter(s[i]));
      }
    }
    assert s[i..] == [] && tokens + [] == tokens;
    r := Ok(tokens);
  }

  // ----- which texts a token list has -----

  /** One token as written: spaces before it, and its characters. */
  datatype Piece = Piece(gap: string, text: string, token: Token)

  predicate AllSpaces(s: string) {
    forall i :: 0 <= i < |s| ==> s[i] == ' '
  }

  predicate Spells(p: Piece) {
    match p.token
    case Num(v) => p.text != [] && AllNumberChars(p.text) && LiteralValue(p.text) == Some(v)
    case Plus => p.text == "+"
    case Minus => p.text == "-"
    case Star => p.text == "*"
    case Slash => p.text == "/"
    case LParen => p.text == "("
    case RParen => p.text == ")"
  }

  predicate SpelledOut(p: Piece) {
    AllSpaces(p.gap) && Spells(p)
  }

  /** Numbers next to each other have a space between them. */
  predicate Apart(p: Piece, ps: seq<Piece>) {
    p.token.Num? && ps != [] && ps[0].token.Num? ==> ps[0].gap != []
  }

  /** Every piece spells its token after spaces, and numbers are kept apart. */
  predicate Written(ps: seq<Piece>) {
    ps == [] || (SpelledOut(ps[0]) && Apart(ps[0], ps[1..]) && Written(ps[1..]))
  }

  function Layout(ps: seq<Piece>, tail: string): string {
    if ps == [] then tail else ps[0].gap + ps[0].text + Layout(ps[1..], tail)
  }

  function Tokens(ps: seq<Piece>): (ts: seq<Token>)
    ensures |ts| == |ps| && forall i :: 0 <= i < |ps| ==> ts[i] == ps[i].token
  {
    if ps == [] then [] else [ps[0].token] + Tokens(ps[1..])
  }

  lemma {:induction false} LexSkipsSpaces(gap: string, s: string)
    requires AllSpaces(gap)
    ensures Lex(gap + s) == Lex(s)
  {
    if gap == [] {
      assert gap + s == s;
    } else {
      assert (gap + s)[1..] == gap[1..] + s;
      LexSkipsSpaces(gap[1..], s);
    }
  }

  /** What follows a written number does not continue it. */
  lemma {:induction false} RestStopsNumber(ps: seq<Piece>, tail: string)
    requires Written(ps) && AllSpaces(tail) && ps != [] && ps[0].token.Num?
    ensures var rest := Layout(ps[1..], tail); rest != [] ==> !IsNumberChar(rest[0])
  {
    var more := ps[1..];
    if more != [] && more[0].gap == [] {
      assert Layout(more, tail)[0] == more[0].text[0];
    }
  }

  lemma {:induction false} LexReadsNumber(p: Piece, rest: string)
    requires p.token.Num? && Spells(p) && (rest != [] ==> !IsNumberChar(rest[0]))
    ensures Lex(p.text + rest) == Prepend([p.token], Lex(rest))
  {
    var s := p.text + rest;
    var n := |p.text|;
    assert s[..n] == p.text && s[n..] == rest && s[0] == p.text[0];
    NumberCharsAheadIs(s, n);
    LexNumber(s);
  }

  lemma {:induction false} LexReadsSymbol(p: Piece, rest: string)
    requires !p.token.Num? && Spells(p)
    ensures Lex(p.text + rest) == Prepend([p.token], Lex(rest))
  {
    assert (p.text + rest)[1..] == rest;
  }

  /** One written piece is read as its token, wherever what follows does not continue a number. */
  lemma {:induction false} LexReadsPiece(p: Piece, rest: string)
    requires SpelledOut(p)
    requires p.token.Num? && rest != [] ==> !IsNumberChar(rest[0])
    ensures Lex(p.gap + p.text + rest) == Prepend([p.token], Lex(rest))
  {
    assert p.gap + p.text + rest == p.gap + (p.text + rest);
    LexSkipsSpaces(p.gap, p.text + rest);
    if p.token.Num? { LexReadsNumber(p, rest); } else { LexReadsSymbol(p, rest); }
  }

  /** Written pieces with numbers apart are read back. */
  lemma {:induction false} LexReadsLayout(ps: seq<Piece>, tail: string)
    requires Written(ps) && AllSpaces(tail)
    ensures Lex(Layout(ps, tail)) == Ok(Tokens(ps))
  {
    if ps == [] {
      LexSkipsSpaces(tail, []);
      assert tail + [] == tail;
    } else {
      LexReadsLayout(ps[1..], tail);
      if ps[0].token.Num? { RestStopsNumber(ps, tail); }
      LexReadsPiece(ps[0], Layout(ps[1..], tail));
    }
  }

  /** Pieces ps and the spaces after them write out s. */
  ghost predicate WritesOut(ps: seq<Piece>, tail: string, s: string) {
    Written(ps) && AllSpaces(tail) && Layout(ps, tail) == s
  }

  lemma {:induction false} SpaceInFront(ps: seq<Piece>, tail: string, s: string) returns (qs: seq<Piece>, end: string)
    requires WritesOut(ps, tail, s)
    ensures WritesOut(qs, end, [' '] + s) && Tokens(qs) == Tokens(ps)
  {
    if ps == [] {
      qs, end := [], [' '] + tail;
    } else {
      qs, end := SpacedFirst(ps), tail;
      SpacedKeepsWritten(ps);
      assert [' '] + s == qs[0].gap + qs[0].text + Layout(qs[1..], tail);
    }
  }

  /** The pieces with one more space before the first. */
  function SpacedFirst(ps: seq<Piece>): (qs: seq<Piece>)
    requires ps != []
    ensures qs != [] && qs[0] == ps[0].(gap := [' '] + ps[0].gap) && qs[1..] == ps[1..]
  {
    [ps[0].(gap := [' '] + ps[0].gap)] + ps[1..]
  }

  lemma SpacedKeepsWritten(ps: seq<Piece>)
    requires ps != [] && Written(ps)
    ensures Written(SpacedFirst(ps)) && Tokens(SpacedFirst(ps)) == Tokens(ps)
  {
    assert AllSpaces([' '] + ps[0].gap);
  }

  lemma {:induction false} PieceInFront(p: Piece, ps: seq<Piece>, tail: string, s: string)
    requires Spells(p) && p.gap == [] && WritesOut(ps, tail, s)
    requires p.token.Num? && s != [] ==> !IsNumberChar(s[0])
    ensures WritesOut([p] + ps, tail, p.text + s) && Tokens([p] + ps) == [p.token] + Tokens(ps)
  {
    var qs := [p] + ps;
    assert qs[1..] == ps;
    assert p.gap + p.text + s == p.text + s;
    if ps != [] && ps[0].token.Num? && ps[0].gap == [] {
      assert s[0] == ps[0].text[0];
      assert IsNumberChar(ps[0].text[0]);
    }
  }

  /** The first token of an accepted text, as written there. */
  lemma FirstPiece(s: string) returns (p: Piece)
    requires s != [] && s[0] != ' ' && Lex(s).Ok?
    ensures Spells(p) && p.gap == [] && 0 < |p.text| <= |s| && p.text == s[..|p.text|]
    ensures Lex(s) == Prepend([p.token], Lex(s[|p.text|..]))
    ensures p.token.Num? && |p.text| < |s| ==> !IsNumberChar(s[|p.text|])
  {
    if Symbol(s[0]).Some? {
      p := Piece([], s[..1], Symbol(s[0]).value);
    } else {
      var n := NumberCharsAhead(s);
      LexNumber(s);
      assert AllNumberChars(s[..n]);
      p := Piece([], s[..n], Num(LiteralValue(s[..n]).value));
    }
  }

  /** Whatever the tokenizer accepts is laid out as written pieces with numbers apart. */
  lemma {:induction false} LexComesFromLayout(s: string) returns (ps: seq<Piece>, tail: string)
    requires Lex(s).Ok?
    ensures WritesOut(ps, tail, s) && Tokens(ps) == Lex(s).value
  {
    if s == [] {
      ps, tail := [], [];
    } else if s[0] == ' ' {
      ps, tail := LexComesFromLayout(s[1..]);
      ps, tail := SpaceInFront(ps, tail, s[1..]);
      assert [' '] + s[1..] == s;
    } else {
      var p := FirstPiece(s);
      var rest := s[|p.text|..];
      ps, tail := LexComesFromLayout(rest);
      PieceInFront(p, ps, tail, rest);
      ps := [p] + ps;
      assert p.text + rest == s;
    }
  }

  /** Some spacing and spelling of the tokens ts is s. */
  ghost predicate TextOf(s: string, ts: seq<Token>) {
    exists ps, tail :: WritesOut(ps, tail, s) && Tokens(ps) == ts
  }

  /** The tokenizer accepts exactly the layouts of written pieces whose numbers are apart. */
  lemma {:induction false} LexExactly(s: string, ts: seq<Token>)
    ensures Lex(s) == Ok(ts) <==> TextOf(s, ts)
  {
    if Lex(s) == Ok(ts) {
      var ps, tail := LexComesFromLayout(s);
    }
    if TextOf(s, ts) {
      var ps, tail :| WritesOut(ps, tail, s) && Tokens(ps) == ts;
      LexReadsLayout(ps, tail);
    }
  }

  // ----- which texts are refused -----

  /** b does not continue a number that a ends with. */
  predicate Breaks(a: string, b: string) {
    a != [] && b != [] ==> !(IsNumberChar(a[|a| - 1]) && IsNumberChar(b[0]))
  }

  /** What stands behind a written number that is followed by b does not continue it. */
  lemma {:induction false} RestStops(ps: seq<Piece>, tail: string, b: string)
    requires Written(ps) && AllSpaces(tail) && ps != [] && ps[0].token.Num? && Breaks(Layout(ps, tail), b)
    ensures var rest := Layout(ps[1..], tail) + b; rest != [] ==> !IsNumberChar(rest[0])
  {
    var rest := Layout(ps[1..], tail);
    RestStopsNumber(ps, tail);
    if rest == [] && b != [] {
      var text := ps[0].text;
      assert Layout(ps, tail) == ps[0].gap + text && text[|text| - 1] == Layout(ps, tail)[|Layout(ps, tail)| - 1];
    }
  }

  lemma BreaksRest(first: string, rest: string, b: string)
    requires Breaks(first + rest, b)
    ensures Breaks(rest, b)
  {
  }

  /** Written pieces are read first, and then what is behind them. */
  lemma {:induction false} LexReadsOn(ps: seq<Piece>, tail: string, b: string)
    requires Written(ps) && AllSpaces(tail) && Breaks(Layout(ps, tail), b)
    ensures Lex(Layout(ps, tail) + b) == Prepend(Tokens(ps), Lex(b))
  {
    if ps == [] {
      LexSkipsSpaces(tail, b);
      PrependNothing(Lex(b));
      assert Layout(ps, tail) == tail && Tokens(ps) == [];
    } else {
      var rest := Layout(ps[1..], tail);
      BreaksRest(ps[0].gap + ps[0].text, rest, b);
      LexReadsOn(ps[1..], tail, b);
      if ps[0].token.Num? { RestStops(ps, tail, b); }
      LexReadsPiece(ps[0], rest + b);
      assert ps[0].gap + ps[0].text + rest + b == ps[0].gap + ps[0].text + (rest + b);
      PrependTwice([ps[0].token], Tokens(ps[1..]), Lex(b));
    }
  }

  /** An accepted beginning is read first, and then the rest. */
  lemma {:induction false} LexSplits(a: string, b: string)
    requires Lex(a).Ok? && Breaks(a, b)
    ensures Lex(a + b) == Prepend(Lex(a).value, Lex(b))
  {
    var ps, tail := LexComesFromLayout(a);
    LexReadsOn(ps, tail, b);
  }

  lemma PrependNothing(r: Result<seq<Token>, Error>)
    ensures Prepend([], r) == r
  {
    if r.Ok? { assert [] + r.value == r.value; }
  }

  /** s begins with a character that no token begins with, or with a run of digits and dots that is no number. */
  predicate BeginsBad(s: string, e: Error) {
    match e
    case UnexpectedCharacter(c) => s != [] && s[0] == c && c != ' ' && c !in "+-*/()" && !IsNumberChar(c)
    case InvalidNumber(text) =>
      && 0 < |text| <= |s| && s[..|text|] == text && AllNumberChars(text) && LiteralValue(text) == None
      && (|text| < |s| ==> !IsNumberChar(s[|text|]))
    case _ => false
  }

  lemma {:induction false} BadIsRefused(s: string, e: Error)
    requires BeginsBad(s, e)
    ensures Lex(s) == Err(e)
  {
    if e.InvalidNumber? {
      assert s[0] == e.text[0];
      NumberCharsAheadIs(s, |e.text|);
      LexNumber(s);
    }
  }

  /** An accepted beginning of n characters that does not run on. */
  ghost predicate Accepted(s: string, n: nat) {
    n <= |s| && (exists ts :: TextOf(s[..n], ts)) && Breaks(s[..n], s[n..])
  }

  lemma {:induction false} AcceptedLex(s: string, n: nat)
    requires n <= |s|
    ensures Accepted(s, n) <==> Lex(s[..n]).Ok? && Breaks(s[..n], s[n..])
  {
    if ts :| TextOf(s[..n], ts) { LexExactly(s[..n], ts); }
    if Lex(s[..n]).Ok? { LexExactly(s[..n], Lex(s[..n]).value); }
  }

  lemma {:induction false} AcceptedTwice(s: string, n: nat, i: nat)
    requires Accepted(s, n) && Accepted(s[n..], i)
    ensures Accepted(s, n + i)
  {
    var a, b := s[..n], s[n..][..i];
    AcceptedLex(s, n);
    AcceptedLex(s[n..], i);
    BreaksTwice(s, n, i);
    LexSplits(a, b);
    assert s[..n + i] == a + b;
    AcceptedLex(s, n + i);
  }

  lemma BreaksTwice(s: string, n: nat, i: nat)
    requires n <= |s| && i <= |s| - n && Breaks(s[..n], s[n..]) && Breaks(s[n..][..i], s[n..][i..])
    ensures Breaks(s[..n], s[n..][..i]) && Breaks(s[..n + i], s[n + i..])
  {
    assert s[n + i..] == s[n..][i..];
    if i > 0 {
      assert s[n..][..i][0] == s[n..][0] && s[..n + i][n + i - 1] == s[n..][..i][i - 1];
    }
  }

  /** The text up to i is accepted, and at i begins what is not. */
  ghost predicate BadAt(s: string, i: nat, e: Error) {
    Accepted(s, i) && BeginsBad(s[i..], e)
  }

  lemma {:induction false} BadLater(s: string, n: nat, i: nat, e: Error)
    requires Accepted(s, n) && BadAt(s[n..], i, e)
    ensures BadAt(s, n + i, e)
  {
    AcceptedTwice(s, n, i);
    assert s[n + i..] == s[n..][i..];
  }

  lemma {:induction false} BadHere(s: string, e: Error)
    requires BeginsBad(s, e)
    ensures BadAt(s, 0, e)
  {
    assert s[..0] == [] && s[0..] == s;
    AcceptedLex(s, 0);
  }

  lemma {:induction false} OneAccepted(s: string)
    requires s != [] && (s[0] == ' ' || Symbol(s[0]).Some?)
    ensures Accepted(s, 1)
  {
    assert s[..1][0] == s[0] && s[..1][1..] == [];
    NotNumber(s);
    AcceptedLex(s, 1);
  }

  /** The run of digits and dots is refused, or the rest is. */
  lemma {:induction false} NumberRefused(s: string, n: nat, e: Error)
    requires Lex(s) == Err(e) && s != [] && IsNumberChar(s[0]) && n == NumberCharsAhead(s)
    ensures if LiteralValue(s[..n]).None? then BeginsBad(s, e) else Lex(s[n..]) == Err(e)
  {
    LexNumber(s);
    if LiteralValue(s[..n]).None? {
      assert AllNumberChars(s[..n]);
      assert BeginsBad(s, InvalidNumber(s[..n]));
    }
  }

  lemma {:induction false} OneRefused(s: string, e: Error)
    requires Lex(s) == Err(e) && s != [] && (s[0] == ' ' || Symbol(s[0]).Some?)
    ensures Lex(s[1..]) == Err(e)
  {
  }

  lemma {:induction false} CharRefused(s: string, e: Error)
    requires Lex(s) == Err(e) && s != [] && s[0] != ' ' && Symbol(s[0]).None? && !IsNumberChar(s[0])
    ensures BeginsBad(s, e)
  {
  }

  /** A refused text begins bad, or is refused for what follows its first space or token. */
  lemma {:induction false} Narrows(s: string, e: Error) returns (n: nat)
    requires Lex(s) == Err(e)
    ensures if n == 0 then BeginsBad(s, e) else Accepted(s, n) && Lex(s[n..]) == Err(e)
  {
    n := 0;
    if s[0] == ' ' || Symbol(s[0]).Some? {
      OneRefused(s, e);
      OneAccepted(s);
      n := 1;
    } else if IsNumberChar(s[0]) {
      NumberRefused(s, NumberCharsAhead(s), e);
      if LiteralValue(s[..NumberCharsAhead(s)]).Some? {
        n := NumberCharsAhead(s);
        NumberAlone(s[..n]);
        AcceptedLex(s, n);
      }
    } else {
      CharRefused(s, e);
    }
  }

  /** Something in s is bad and everything before it is accepted. */
  ghost predicate BadSomewhere(s: string, e: Error) {
    exists i: nat :: BadAt(s, i, e)
  }

  lemma {:induction false} BadBehind(s: string, n: nat, e: Error)
    requires Accepted(s, n) && BadSomewhere(s[n..], e)
    ensures BadSomewhere(s, e)
  {
    var i: nat :| BadAt(s[n..], i, e);
    BadLater(s, n, i, e);
  }

  lemma {:induction false} FindsBad(s: string, e: Error)
    requires Lex(s) == Err(e)
    ensures BadSomewhere(s, e)
    decreases |s|
  {
    var n := Narrows(s, e);
    if n == 0 {
      BadHere(s, e);
    } else {
      FindsBad(s[n..], e);
      BadBehind(s, n, e);
    }
  }

  lemma NotNumber(s: string)
    requires s != [] && (s[0] == ' ' || Symbol(s[0]).Some?)
    ensures Breaks(s[..1], s[1..])
  {
    if IsNumberChar(s[0]) { NumberCharsApart(s[0]); }
  }

  lemma {:induction false} NumberAlone(text: string)
    requires text != [] && AllNumberChars(text) && LiteralValue(text).Some?
    ensures Lex(text).Ok?
  {
    NumberCharsAheadIs(text, |text|);
    assert text[..|text|] == text && text[|text|..] == [];
    LexNumber(text);
  }

  /** A text is refused for what stands at the end of an accepted beginning, and only for that. */
  lemma {:induction false} LexErrorExactly(s: string, e: Error)
    ensures Lex(s) == Err(e) <==> BadSomewhere(s, e)
  {
    if Lex(s) == Err(e) {
      FindsBad(s, e);
    }
    if i: nat :| BadAt(s, i, e) {
      AcceptedLex(s, i);
      BadIsRefused(s[i..], e);
      LexSplits(s[..i], s[i..]);
      assert s[..i] + s[i..] == s;
    }
  }

  // ----- safe_eval -----

  /** s is a text of a derivation with value v and no zero divisor. */
  ghost predicate Denotes(s: string, v: real) {
    exists e :: TextOf(s, YieldExpr(e)) && ValueExpr(e) == Some(v)
  }

  lemma {:induction false} WholeTreeIs(ts: seq<Token>)
    ensures forall e :: YieldExpr(e) == ts <==> WholeTree(ts) == Ok(e)
  {
    forall e { DerivationExactly(ts, e); }
  }

  method SafeEval(s: string) returns (r: Result<real, Error>)
    ensures forall v :: r == Ok(v) <==> Denotes(s, v)
    ensures forall e :: TextOf(s, YieldExpr(e)) && ValueExpr(e) == None ==> r == Err(DivisionByZero)
    ensures forall e :: BadSomewhere(s, e) ==> r == Err(e)
    ensures forall ts, error, at: nat :: TextOf(s, ts) && Stops(ts, error, at) ==>
      r == Err(if ZeroDivided(ts, 0, at) then DivisionByZero else error)
  {
    forall e ensures BadSomewhere(s, e) <==> Lex(s) == Err(e) { LexErrorExactly(s, e); }
    var lexed := Tokenize(s);
    forall ts ensures lexed == Ok(ts) <==> TextOf(s, ts) {
      LexExactly(s, ts);
    }
    if lexed.Err? {
      return Err(lexed.error);
    }
    r := EvalTokens(lexed.value);
  }

  /** The part of safe_eval after the tokenizer. */
  method EvalTokens(ts: seq<Token>) returns (r: Result<real, Error>)
    ensures forall v :: r == Ok(v) <==> exists e :: YieldExpr(e) == ts && ValueExpr(e) == Some(v)
    ensures forall e :: YieldExpr(e) == ts && ValueExpr(e) == None ==> r == Err(DivisionByZero)
    ensures forall error, at: nat :: Stops(ts, error, at) ==>
      r == Err(if ZeroDivided(ts, 0, at) then DivisionByZero else error)
  {
    forall error, at: nat ensures Stops(ts, error, at) <==> WholeTree(ts) == Err((error, at)) {
      ErrorExactly(ts, error, at);
    }
    var parsed := ParseExpr(ts, 0);
    WholeTreeIs(ts);
    if TreeExpr(ts, 0).Ok? { NoValueExpr(TreeExpr(ts, 0).value.0, ts, 0, TreeExpr(ts, 0).value.1); }
    assert WholeTree(ts).Ok? ==> YieldExpr(WholeTree(ts).value) == ts;
    if parsed.Err? {
      return Err(parsed.error);
    }
    var (v, pos) := parsed.value;
    if pos < |ts| {
      return Err(UnexpectedToken(pos));
    }
    r := Ok(v);
  }
}
