/**
 * Printing arithmetic trees with as few parentheses as the grammar of
 * crates/amplihack-agent-core/src/safe_calc.rs allows, and reading them back.
 */
module SafeCalcPrinter {
  import opened Wrappers
  import opened Decimal
  import opened SafeCalc
  import opened SafeCalcText

  datatype Op = Add | Sub | Mul | Div

  /** What an expression means, without its spelling. */
  datatype Ast = Lit(v: real) | Neg(x: Ast) | Bin(op: Op, l: Ast, r: Ast)

  /** Ordinary arithmetic on the reals, undefined at a zero divisor. */
  function Eval(a: Ast): Option<real> {
    match a
    case Lit(v) => Some(v)
    case Neg(x) => (match Eval(x) case Some(v) => Some(-v) case None => None)
    case Bin(op, l, r) =>
      (match (Eval(l), Eval(r))
       case (Some(x), Some(y)) => Combine(op, x, y)
       case _ => None)
  }

  function Combine(op: Op, x: real, y: real): Option<real> {
    match op
    case Add => Some(x + y)
    case Sub => Some(x - y)
    case Mul => Some(x * y)
    case Div => if y == 0.0 then None else Some(x / y)
  }

  // ----- the meaning of a derivation -----

  function AstOfExpr(e: Expr): Ast {
    match e
    case OneTerm(t) => AstOfTerm(t)
    case AddSub(l, subtract, r) => Bin(if subtract then Sub else Add, AstOfExpr(l), AstOfTerm(r))
  }

  function AstOfTerm(t: Term): Ast {
    match t
    case OneUnary(u) => AstOfUnary(u)
    case MulDiv(l, divide, r) => Bin(if divide then Div else Mul, AstOfTerm(l), AstOfUnary(r))
  }

  function AstOfUnary(u: Unary): Ast {
    if u.sign.MinusSign? then Neg(AstOfPrimary(u.operand)) else AstOfPrimary(u.operand)
  }

  function AstOfPrimary(p: Primary): Ast {
    match p
    case Number(v) => Lit(v)
    case Parens(e) => AstOfExpr(e)
  }

  lemma {:induction false} MeaningExpr(e: Expr)
    ensures ValueExpr(e) == Eval(AstOfExpr(e))
    decreases e
  {
    match e
    case OneTerm(t) => MeaningTerm(t);
    case AddSub(l, _, r) => MeaningExpr(l); MeaningTerm(r);
  }

  lemma {:induction false} MeaningTerm(t: Term)
    ensures ValueTerm(t) == Eval(AstOfTerm(t))
    decreases t
  {
    match t
    case OneUnary(u) => MeaningUnary(u);
    case MulDiv(l, divide, r) =>
      MeaningTerm(l);
      MeaningUnary(r);
      if ValueTerm(l).Some? && ValueUnary(r).Some? { MulDivMeans(divide, ValueTerm(l).value, ValueUnary(r).value); }
  }

  lemma MulDivMeans(divide: bool, x: real, y: real)
    ensures !divide ==> Combine(Mul, x, y) == Some(Times(x, y))
    ensures divide && y != 0.0 ==> Combine(Div, x, y) == Some(Over(x, y))
    ensures divide && y == 0.0 ==> Combine(Div, x, y) == None
  {
  }

  lemma {:induction false} MeaningUnary(u: Unary)
    ensures ValueUnary(u) == Eval(AstOfUnary(u))
    decreases u
  {
    if u.operand.Parens? { MeaningExpr(u.operand.e); }
  }

  // ----- the printer -----

  /** The grammar level at which a tree needs no parentheses: expr, term, unary, primary. */
  function Level(a: Ast): nat {
    match a
    case Lit(_) => 3
    case Neg(_) => 2
    case Bin(op, _, _) => if op.Add? || op.Sub? then 0 else 1
  }

  function PrintExpr(a: Ast): Expr
    decreases a, (Level(a) - 0) % 4
  {
    if Level(a) == 0 then AddSub(PrintExpr(a.l), a.op.Sub?, PrintTerm(a.r)) else OneTerm(PrintTerm(a))
  }

  function PrintTerm(a: Ast): Term
    decreases a, (Level(a) - 1) % 4
  {
    if Level(a) == 1 then MulDiv(PrintTerm(a.l), a.op.Div?, PrintUnary(a.r)) else OneUnary(PrintUnary(a))
  }

  function PrintUnary(a: Ast): Unary
    decreases a, (Level(a) - 2) % 4
  {
    if Level(a) == 2 then Unary(MinusSign, PrintPrimary(a.x)) else Unary(NoSign, PrintPrimary(a))
  }

  function PrintPrimary(a: Ast): Primary
    decreases a, (Level(a) - 3) % 4
  {
    if Level(a) == 3 then Number(a.v) else Parens(PrintExpr(a))
  }

  /** All four forms of a tree mean the tree. */
  lemma {:induction false} PrintMeans(a: Ast)
    ensures AstOfExpr(PrintExpr(a)) == a && AstOfTerm(PrintTerm(a)) == a
    ensures AstOfUnary(PrintUnary(a)) == a && AstOfPrimary(PrintPrimary(a)) == a
  {
    match a
    case Lit(_) =>
      assert AstOfUnary(PrintUnary(a)) == a;
      assert AstOfTerm(PrintTerm(a)) == a;
    case Neg(x) =>
      PrintMeans(x);
      assert AstOfUnary(PrintUnary(a)) == a;
      assert AstOfTerm(PrintTerm(a)) == a;
    case Bin(_, l, r) =>
      PrintMeans(l);
      PrintMeans(r);
      if Level(a) == 1 { assert AstOfTerm(PrintTerm(a)) == a; }
      assert AstOfExpr(PrintExpr(a)) == a;
      assert AstOfPrimary(PrintPrimary(a)) == a;
      assert AstOfUnary(PrintUnary(a)) == a;
  }

  // ----- as few parentheses as possible -----

  function ParensExpr(e: Expr): nat {
    match e
    case OneTerm(t) => ParensTerm(t)
    case AddSub(l, _, r) => ParensExpr(l) + ParensTerm(r)
  }

  function ParensTerm(t: Term): nat {
    match t
    case OneUnary(u) => ParensPrimary(u.operand)
    case MulDiv(l, _, r) => ParensTerm(l) + ParensPrimary(r.operand)
  }

  function ParensPrimary(p: Primary): nat {
    match p
    case Number(_) => 0
    case Parens(e) => 1 + ParensExpr(e)
  }

  /** Climbing a level costs nothing or one pair, and at most one pair in all. */
  lemma {:induction false} LevelCosts(a: Ast)
    ensures ParensExpr(PrintExpr(a)) <= ParensTerm(PrintTerm(a)) <= ParensPrimary(PrintUnary(a).operand)
    ensures ParensPrimary(PrintUnary(a).operand) <= ParensPrimary(PrintPrimary(a)) <= 1 + ParensExpr(PrintExpr(a))
  {
    if Level(a) != 1 {
      assert ParensTerm(PrintTerm(a)) == ParensPrimary(PrintUnary(a).operand);
    }
    if Level(a) != 0 {
      assert ParensExpr(PrintExpr(a)) == ParensTerm(PrintTerm(a));
    }
  }

  /** Any derivation meaning a tree has at least as many parentheses as the printed one. */
  lemma {:induction false} FewestExpr(e: Expr)
    ensures ParensExpr(PrintExpr(AstOfExpr(e))) <= ParensExpr(e)
    decreases e
  {
    match e
    case OneTerm(t) => FewestTerm(t); LevelCosts(AstOfTerm(t));
    case AddSub(l, _, r) => FewestExpr(l); FewestTerm(r);
  }

  lemma {:induction false} FewestTerm(t: Term)
    ensures ParensTerm(PrintTerm(AstOfTerm(t))) <= ParensTerm(t)
    decreases t
  {
    match t
    case OneUnary(u) => FewestUnary(u); LevelCosts(AstOfUnary(u));
    case MulDiv(l, _, r) => FewestTerm(l); FewestUnary(r);
  }

  lemma {:induction false} FewestUnary(u: Unary)
    ensures ParensPrimary(PrintUnary(AstOfUnary(u)).operand) <= ParensPrimary(u.operand)
    decreases u
  {
    var a := AstOfPrimary(u.operand);
    if u.operand.Parens? { FewestExpr(u.operand.e); }
    LevelCosts(a);
  }

  // ----- the round trip -----

  /** No two numbers are neighbours. */
  ghost predicate NumbersSeparate(ts: seq<Token>) {
    forall i :: 0 < i < |ts| ==> !(ts[i - 1].Num? && ts[i].Num?)
  }

  lemma {:induction false} YieldSeparateExpr(e: Expr)
    ensures NumbersSeparate(YieldExpr(e))
    decreases e
  {
    match e
    case OneTerm(t) => YieldSeparateTerm(t);
    case AddSub(l, subtract, r) =>
      YieldSeparateExpr(l);
      YieldSeparateTerm(r);
      Separated(YieldExpr(l), if subtract then Minus else Plus, YieldTerm(r));
  }

  lemma {:induction false} YieldSeparateTerm(t: Term)
    ensures NumbersSeparate(YieldTerm(t))
    decreases t
  {
    match t
    case OneUnary(u) => YieldSeparateUnary(u);
    case MulDiv(l, divide, r) =>
      YieldSeparateTerm(l);
      YieldSeparateUnary(r);
      Separated(YieldTerm(l), if divide then Slash else Star, YieldUnary(r));
  }

  lemma {:induction false} YieldSeparateUnary(u: Unary)
    ensures NumbersSeparate(YieldUnary(u))
    decreases u
  {
    if u.operand.Parens? {
      YieldSeparateExpr(u.operand.e);
      Separated(YieldExpr(u.operand.e), RParen, []);
      assert YieldExpr(u.operand.e) + [RParen] + [] == YieldExpr(u.operand.e) + [RParen];
      Separated([], LParen, YieldExpr(u.operand.e) + [RParen]);
      assert [] + [LParen] + (YieldExpr(u.operand.e) + [RParen]) == YieldPrimary(u.operand);
    }
    Separated([], if u.sign.MinusSign? then Minus else Plus, YieldPrimary(u.operand));
    assert forall t: Token :: [] + [t] + YieldPrimary(u.operand) == [t] + YieldPrimary(u.operand);
  }

  lemma Separated(ts: seq<Token>, t: Token, us: seq<Token>)
    requires NumbersSeparate(ts) && !t.Num? && NumbersSeparate(us)
    ensures NumbersSeparate(ts + [t] + us)
  {
    var all := ts + [t] + us;
    forall i | 0 < i < |all| ensures !(all[i - 1].Num? && all[i].Num?) {
      if i > |ts| + 1 { assert all[i - 1] == us[i - |ts| - 2] && all[i] == us[i - |ts| - 1]; }
    }
  }

  /** Pieces that spell separate numbers need no further spacing. */
  lemma {:induction false} AnySpacing(ps: seq<Piece>)
    requires (forall i :: 0 <= i < |ps| ==> SpelledOut(ps[i])) && NumbersSeparate(Tokens(ps))
    ensures Written(ps)
  {
    if ps != [] {
      var ts := Tokens(ps);
      forall i | 0 < i < |ts[1..]| ensures !(ts[1..][i - 1].Num? && ts[1..][i].Num?) {
        assert ts[1..][i - 1] == ts[i] && ts[1..][i] == ts[i + 1];
      }
      assert Tokens(ps[1..]) == ts[1..];
      AnySpacing(ps[1..]);
      if |ps| > 1 { assert ts[1] == ps[1].token; }
    }
  }

  /** The pieces spell the tokens of the printed tree, each after any number of spaces. */
  predicate Prints(a: Ast, ps: seq<Piece>, tail: string) {
    (forall i :: 0 <= i < |ps| ==> SpelledOut(ps[i])) && AllSpaces(tail) && Tokens(ps) == YieldExpr(PrintExpr(a))
  }

  /**
   * Print a tree, spell its numbers in any way that denotes them, put any spaces
   * anywhere between tokens: the text denotes the tree's value and nothing else.
   */
  lemma {:induction false} RoundTrip(a: Ast, ps: seq<Piece>, tail: string, v: real)
    requires Prints(a, ps, tail)
    ensures Denotes(Layout(ps, tail), v) <==> Eval(a) == Some(v)
  {
    var s := Layout(ps, tail);
    var e := PrintExpr(a);
    YieldSeparateExpr(e);
    AnySpacing(ps);
    PrintMeans(a);
    MeaningExpr(e);
    assert WritesOut(ps, tail, s) && TextOf(s, YieldExpr(e));
    if Denotes(s, v) {
      var f :| TextOf(s, YieldExpr(f)) && ValueExpr(f) == Some(v);
      LexExactly(s, YieldExpr(e));
      LexExactly(s, YieldExpr(f));
      DerivationUnique(e, f);
    }
  }

  /** Running the evaluator on a printed tree gives its value, or the zero-divisor error. */
  method PrintThenEvaluate(a: Ast, ps: seq<Piece>, tail: string) returns (r: Result<real, Error>)
    requires Prints(a, ps, tail)
    ensures r == (match Eval(a) case Some(v) => Ok(v) case None => Err(DivisionByZero))
  {
    r := SafeEval(Layout(ps, tail));
    forall v { RoundTrip(a, ps, tail, v); }
    YieldSeparateExpr(PrintExpr(a));
    AnySpacing(ps);
    PrintMeans(a);
    MeaningExpr(PrintExpr(a));
    assert WritesOut(ps, tail, Layout(ps, tail));
    assert TextOf(Layout(ps, tail), YieldExpr(PrintExpr(a)));
  }

  // ----- which trees have a text -----

  function Fraction(n: nat, k: nat): real {
    n as real / Power10(k) as real
  }

  ghost predicate IsDecimal(v: real) {
    exists n: nat, k: nat :: v == Fraction(n, k)
  }

  /** Every literal is a finite decimal, none of them negative. */
  ghost predicate DecimalTree(a: Ast) {
    match a
    case Lit(v) => IsDecimal(v)
    case Neg(x) => DecimalTree(x)
    case Bin(_, l, r) => DecimalTree(l) && DecimalTree(r)
  }

  ghost predicate DecimalToken(t: Token) {
    t.Num? ==> IsDecimal(t.v)
  }

  ghost predicate DecimalTokens(ts: seq<Token>) {
    forall i :: 0 <= i < |ts| ==> DecimalToken(ts[i])
  }

  lemma DecimalsConcat(ts: seq<Token>, us: seq<Token>)
    ensures DecimalTokens(ts + us) <==> DecimalTokens(ts) && DecimalTokens(us)
  {
    if DecimalTokens(ts + us) {
      assert forall i :: 0 <= i < |ts| ==> ts[i] == (ts + us)[i];
      assert forall i :: 0 <= i < |us| ==> us[i] == (ts + us)[|ts| + i];
    }
  }

  lemma DecimalsAround(ts: seq<Token>, t: Token, us: seq<Token>)
    requires !t.Num?
    ensures DecimalTokens(ts + [t] + us) <==> DecimalTokens(ts) && DecimalTokens(us)
  {
    DecimalsConcat(ts + [t], us);
    DecimalsConcat(ts, [t]);
  }

  lemma DecimalsParens(ts: seq<Token>)
    ensures DecimalTokens([LParen] + ts + [RParen]) <==> DecimalTokens(ts)
  {
    DecimalsConcat([LParen] + ts, [RParen]);
    DecimalsConcat([LParen], ts);
  }

  /** The tokens of the printed tree spell decimals exactly when the tree has only those. */
  lemma {:induction false} PrintedDecimals(a: Ast)
    ensures DecimalTokens(YieldExpr(PrintExpr(a))) <==> DecimalTree(a)
    ensures DecimalTokens(YieldTerm(PrintTerm(a))) <==> DecimalTree(a)
    ensures DecimalTokens(YieldUnary(PrintUnary(a))) <==> DecimalTree(a)
    ensures DecimalTokens(YieldPrimary(PrintPrimary(a))) <==> DecimalTree(a)
  {
    match a
    case Lit(v) =>
      assert DecimalTokens([Num(v)]) <==> DecimalToken([Num(v)][0]);
      assert YieldUnary(PrintUnary(a)) == [Num(v)];
      assert YieldTerm(PrintTerm(a)) == [Num(v)];
    case Neg(x) =>
      PrintedDecimals(x);
      DecimalsConcat([Minus], YieldPrimary(PrintPrimary(x)));
      assert DecimalTokens(YieldUnary(PrintUnary(a))) <==> DecimalTree(a);
      assert YieldTerm(PrintTerm(a)) == YieldUnary(PrintUnary(a)) == YieldExpr(PrintExpr(a));
      DecimalsParens(YieldExpr(PrintExpr(a)));
    case Bin(_, l, r) =>
      PrintedDecimals(l);
      PrintedDecimals(r);
      PrintedBin(a);
      DecimalsParens(YieldExpr(PrintExpr(a)));
  }

  lemma PrintedBin(a: Ast)
    requires a.Bin?
    requires DecimalTokens(YieldExpr(PrintExpr(a.l))) <==> DecimalTree(a.l)
    requires DecimalTokens(YieldTerm(PrintTerm(a.l))) <==> DecimalTree(a.l)
    requires DecimalTokens(YieldTerm(PrintTerm(a.r))) <==> DecimalTree(a.r)
    requires DecimalTokens(YieldUnary(PrintUnary(a.r))) <==> DecimalTree(a.r)
    ensures DecimalTokens(YieldExpr(PrintExpr(a))) <==> DecimalTree(a)
    ensures YieldUnary(PrintUnary(a)) == [LParen] + YieldExpr(PrintExpr(a)) + [RParen] == YieldPrimary(PrintPrimary(a))
    ensures YieldTerm(PrintTerm(a)) == if Level(a) == 1 then YieldExpr(PrintExpr(a)) else YieldUnary(PrintUnary(a))
  {
    if Level(a) == 1 {
      DecimalsAround(YieldTerm(PrintTerm(a.l)), if a.op.Div? then Slash else Star, YieldUnary(PrintUnary(a.r)));
    } else {
      DecimalsAround(YieldExpr(PrintExpr(a.l)), if a.op.Sub? then Minus else Plus, YieldTerm(PrintTerm(a.r)));
    }
  }

  lemma {:induction false} LeadingZero(s: string)
    requires AllDigits(s)
    ensures Value("0" + s) == Value(s)
  {
    if s == [] {
      assert "0"[..0] == [] && DigitValue('0') == 0;
    } else {
      assert ("0" + s)[..|s|] == "0" + s[..|s| - 1];
      LeadingZero(s[..|s| - 1]);
    }
  }

  /** More than k digits for the same number. */
  lemma {:induction false} Widen(s: string, k: nat) returns (wide: string)
    requires AllDigits(s)
    ensures AllDigits(wide) && |wide| > k && Value(wide) == Value(s)
    decreases k - |s|
  {
    wide := s;
    if |s| <= k {
      LeadingZero(s);
      wide := Widen("0" + s, k);
    }
  }

  lemma PointedValue(whole: string, fraction: string)
    requires AllDigits(whole) && AllDigits(fraction) && whole != []
    ensures AllNumberChars(whole + "." + fraction)
    ensures LiteralValue(whole + "." + fraction) == Some(Fraction(Value(whole + fraction), |fraction|))
  {
    var text := whole + "." + fraction;
    DigitsAheadIs(text, |whole|);
    assert text[..|whole|] == whole && text[|whole| + 1..] == fraction;
  }

  lemma SpellsDecimal(n: nat, k: nat) returns (text: string)
    ensures AllNumberChars(text) && LiteralValue(text) == Some(Fraction(n, k))
  {
    ValueOfToString(n);
    var digits := Widen(ToString(n), k);
    var m := |digits| - k;
    assert digits[..m] + digits[m..] == digits;
    PointedValue(digits[..m], digits[m..]);
    text := digits[..m] + "." + digits[m..];
  }

  lemma LiteralIsDecimal(text: string)
    ensures LiteralValue(text).Some? ==> IsDecimal(LiteralValue(text).value)
  {
    var n := DigitsAhead(text);
    var fraction := if n < |text| then text[n + 1..] else [];
    if LiteralValue(text).Some? {
      assert LiteralValue(text).value == Fraction(Value(text[..n] + fraction), |fraction|);
    }
  }

  /** A number has a spelling exactly when it is a decimal. */
  lemma SpellingExactly(v: real)
    ensures IsDecimal(v) <==> exists text :: AllNumberChars(text) && LiteralValue(text) == Some(v)
  {
    if IsDecimal(v) {
      var n: nat, k: nat :| v == Fraction(n, k);
      var text := SpellsDecimal(n, k);
    }
    if text :| AllNumberChars(text) && LiteralValue(text) == Some(v) { LiteralIsDecimal(text); }
  }

  lemma SpellToken(t: Token) returns (p: Piece)
    requires DecimalToken(t)
    ensures SpelledOut(p) && p.token == t
  {
    match t
    case Num(v) =>
      SpellingExactly(v);
      var text :| AllNumberChars(text) && LiteralValue(text) == Some(v);
      p := Piece([], text, t);
    case Plus => p := Piece([], "+", t);
    case Minus => p := Piece([], "-", t);
    case Star => p := Piece([], "*", t);
    case Slash => p := Piece([], "/", t);
    case LParen => p := Piece([], "(", t);
    case RParen => p := Piece([], ")", t);
  }

  ghost predicate Spelling(ps: seq<Piece>, ts: seq<Token>) {
    (forall i :: 0 <= i < |ps| ==> SpelledOut(ps[i])) && Tokens(ps) == ts
  }

  lemma {:induction false} SpellTokens(ts: seq<Token>) returns (ps: seq<Piece>)
    requires DecimalTokens(ts)
    ensures Spelling(ps, ts)
  {
    ps := [];
    if ts != [] {
      var p := SpellToken(ts[0]);
      var rest := SpellTokens(ts[1..]);
      ps := [p] + rest;
      assert ps[1..] == rest;
    }
  }

  /** A tree has a text exactly when its literals are decimals. */
  lemma {:induction false} PrintableExactly(a: Ast)
    ensures DecimalTree(a) <==> exists ps, tail :: Prints(a, ps, tail)
  {
    PrintedDecimals(a);
    var ts := YieldExpr(PrintExpr(a));
    if DecimalTree(a) {
      var ps := SpellTokens(ts);
      assert Prints(a, ps, []);
    }
    if ps: seq<Piece>, tail: string :| Prints(a, ps, tail) {
      forall i | 0 <= i < |ts| ensures DecimalToken(ts[i]) {
        assert ts[i] == ps[i].token && SpelledOut(ps[i]);
        if ts[i].Num? { SpellingExactly(ts[i].v); }
      }
    }
  }
}
