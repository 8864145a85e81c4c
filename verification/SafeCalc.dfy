/**
 * The recursive-descent arithmetic evaluator of
 * crates/amplihack-agent-core/src/safe_calc.rs, on exact reals.
 *
 * The documented grammar is given as derivation trees; the parser's methods are
 * proved to accept exactly the yields of those trees and to compute their values.
 */
module SafeCalc {
  import opened Wrappers

  datatype Token = Num(v: real) | Plus | Minus | Star | Slash | LParen | RParen

  datatype Error =
    | UnexpectedToken(pos: nat)
    | UnexpectedEnd
    | MissingClosingParen
    | ExpectedClosingParen
    | DivisionByZero
    | InvalidNumber(text: string)
    | UnexpectedCharacter(c: char)

  // ----- the grammar -----

  /** expr = term (('+' | '-') term)*, each further term extending the tree on the right. */
  datatype Expr = OneTerm(term: Term) | AddSub(left: Expr, subtract: bool, right: Term)

  /** term = unary (('*' | '/') unary)* */
  datatype Term = OneUnary(unary: Unary) | MulDiv(left: Term, divide: bool, right: Unary)

  /** unary = ('-' | '+')? primary */
  datatype Unary = Unary(sign: Sign, operand: Primary)

  datatype Sign = NoSign | PlusSign | MinusSign

  /** primary = number | '(' expr ')' */
  datatype Primary = Number(v: real) | Parens(e: Expr)

  function YieldExpr(e: Expr): (ts: seq<Token>)
    ensures ts != []
  {
    match e
    case OneTerm(t) => YieldTerm(t)
    case AddSub(l, subtract, r) => YieldExpr(l) + [if subtract then Minus else Plus] + YieldTerm(r)
  }

  function YieldTerm(t: Term): (ts: seq<Token>)
    ensures ts != []
  {
    match t
    case OneUnary(u) => YieldUnary(u)
    case MulDiv(l, divide, r) => YieldTerm(l) + [if divide then Slash else Star] + YieldUnary(r)
  }

  function YieldUnary(u: Unary): (ts: seq<Token>)
    ensures ts != []
  {
    match u.sign
    case NoSign => YieldPrimary(u.operand)
    case PlusSign => [Plus] + YieldPrimary(u.operand)
    case MinusSign => [Minus] + YieldPrimary(u.operand)
  }

  function YieldPrimary(p: Primary): (ts: seq<Token>)
    ensures ts != []
  {
    match p
    case Number(v) => [Num(v)]
    case Parens(e) => [LParen] + YieldExpr(e) + [RParen]
  }

  /** The value of a derivation, or none when some divisor in it is zero. */
  function ValueExpr(e: Expr): Option<real> {
    match e
    case OneTerm(t) => ValueTerm(t)
    case AddSub(l, subtract, r) =>
      (match (ValueExpr(l), ValueTerm(r))
       case (Some(a), Some(b)) => Some(if subtract then a - b else a + b)
       case _ => None)
  }

  function ValueTerm(t: Term): Option<real> {
    match t
    case OneUnary(u) => ValueUnary(u)
    case MulDiv(l, divide, r) =>
      (match (ValueTerm(l), ValueUnary(r))
       case (Some(a), Some(b)) => if !divide then Some(Times(a, b)) else if b == 0.0 then None else Some(Over(a, b))
       case _ => None)
  }

  function Times(a: real, b: real): real {
    a * b
  }

  function Over(a: real, b: real): real
    requires b != 0.0
  {
    a / b
  }

  function ValueUnary(u: Unary): Option<real> {
    match (u.sign, ValuePrimary(u.operand))
    case (MinusSign, Some(v)) => Some(-v)
    case (_, v) => v
  }

  function ValuePrimary(p: Primary): Option<real> {
    match p
    case Number(v) => Some(v)
    case Parens(e) => ValueExpr(e)
  }

  // ----- the tree a token list has from a position on -----

  /** The tree and the position after it, or the error and the position it is found at. */
  type Tree<T> = Result<(T, nat), (Error, nat)>

  predicate Spans(ts: seq<Token>, pos: nat, n: nat, yielded: seq<Token>) {
    pos <= n <= |ts| && ts[pos..n] == yielded
  }

  function TreeExpr(ts: seq<Token>, pos: nat): (r: Tree<Expr>)
    requires pos <= |ts|
    ensures r.Ok? ==> pos < r.value.1 && Spans(ts, pos, r.value.1, YieldExpr(r.value.0))
    ensures r.Err? ==> pos <= r.error.1 <= |ts|
    decreases |ts| - pos, 4
  {
    match TreeTerm(ts, pos)
    case Err(e) => Err(e)
    case Ok((t, n)) => MoreTerms(ts, OneTerm(t), pos, n)
  }

  /** The longest chain of further terms after `left`, which spans start..pos. */
  function MoreTerms(ts: seq<Token>, left: Expr, start: nat, pos: nat): (r: Tree<Expr>)
    requires start <= pos <= |ts| && YieldExpr(left) == ts[start..pos]
    ensures r.Ok? ==> pos <= r.value.1 && Spans(ts, start, r.value.1, YieldExpr(r.value.0))
    ensures r.Err? ==> pos <= r.error.1 <= |ts|
    decreases |ts| - pos, 0
  {
    if pos < |ts| && (ts[pos].Plus? || ts[pos].Minus?) then
      match TreeTerm(ts, pos + 1)
      case Err(e) => Err(e)
      case Ok((t, n)) =>
        assert ts[start..n] == ts[start..pos] + [ts[pos]] + ts[pos + 1..n];
        MoreTerms(ts, AddSub(left, ts[pos].Minus?, t), start, n)
    else Ok((left, pos))
  }

  function TreeTerm(ts: seq<Token>, pos: nat): (r: Tree<Term>)
    requires pos <= |ts|
    ensures r.Ok? ==> pos < r.value.1 && Spans(ts, pos, r.value.1, YieldTerm(r.value.0))
    ensures r.Err? ==> pos <= r.error.1 <= |ts|
    decreases |ts| - pos, 3
  {
    match TreeUnary(ts, pos)
    case Err(e) => Err(e)
    case Ok((u, n)) => MoreUnaries(ts, OneUnary(u), pos, n)
  }

  function MoreUnaries(ts: seq<Token>, left: Term, start: nat, pos: nat): (r: Tree<Term>)
    requires start <= pos <= |ts| && YieldTerm(left) == ts[start..pos]
    ensures r.Ok? ==> pos <= r.value.1 && Spans(ts, start, r.value.1, YieldTerm(r.value.0))
    ensures r.Err? ==> pos <= r.error.1 <= |ts|
    decreases |ts| - pos, 0
  {
    if pos < |ts| && (ts[pos].Star? || ts[pos].Slash?) then
      match TreeUnary(ts, pos + 1)
      case Err(e) => Err(e)
      case Ok((u, n)) =>
        assert ts[start..n] == ts[start..pos] + [ts[pos]] + ts[pos + 1..n];
        MoreUnaries(ts, MulDiv(left, ts[pos].Slash?, u), start, n)
    else Ok((left, pos))
  }

  function TreeUnary(ts: seq<Token>, pos: nat): (r: Tree<Unary>)
    requires pos <= |ts|
    ensures r.Ok? ==> pos < r.value.1 && Spans(ts, pos, r.value.1, YieldUnary(r.value.0))
    ensures r.Err? ==> pos <= r.error.1 <= |ts|
    decreases |ts| - pos, 2
  {
    if pos == |ts| then Err((UnexpectedEnd, pos)) else
    var sign := if ts[pos].Minus? then MinusSign else if ts[pos].Plus? then PlusSign else NoSign;
    match TreePrimary(ts, if sign.NoSign? then pos else pos + 1)
    case Err(e) => Err(e)
    case Ok((p, n)) => Ok((Unary(sign, p), n))
  }

  function TreePrimary(ts: seq<Token>, pos: nat): (r: Tree<Primary>)
    requires pos <= |ts|
    ensures r.Ok? ==> pos < r.value.1 && Spans(ts, pos, r.value.1, YieldPrimary(r.value.0))
    ensures r.Err? ==> pos <= r.error.1 <= |ts|
    decreases |ts| - pos, 1
  {
    if pos == |ts| then Err((UnexpectedEnd, pos)) else
    match ts[pos]
    case Num(v) => Ok((Number(v), pos + 1))
    case LParen =>
      (match TreeExpr(ts, pos + 1)
       case Err(e) => Err(e)
       case Ok((e, n)) =>
         if n == |ts| then Err((MissingClosingParen, n))
         else if !ts[n].RParen? then Err((ExpectedClosingParen, n))
         else Ok((Parens(e), n + 1)))
    case _ => Err((UnexpectedToken(pos), pos))
  }

  // ----- every derivation is found -----

  /** Where a joined list is split. */
  lemma Joined(ts: seq<Token>, pos: nat, n: nat, a: seq<Token>, t: Token, b: seq<Token>)
    requires Spans(ts, pos, n, a + [t] + b)
    ensures pos + |a| < n && Spans(ts, pos, pos + |a|, a) && ts[pos + |a|] == t && Spans(ts, pos + |a| + 1, n, b)
  {
    var m := pos + |a|;
    assert ts[pos..n][..m - pos] == ts[pos..m] && ts[pos..n][m - pos] == ts[m];
    assert ts[pos..n][m - pos + 1..] == ts[m + 1..n];
  }

  lemma {:induction false} ExprFound(e: Expr, ts: seq<Token>, pos: nat, n: nat)
    requires Spans(ts, pos, n, YieldExpr(e))
    requires n == |ts| || !(ts[n].Star? || ts[n].Slash?)
    ensures TreeExpr(ts, pos) == MoreTerms(ts, e, pos, n)
    decreases e
  {
    match e
    case OneTerm(t) => TermFound(t, ts, pos, n);
    case AddSub(l, subtract, r) =>
      var m := pos + |YieldExpr(l)|;
      Joined(ts, pos, n, YieldExpr(l), if subtract then Minus else Plus, YieldTerm(r));
      ExprFound(l, ts, pos, m);
      TermFound(r, ts, m + 1, n);
  }

  lemma {:induction false} TermFound(t: Term, ts: seq<Token>, pos: nat, n: nat)
    requires Spans(ts, pos, n, YieldTerm(t))
    ensures TreeTerm(ts, pos) == MoreUnaries(ts, t, pos, n)
    decreases t
  {
    match t
    case OneUnary(u) => UnaryFound(u, ts, pos, n);
    case MulDiv(l, divide, r) =>
      var m := pos + |YieldTerm(l)|;
      Joined(ts, pos, n, YieldTerm(l), if divide then Slash else Star, YieldUnary(r));
      TermFound(l, ts, pos, m);
      UnaryFound(r, ts, m + 1, n);
      ExtendTerm(ts, l, pos, m);
  }

  lemma {:induction false} UnaryFound(u: Unary, ts: seq<Token>, pos: nat, n: nat)
    requires Spans(ts, pos, n, YieldUnary(u))
    ensures TreeUnary(ts, pos) == Ok((u, n))
    decreases u
  {
    assert ts[pos] == ts[pos..n][0];
    if u.sign.NoSign? {
      PrimaryFound(u.operand, ts, pos, n);
    } else {
      assert ts[pos + 1..n] == ts[pos..n][1..];
      PrimaryFound(u.operand, ts, pos + 1, n);
    }
  }

  lemma {:induction false} PrimaryFound(p: Primary, ts: seq<Token>, pos: nat, n: nat)
    requires Spans(ts, pos, n, YieldPrimary(p))
    ensures TreePrimary(ts, pos) == Ok((p, n))
    decreases p
  {
    assert ts[pos] == ts[pos..n][0];
    if p.Parens? {
      assert ts[n - 1] == ts[pos..n][n - 1 - pos];
      var inner := ts[pos + 1..n - 1];
      assert ts[pos..n] == [ts[pos]] + inner + [ts[n - 1]];
      assert inner == YieldPrimary(p)[1..n - 1 - pos] == YieldExpr(p.e);
      ExprFound(p.e, ts, pos + 1, n - 1);
    }
  }

  /** The tree of a whole token list, or the error and where it is found. */
  function WholeTree(ts: seq<Token>): (r: Result<Expr, (Error, nat)>)
    ensures forall e :: r == Ok(e) ==> YieldExpr(e) == ts
    ensures r.Err? ==> r.error.1 <= |ts|
  {
    match TreeExpr(ts, 0)
    case Err(e) => Err(e)
    case Ok((e, n)) =>
      assert ts[0..|ts|] == ts;
      if n < |ts| then Err((UnexpectedToken(n), n)) else Ok(e)
  }

  /** A token list has at most one derivation, and the descent finds it exactly when there is one. */
  lemma {:induction false} DerivationExactly(ts: seq<Token>, e: Expr)
    ensures WholeTree(ts) == Ok(e) <==> YieldExpr(e) == ts
  {
    assert ts[0..|ts|] == ts;
    if YieldExpr(e) == ts {
      ExprFound(e, ts, 0, |ts|);
    }
  }

  lemma {:induction false} DerivationUnique(e: Expr, f: Expr)
    requires YieldExpr(e) == YieldExpr(f)
    ensures e == f
  {
    DerivationExactly(YieldExpr(e), e);
    DerivationExactly(YieldExpr(f), f);
  }

  // ----- where a divisor is zero -----

  /** At p stands a division sign, and behind it an operand of value zero. */
  ghost predicate ZeroDivisor(ts: seq<Token>, p: nat) {
    p < |ts| && ts[p].Slash? && exists u, n: nat :: ZeroOperand(ts, p, n, u)
  }

  predicate ZeroOperand(ts: seq<Token>, p: nat, n: nat, u: Unary) {
    Spans(ts, p + 1, n, YieldUnary(u)) && ValueUnary(u) == Some(0.0)
  }

  /** So it is somewhere from a up to but not at b. */
  ghost predicate ZeroDivided(ts: seq<Token>, a: nat, b: nat) {
    exists p :: a <= p < b && ZeroDivisor(ts, p)
  }

  lemma ZeroDividedSplits(ts: seq<Token>, a: nat, b: nat, c: nat)
    requires a <= b < c
    ensures ZeroDivided(ts, a, c) <==> ZeroDivided(ts, a, b) || ZeroDivisor(ts, b) || ZeroDivided(ts, b + 1, c)
  {
  }

  /** The operand behind a division sign is the one the descent reads. */
  lemma ZeroDivisorRead(ts: seq<Token>, p: nat)
    requires p < |ts| && ts[p].Slash?
    ensures ZeroDivisor(ts, p) <==>
            TreeUnary(ts, p + 1).Ok? && ValueUnary(TreeUnary(ts, p + 1).value.0) == Some(0.0)
  {
    if u, n: nat :| ZeroOperand(ts, p, n, u) { UnaryFound(u, ts, p + 1, n); }
    if TreeUnary(ts, p + 1).Ok? {
      var (u, n) := TreeUnary(ts, p + 1).value;
      assert ValueUnary(u) == Some(0.0) ==> ZeroOperand(ts, p, n, u);
    }
  }

  lemma NoneBetween(ts: seq<Token>, a: nat)
    ensures !ZeroDivided(ts, a, a)
    ensures a < |ts| && !ts[a].Slash? ==> !ZeroDivisor(ts, a) && !ZeroDivided(ts, a, a + 1)
  {
  }

  /** A derivation has no value exactly when one of its divisors is zero. */
  lemma {:induction false} NoValueExpr(e: Expr, ts: seq<Token>, pos: nat, n: nat)
    requires Spans(ts, pos, n, YieldExpr(e))
    ensures ValueExpr(e) == None <==> ZeroDivided(ts, pos, n)
    decreases e
  {
    match e
    case OneTerm(t) => NoValueTerm(t, ts, pos, n);
    case AddSub(l, subtract, r) =>
      var m := pos + |YieldExpr(l)|;
      Joined(ts, pos, n, YieldExpr(l), if subtract then Minus else Plus, YieldTerm(r));
      NoValueExpr(l, ts, pos, m);
      NoValueTerm(r, ts, m + 1, n);
      NoneBetween(ts, m);
      ZeroDividedSplits(ts, pos, m, n);
  }

  lemma {:induction false} NoValueTerm(t: Term, ts: seq<Token>, pos: nat, n: nat)
    requires Spans(ts, pos, n, YieldTerm(t))
    ensures ValueTerm(t) == None <==> ZeroDivided(ts, pos, n)
    decreases t
  {
    match t
    case OneUnary(u) => NoValueUnary(u, ts, pos, n);
    case MulDiv(l, divide, r) =>
      var m := pos + |YieldTerm(l)|;
      Joined(ts, pos, n, YieldTerm(l), if divide then Slash else Star, YieldUnary(r));
      NoValueTerm(l, ts, pos, m);
      NoValueUnary(r, ts, m + 1, n);
      UnaryFound(r, ts, m + 1, n);
      if divide { ZeroDivisorRead(ts, m); } else { NoneBetween(ts, m); }
      ZeroDividedSplits(ts, pos, m, n);
  }

  lemma {:induction false} NoValueUnary(u: Unary, ts: seq<Token>, pos: nat, n: nat)
    requires Spans(ts, pos, n, YieldUnary(u))
    ensures ValueUnary(u) == None <==> ZeroDivided(ts, pos, n)
    decreases u
  {
    if u.sign.NoSign? {
      NoValuePrimary(u.operand, ts, pos, n);
    } else {
      var t := if u.sign.PlusSign? then Plus else Minus;
      assert [] + [t] + YieldPrimary(u.operand) == YieldUnary(u);
      Joined(ts, pos, n, [], t, YieldPrimary(u.operand));
      NoValuePrimary(u.operand, ts, pos + 1, n);
      NoneBetween(ts, pos);
      ZeroDividedSplits(ts, pos, pos, n);
    }
  }

  lemma {:induction false} NoValuePrimary(p: Primary, ts: seq<Token>, pos: nat, n: nat)
    requires Spans(ts, pos, n, YieldPrimary(p))
    ensures ValuePrimary(p) == None <==> ZeroDivided(ts, pos, n)
    decreases p
  {
    assert ts[pos] == ts[pos..n][0];
    NoneBetween(ts, pos);
    match p
    case Number(v) =>
    case Parens(e) =>
      assert [] + [LParen] + (YieldExpr(e) + [RParen]) == YieldPrimary(p);
      Joined(ts, pos, n, [], LParen, YieldExpr(e) + [RParen]);
      assert YieldExpr(e) + [RParen] + [] == YieldExpr(e) + [RParen];
      Joined(ts, pos + 1, n, YieldExpr(e), RParen, []);
      NoValueExpr(e, ts, pos + 1, n - 1);
      NoneBetween(ts, n - 1);
      NoneBetween(ts, n);
      ZeroDividedSplits(ts, pos, pos, n);
      ZeroDividedSplits(ts, pos + 1, n - 1, n);
  }

  // ----- the evaluating parser -----

  /**
   * r is the value of the tree read from pos and the position after it; where there is no value or no tree, the
   * error is that of a zero divisor if there is one before the position the descent comes to, and else the tree's.
   */
  ghost predicate Evaluates<T>(
    ts: seq<Token>, pos: nat, tree: Tree<T>, value: T -> Option<real>, r: Result<(real, nat), Error>)
  {
    match tree
    case Ok((t, n)) =>
      r == (match value(t)
            case Some(v) => Ok((v, n))
            case None => Err(DivisionByZero))
    case Err((e, at)) => r == Err(if ZeroDivided(ts, pos, at) then DivisionByZero else e)
  }

  lemma ThreeSlices(ts: seq<Token>, a: nat, b: nat, c: nat)
    requires a <= b < c <= |ts|
    ensures ts[a..c] == ts[a..b] + [ts[b]] + ts[b + 1..c]
  {
  }

  /** A further term extends the tree so far. */
  lemma ExtendExpr(ts: seq<Token>, left: Expr, start: nat, pos: nat)
    requires Spans(ts, start, pos, YieldExpr(left))
    requires pos < |ts| && (ts[pos].Plus? || ts[pos].Minus?) && TreeTerm(ts, pos + 1).Ok?
    ensures var (t, n) := TreeTerm(ts, pos + 1).value;
      && Spans(ts, start, n, YieldExpr(AddSub(left, ts[pos].Minus?, t)))
      && MoreTerms(ts, left, start, pos) == MoreTerms(ts, AddSub(left, ts[pos].Minus?, t), start, n)
  {
    var (t, n) := TreeTerm(ts, pos + 1).value;
    ThreeSlices(ts, start, pos, n);
  }

  lemma {:induction false} NoValueStaysExpr(ts: seq<Token>, left: Expr, start: nat, pos: nat)
    requires Spans(ts, start, pos, YieldExpr(left)) && ValueExpr(left) == None
    ensures Evaluates(ts, start, MoreTerms(ts, left, start, pos), ValueExpr, Err(DivisionByZero))
    decreases |ts| - pos
  {
    NoValueExpr(left, ts, start, pos);
    if pos < |ts| && (ts[pos].Plus? || ts[pos].Minus?) && TreeTerm(ts, pos + 1).Ok? {
      var (t, n) := TreeTerm(ts, pos + 1).value;
      ExtendExpr(ts, left, start, pos);
      NoValueStaysExpr(ts, AddSub(left, ts[pos].Minus?, t), start, n);
    }
  }

  /** The tokens from pos to `at` are read as a tree with a value, and the rest of the sum is to be read. */
  ghost predicate SumSoFar(ts: seq<Token>, pos: nat, at: nat, tree: Expr, left: real) {
    && pos < at && Spans(ts, pos, at, YieldExpr(tree)) && ValueExpr(tree) == Some(left)
    && TreeExpr(ts, pos) == MoreTerms(ts, tree, pos, at)
  }

  lemma SumBegins(ts: seq<Token>, pos: nat, first: Result<(real, nat), Error>)
    requires pos <= |ts| && Evaluates(ts, pos, TreeTerm(ts, pos), ValueTerm, first)
    ensures first.Err? ==> Evaluates(ts, pos, TreeExpr(ts, pos), ValueExpr, Err(first.error))
    ensures first.Ok? ==>
              TreeTerm(ts, pos).Ok?
              && SumSoFar(ts, pos, first.value.1, OneTerm(TreeTerm(ts, pos).value.0), first.value.0)
  {
    if first.Err? && TreeTerm(ts, pos).Ok? {
      var (t, n) := TreeTerm(ts, pos).value;
      NoValueStaysExpr(ts, OneTerm(t), pos, n);
    }
  }

  /** A further term that cannot be read is the whole one's error. */
  lemma SumFails(ts: seq<Token>, pos: nat, at: nat, tree: Expr, left: real)
    requires SumSoFar(ts, pos, at, tree, left) && at < |ts| && (ts[at].Plus? || ts[at].Minus?)
    requires TreeTerm(ts, at + 1).Err?
    ensures TreeExpr(ts, pos) == Err(TreeTerm(ts, at + 1).error)
    ensures var stop := TreeTerm(ts, at + 1).error.1; ZeroDivided(ts, pos, stop) <==> ZeroDivided(ts, at + 1, stop)
  {
    NoValueExpr(tree, ts, pos, at);
    NoneBetween(ts, at);
    ZeroDividedSplits(ts, pos, at, TreeTerm(ts, at + 1).error.1);
  }

  /** A further term that is in error makes the whole one; a further value joins the value so far. */
  lemma SumGoesOn(
    ts: seq<Token>, pos: nat, at: nat, tree: Expr, left: real, next: Result<(real, nat), Error>)
    requires SumSoFar(ts, pos, at, tree, left) && at < |ts| && (ts[at].Plus? || ts[at].Minus?)
    requires Evaluates(ts, at + 1, TreeTerm(ts, at + 1), ValueTerm, next)
    ensures next.Err? ==> Evaluates(ts, pos, TreeExpr(ts, pos), ValueExpr, Err(next.error))
    ensures next.Ok? ==>
              TreeTerm(ts, at + 1).Ok?
              && SumSoFar(ts, pos, next.value.1, AddSub(tree, ts[at].Minus?, TreeTerm(ts, at + 1).value.0),
                          if ts[at].Minus? then left - next.value.0 else left + next.value.0)
  {
    if TreeTerm(ts, at + 1).Ok? {
      var (t, n) := TreeTerm(ts, at + 1).value;
      ExtendExpr(ts, tree, pos, at);
      if next.Err? { NoValueStaysExpr(ts, AddSub(tree, ts[at].Minus?, t), pos, n); }
    } else {
      SumFails(ts, pos, at, tree, left);
    }
  }

  /** A further factor extends the tree so far. */
  lemma ExtendTerm(ts: seq<Token>, left: Term, start: nat, pos: nat)
    requires Spans(ts, start, pos, YieldTerm(left))
    requires pos < |ts| && (ts[pos].Star? || ts[pos].Slash?) && TreeUnary(ts, pos + 1).Ok?
    ensures var (t, n) := TreeUnary(ts, pos + 1).value;
      && Spans(ts, start, n, YieldTerm(MulDiv(left, ts[pos].Slash?, t)))
      && MoreUnaries(ts, left, start, pos) == MoreUnaries(ts, MulDiv(left, ts[pos].Slash?, t), start, n)
  {
    var (t, n) := TreeUnary(ts, pos + 1).value;
    ThreeSlices(ts, start, pos, n);
  }

  lemma {:induction false} NoValueStaysTerm(ts: seq<Token>, left: Term, start: nat, pos: nat)
    requires Spans(ts, start, pos, YieldTerm(left)) && ValueTerm(left) == None
    ensures Evaluates(ts, start, MoreUnaries(ts, left, start, pos), ValueTerm, Err(DivisionByZero))
    decreases |ts| - pos
  {
    NoValueTerm(left, ts, start, pos);
    if pos < |ts| && (ts[pos].Star? || ts[pos].Slash?) && TreeUnary(ts, pos + 1).Ok? {
      var (t, n) := TreeUnary(ts, pos + 1).value;
      ExtendTerm(ts, left, start, pos);
      NoValueStaysTerm(ts, MulDiv(left, ts[pos].Slash?, t), start, n);
    }
  }

  /** The tokens from pos to `at` are read as a tree with a value, and the rest of the product is to be read. */
  ghost predicate ProductSoFar(ts: seq<Token>, pos: nat, at: nat, tree: Term, left: real) {
    && pos < at && Spans(ts, pos, at, YieldTerm(tree)) && ValueTerm(tree) == Some(left)
    && TreeTerm(ts, pos) == MoreUnaries(ts, tree, pos, at)
  }

  lemma ProductBegins(ts: seq<Token>, pos: nat, first: Result<(real, nat), Error>)
    requires pos <= |ts| && Evaluates(ts, pos, TreeUnary(ts, pos), ValueUnary, first)
    ensures first.Err? ==> Evaluates(ts, pos, TreeTerm(ts, pos), ValueTerm, Err(first.error))
    ensures first.Ok? ==>
              TreeUnary(ts, pos).Ok?
              && ProductSoFar(ts, pos, first.value.1, OneUnary(TreeUnary(ts, pos).value.0), first.value.0)
  {
    if first.Err? && TreeUnary(ts, pos).Ok? {
      var (t, n) := TreeUnary(ts, pos).value;
      NoValueStaysTerm(ts, OneUnary(t), pos, n);
    }
  }

  /** A further factor that cannot be read is the whole one's error. */
  lemma ProductFails(ts: seq<Token>, pos: nat, at: nat, tree: Term, left: real)
    requires ProductSoFar(ts, pos, at, tree, left) && at < |ts| && (ts[at].Star? || ts[at].Slash?)
    requires TreeUnary(ts, at + 1).Err?
    ensures TreeTerm(ts, pos) == Err(TreeUnary(ts, at + 1).error)
    ensures var stop := TreeUnary(ts, at + 1).error.1; ZeroDivided(ts, pos, stop) <==> ZeroDivided(ts, at + 1, stop)
  {
    NoValueTerm(tree, ts, pos, at);
    if ts[at].Slash? { ZeroDivisorRead(ts, at); } else { NoneBetween(ts, at); }
    ZeroDividedSplits(ts, pos, at, TreeUnary(ts, at + 1).error.1);
  }

  /** A further factor that is in error makes the whole one; a further value joins the value so far. */
  lemma ProductGoesOn(
    ts: seq<Token>, pos: nat, at: nat, tree: Term, left: real, next: Result<(real, nat), Error>)
    requires ProductSoFar(ts, pos, at, tree, left) && at < |ts| && (ts[at].Star? || ts[at].Slash?)
    requires Evaluates(ts, at + 1, TreeUnary(ts, at + 1), ValueUnary, next)
    ensures next.Err? ==> Evaluates(ts, pos, TreeTerm(ts, pos), ValueTerm, Err(next.error))
    ensures next.Ok? && ts[at].Slash? && next.value.0 == 0.0 ==>
              Evaluates(ts, pos, TreeTerm(ts, pos), ValueTerm, Err(DivisionByZero))
    ensures next.Ok? && !(ts[at].Slash? && next.value.0 == 0.0) ==>
              TreeUnary(ts, at + 1).Ok?
              && ProductSoFar(ts, pos, next.value.1, MulDiv(tree, ts[at].Slash?, TreeUnary(ts, at + 1).value.0),
                              if ts[at].Slash? then Over(left, next.value.0) else Times(left, next.value.0))
  {
    if TreeUnary(ts, at + 1).Ok? {
      var (u, n) := TreeUnary(ts, at + 1).value;
      ExtendTerm(ts, tree, pos, at);
      if next.Err? || (ts[at].Slash? && next.value.0 == 0.0) {
        NoValueStaysTerm(ts, MulDiv(tree, ts[at].Slash?, u), pos, n);
      }
    } else {
      ProductFails(ts, pos, at, tree, left);
    }
  }

  /** A sign in front of an operand in error. */
  lemma SignBefore(ts: seq<Token>, pos: nat)
    requires pos < |ts| && (ts[pos].Plus? || ts[pos].Minus?) && TreePrimary(ts, pos + 1).Err?
    ensures var at := TreePrimary(ts, pos + 1).error.1;
      ZeroDivided(ts, pos, at) <==> ZeroDivided(ts, pos + 1, at)
  {
    NoneBetween(ts, pos);
    ZeroDividedSplits(ts, pos, pos, TreePrimary(ts, pos + 1).error.1);
  }

  /** An opening parenthesis in front of an expression, in error or not. */
  lemma ParenBefore(ts: seq<Token>, pos: nat)
    requires pos < |ts| && ts[pos].LParen?
    ensures match TreeExpr(ts, pos + 1)
            case Ok((e, n)) => ValueExpr(e) == None <==> ZeroDivided(ts, pos, n)
            case Err((_, at)) => ZeroDivided(ts, pos, at) <==> ZeroDivided(ts, pos + 1, at)
  {
    NoneBetween(ts, pos);
    match TreeExpr(ts, pos + 1)
    case Ok((e, n)) =>
      NoValueExpr(e, ts, pos + 1, n);
      ZeroDividedSplits(ts, pos, pos, n);
    case Err((_, at)) => ZeroDividedSplits(ts, pos, pos, at);
  }

  method ParseExpr(ts: seq<Token>, pos: nat) returns (r: Result<(real, nat), Error>)
    requires pos <= |ts|
    ensures Evaluates(ts, pos, TreeExpr(ts, pos), ValueExpr, r)
    decreases |ts| - pos, 4
  {
    var first := ParseTerm(ts, pos);
    SumBegins(ts, pos, first);
    if first.Err? {
      return Err(first.error);
    }
    var (left, at) := first.value;
    ghost var tree := OneTerm(TreeTerm(ts, pos).value.0);
    while at < |ts|
      invariant SumSoFar(ts, pos, at, tree, left)
    {
      if !ts[at].Plus? && !ts[at].Minus? {
        break;
      }
      var subtract := ts[at].Minus?;
      var next := ParseTerm(ts, at + 1);
      SumGoesOn(ts, pos, at, tree, left, next);
      if next.Err? {
        return Err(next.error);
      }
      tree := AddSub(tree, subtract, TreeTerm(ts, at + 1).value.0);
      left := if subtract then left - next.value.0 else left + next.value.0;
      at := next.value.1;
    }
    return Ok((left, at));
  }

  method ParseTerm(ts: seq<Token>, pos: nat) returns (r: Result<(real, nat), Error>)
    requires pos <= |ts|
    ensures Evaluates(ts, pos, TreeTerm(ts, pos), ValueTerm, r)
    decreases |ts| - pos, 3
  {
    var first := ParseUnary(ts, pos);
    ProductBegins(ts, pos, first);
    if first.Err? {
      return Err(first.error);
    }
    var (left, at) := first.value;
    ghost var tree := OneUnary(TreeUnary(ts, pos).value.0);
    while at < |ts|
      invariant ProductSoFar(ts, pos, at, tree, left)
    {
      if !ts[at].Star? && !ts[at].Slash? {
        break;
      }
      var divide := ts[at].Slash?;
      var next := ParseUnary(ts, at + 1);
      ProductGoesOn(ts, pos, at, tree, left, next);
      if next.Err? {
        return Err(next.error);
      }
      if divide && next.value.0 == 0.0 {
        return Err(DivisionByZero);
      }
      tree := MulDiv(tree, divide, TreeUnary(ts, at + 1).value.0);
      left := if divide then Over(left, next.value.0) else Times(left, next.value.0);
      at := next.value.1;
    }
    return Ok((left, at));
  }

  method ParseUnary(ts: seq<Token>, pos: nat) returns (r: Result<(real, nat), Error>)
    requires pos <= |ts|
    ensures Evaluates(ts, pos, TreeUnary(ts, pos), ValueUnary, r)
    decreases |ts| - pos, 2
  {
    NoneBetween(ts, pos);
    if pos == |ts| {
      return Err(UnexpectedEnd);
    }
    if (ts[pos].Minus? || ts[pos].Plus?) && TreePrimary(ts, pos + 1).Err? { SignBefore(ts, pos); }
    match ts[pos]
    case Minus =>
      r := ParsePrimary(ts, pos + 1);
      if r.Ok? { r := Ok((-r.value.0, r.value.1)); }
    case Plus => r := ParsePrimary(ts, pos + 1);
    case _ => r := ParsePrimary(ts, pos);
  }

  method ParsePrimary(ts: seq<Token>, pos: nat) returns (r: Result<(real, nat), Error>)
    requires pos <= |ts|
    ensures Evaluates(ts, pos, TreePrimary(ts, pos), ValuePrimary, r)
    decreases |ts| - pos, 1
  {
    NoneBetween(ts, pos);
    if pos >= |ts| {
      return Err(UnexpectedEnd);
    }
    match ts[pos]
    case Num(v) => return Ok((v, pos + 1));
    case LParen =>
      ParenBefore(ts, pos);
      r := ParseExpr(ts, pos + 1);
      if r.Err? { return; }
      var (v, n) := r.value;
      if n >= |ts| { return Err(MissingClosingParen); }
      if !ts[n].RParen? { return Err(ExpectedClosingParen); }
      return Ok((v, n + 1));
    case _ => return Err(UnexpectedToken(pos));
  }
}
