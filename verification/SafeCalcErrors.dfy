/**
 * Which error the descent of crates/amplihack-agent-core/src/safe_calc.rs reports for
 * tokens that are no expression, in terms of the grammar alone: it comes to the first
 * token with which no expression goes on, and names what is wrong there.
 */
module SafeCalcErrors {
  import opened Wrappers
  import opened SafeCalc

  ghost predicate IsSum(ts: seq<Token>) {
    exists e :: YieldExpr(e) == ts
  }

  /** Some expression begins with these tokens. */
  ghost predicate Viable(ts: seq<Token>) {
    exists rest :: IsSum(ts + rest)
  }

  /** An operand may come next. */
  ghost predicate AwaitsOperand(ts: seq<Token>) {
    Viable(ts + [Num(0.0)])
  }

  /** The error at a position where tokens stop being the beginning of an expression. */
  ghost function ErrorThere(ts: seq<Token>, at: nat): Error
    requires at <= |ts|
  {
    if AwaitsOperand(ts[..at]) then if at == |ts| then UnexpectedEnd else UnexpectedToken(at)
    else if IsSum(ts[..at]) then UnexpectedToken(at)
    else if at == |ts| then MissingClosingParen
    else ExpectedClosingParen
  }

  /** ts is no expression, and `at` is the length of the longest beginning of it that one begins with. */
  ghost predicate Stops(ts: seq<Token>, error: Error, at: nat) {
    && at <= |ts| && !IsSum(ts) && Viable(ts[..at]) && (at < |ts| ==> !Viable(ts[..at + 1]))
    && error == ErrorThere(ts, at)
  }

  // ----- the descent looks no further than where it stops -----

  function Stop<T>(r: Tree<T>): nat {
    match r
    case Ok((_, n)) => n
    case Err((_, at)) => at
  }

  /** Nothing was read in part but what lacks a closing parenthesis. */
  predicate Closed<T>(r: Tree<T>) {
    r.Ok? || r.error.0.MissingClosingParen? || r.error.0.ExpectedClosingParen?
  }

  /** The same with a token behind. */
  function Moved<T>(r: Tree<T>): Tree<T> {
    if r.Err? && r.error.0.MissingClosingParen? then Err((ExpectedClosingParen, r.error.1)) else r
  }

  predicate Agree(ts: seq<Token>, us: seq<Token>, k: nat) {
    k <= |ts| && k < |us| && forall i :: 0 <= i < k ==> us[i] == ts[i]
  }

  /** us goes on from where the descent stops in ts with the same token, or with a number after something closed. */
  predicate Follows(ts: seq<Token>, us: seq<Token>, k: nat, closed: bool) {
    Agree(ts, us, k) && ((k < |ts| && us[k] == ts[k]) || (us[k].Num? && closed))
  }

  lemma FollowsEarlier(ts: seq<Token>, us: seq<Token>, n: nat, k: nat, closed: bool)
    requires Follows(ts, us, k, closed) && n <= k
    ensures Agree(ts, us, n) && (n < k ==> Follows(ts, us, n, true) && Follows(ts, us, n, false))
  {
  }

  /** The same for a part of what was read. */
  lemma FollowsPart(ts: seq<Token>, us: seq<Token>, n: nat, part: bool, k: nat, closed: bool)
    requires Follows(ts, us, k, closed) && n <= k && (n == k && closed ==> part)
    ensures Follows(ts, us, n, part)
  {
  }

  lemma AgreeSlice(ts: seq<Token>, us: seq<Token>, start: nat, k: nat)
    requires Agree(ts, us, k) && start <= k
    ensures us[start..k] == ts[start..k]
  {
  }

  lemma {:induction false} SameExpr(ts: seq<Token>, us: seq<Token>, pos: nat)
    requires pos <= |ts| && Follows(ts, us, Stop(TreeExpr(ts, pos)), Closed(TreeExpr(ts, pos)))
    ensures pos <= |us| && TreeExpr(us, pos) == Moved(TreeExpr(ts, pos))
    decreases |ts| - pos, 4
  {
    var r := TreeExpr(ts, pos);
    if TreeTerm(ts, pos).Ok? {
      var (t, n) := TreeTerm(ts, pos).value;
      FollowsEarlier(ts, us, n, Stop(r), Closed(r));
      SameTerm(ts, us, pos);
      AgreeSlice(ts, us, pos, n);
      SameTerms(ts, us, OneTerm(t), pos, n, r);
    } else {
      SameTerm(ts, us, pos);
    }
  }

  lemma TermsEnd(ts: seq<Token>, us: seq<Token>, left: Expr, start: nat, pos: nat)
    requires Spans(ts, start, pos, YieldExpr(left)) && Spans(us, start, pos, YieldExpr(left))
    requires Follows(ts, us, pos, true) && !(pos < |ts| && (ts[pos].Plus? || ts[pos].Minus?))
    ensures MoreTerms(us, left, start, pos) == MoreTerms(ts, left, start, pos) == Ok((left, pos))
  {
  }

  lemma TermsFail(ts: seq<Token>, us: seq<Token>, left: Expr, start: nat, pos: nat)
    requires Spans(ts, start, pos, YieldExpr(left)) && Spans(us, start, pos, YieldExpr(left))
    requires pos < |ts| && pos < |us| && us[pos] == ts[pos] && (ts[pos].Plus? || ts[pos].Minus?)
    requires TreeTerm(ts, pos + 1).Err? && TreeTerm(us, pos + 1) == Moved(TreeTerm(ts, pos + 1))
    ensures MoreTerms(us, left, start, pos) == Moved(MoreTerms(ts, left, start, pos))
  {
  }

  lemma TermsFurther(ts: seq<Token>, us: seq<Token>, left: Expr, start: nat, pos: nat)
    returns (further: Expr, n: nat)
    requires Spans(ts, start, pos, YieldExpr(left)) && Spans(us, start, pos, YieldExpr(left))
    requires pos < |ts| && pos < |us| && us[pos] == ts[pos] && (ts[pos].Plus? || ts[pos].Minus?)
    requires TreeTerm(ts, pos + 1).Ok? && TreeTerm(us, pos + 1) == TreeTerm(ts, pos + 1)
    ensures n == TreeTerm(ts, pos + 1).value.1 && pos < n
    ensures Spans(ts, start, n, YieldExpr(further)) && Spans(us, start, n, YieldExpr(further))
    ensures MoreTerms(ts, left, start, pos) == MoreTerms(ts, further, start, n)
    ensures MoreTerms(us, left, start, pos) == MoreTerms(us, further, start, n)
  {
    further, n := AddSub(left, ts[pos].Minus?, TreeTerm(ts, pos + 1).value.0), TreeTerm(ts, pos + 1).value.1;
    ExtendExpr(ts, left, start, pos);
    ExtendExpr(us, left, start, pos);
  }

  lemma TermsStop(ts: seq<Token>, left: Expr, start: nat, pos: nat)
    requires Spans(ts, start, pos, YieldExpr(left)) && pos < |ts| && (ts[pos].Plus? || ts[pos].Minus?)
    ensures var next, r := TreeTerm(ts, pos + 1), MoreTerms(ts, left, start, pos);
      pos < Stop(next) <= Stop(r) && (next.Err? ==> Stop(r) == Stop(next) && Closed(r) == Closed(next))
  {
    if TreeTerm(ts, pos + 1).Ok? { ExtendExpr(ts, left, start, pos); }
  }

  lemma {:induction false} SameNextTerm(
    ts: seq<Token>, us: seq<Token>, left: Expr, start: nat, pos: nat, r: Tree<Expr>)
    requires Spans(ts, start, pos, YieldExpr(left)) && r == MoreTerms(ts, left, start, pos)
    requires Follows(ts, us, Stop(r), Closed(r)) && pos < |ts| && (ts[pos].Plus? || ts[pos].Minus?)
    ensures pos < |us| && us[pos] == ts[pos] && TreeTerm(us, pos + 1) == Moved(TreeTerm(ts, pos + 1))
    decreases |ts| - pos, 0
  {
    var next := TreeTerm(ts, pos + 1);
    TermsStop(ts, left, start, pos);
    FollowsPart(ts, us, Stop(next), Closed(next), Stop(r), Closed(r));
    SameTerm(ts, us, pos + 1);
  }

  lemma {:induction false} SameTerms(
    ts: seq<Token>, us: seq<Token>, left: Expr, start: nat, pos: nat, r: Tree<Expr>)
    requires Spans(ts, start, pos, YieldExpr(left)) && r == MoreTerms(ts, left, start, pos)
    requires Follows(ts, us, Stop(r), Closed(r))
    ensures Spans(us, start, pos, YieldExpr(left)) && MoreTerms(us, left, start, pos) == Moved(r)
    decreases |ts| - pos, 1
  {
    FollowsEarlier(ts, us, pos, Stop(r), Closed(r));
    AgreeSlice(ts, us, start, pos);
    if pos < |ts| && (ts[pos].Plus? || ts[pos].Minus?) {
      SameNextTerm(ts, us, left, start, pos, r);
      if TreeTerm(ts, pos + 1).Ok? {
        var further, n := TermsFurther(ts, us, left, start, pos);
        SameTerms(ts, us, further, start, n, r);
      } else {
        TermsFail(ts, us, left, start, pos);
      }
    } else {
      TermsEnd(ts, us, left, start, pos);
    }
  }

  lemma {:induction false} SameTerm(ts: seq<Token>, us: seq<Token>, pos: nat)
    requires pos <= |ts| && Follows(ts, us, Stop(TreeTerm(ts, pos)), Closed(TreeTerm(ts, pos)))
    ensures pos <= |us| && TreeTerm(us, pos) == Moved(TreeTerm(ts, pos))
    decreases |ts| - pos, 3
  {
    var r := TreeTerm(ts, pos);
    if TreeUnary(ts, pos).Ok? {
      var (u, n) := TreeUnary(ts, pos).value;
      FollowsEarlier(ts, us, n, Stop(r), Closed(r));
      SameUnary(ts, us, pos);
      AgreeSlice(ts, us, pos, n);
      SameUnaries(ts, us, OneUnary(u), pos, n, r);
    } else {
      SameUnary(ts, us, pos);
    }
  }

  lemma UnariesEnd(ts: seq<Token>, us: seq<Token>, left: Term, start: nat, pos: nat)
    requires Spans(ts, start, pos, YieldTerm(left)) && Spans(us, start, pos, YieldTerm(left))
    requires Follows(ts, us, pos, true) && !(pos < |ts| && (ts[pos].Star? || ts[pos].Slash?))
    ensures MoreUnaries(us, left, start, pos) == MoreUnaries(ts, left, start, pos) == Ok((left, pos))
  {
  }

  lemma UnariesFail(ts: seq<Token>, us: seq<Token>, left: Term, start: nat, pos: nat)
    requires Spans(ts, start, pos, YieldTerm(left)) && Spans(us, start, pos, YieldTerm(left))
    requires pos < |ts| && pos < |us| && us[pos] == ts[pos] && (ts[pos].Star? || ts[pos].Slash?)
    requires TreeUnary(ts, pos + 1).Err? && TreeUnary(us, pos + 1) == Moved(TreeUnary(ts, pos + 1))
    ensures MoreUnaries(us, left, start, pos) == Moved(MoreUnaries(ts, left, start, pos))
  {
  }

  lemma UnariesFurther(ts: seq<Token>, us: seq<Token>, left: Term, start: nat, pos: nat)
    returns (further: Term, n: nat)
    requires Spans(ts, start, pos, YieldTerm(left)) && Spans(us, start, pos, YieldTerm(left))
    requires pos < |ts| && pos < |us| && us[pos] == ts[pos] && (ts[pos].Star? || ts[pos].Slash?)
    requires TreeUnary(ts, pos + 1).Ok? && TreeUnary(us, pos + 1) == TreeUnary(ts, pos + 1)
    ensures n == TreeUnary(ts, pos + 1).value.1 && pos < n
    ensures Spans(ts, start, n, YieldTerm(further)) && Spans(us, start, n, YieldTerm(further))
    ensures MoreUnaries(ts, left, start, pos) == MoreUnaries(ts, further, start, n)
    ensures MoreUnaries(us, left, start, pos) == MoreUnaries(us, further, start, n)
  {
    further, n := MulDiv(left, ts[pos].Slash?, TreeUnary(ts, pos + 1).value.0), TreeUnary(ts, pos + 1).value.1;
    ExtendTerm(ts, left, start, pos);
    ExtendTerm(us, left, start, pos);
  }

  lemma UnariesStop(ts: seq<Token>, left: Term, start: nat, pos: nat)
    requires Spans(ts, start, pos, YieldTerm(left)) && pos < |ts| && (ts[pos].Star? || ts[pos].Slash?)
    ensures var next, r := TreeUnary(ts, pos + 1), MoreUnaries(ts, left, start, pos);
      pos < Stop(next) <= Stop(r) && (next.Err? ==> Stop(r) == Stop(next) && Closed(r) == Closed(next))
  {
    if TreeUnary(ts, pos + 1).Ok? { ExtendTerm(ts, left, start, pos); }
  }

  lemma {:induction false} SameNextUnary(
    ts: seq<Token>, us: seq<Token>, left: Term, start: nat, pos: nat, r: Tree<Term>)
    requires Spans(ts, start, pos, YieldTerm(left)) && r == MoreUnaries(ts, left, start, pos)
    requires Follows(ts, us, Stop(r), Closed(r)) && pos < |ts| && (ts[pos].Star? || ts[pos].Slash?)
    ensures pos < |us| && us[pos] == ts[pos] && TreeUnary(us, pos + 1) == Moved(TreeUnary(ts, pos + 1))
    decreases |ts| - pos, 0
  {
    var next := TreeUnary(ts, pos + 1);
    UnariesStop(ts, left, start, pos);
    FollowsPart(ts, us, Stop(next), Closed(next), Stop(r), Closed(r));
    SameUnary(ts, us, pos + 1);
  }

  lemma {:induction false} SameUnaries(
    ts: seq<Token>, us: seq<Token>, left: Term, start: nat, pos: nat, r: Tree<Term>)
    requires Spans(ts, start, pos, YieldTerm(left)) && r == MoreUnaries(ts, left, start, pos)
    requires Follows(ts, us, Stop(r), Closed(r))
    ensures Spans(us, start, pos, YieldTerm(left)) && MoreUnaries(us, left, start, pos) == Moved(r)
    decreases |ts| - pos, 1
  {
    FollowsEarlier(ts, us, pos, Stop(r), Closed(r));
    AgreeSlice(ts, us, start, pos);
    if pos < |ts| && (ts[pos].Star? || ts[pos].Slash?) {
      SameNextUnary(ts, us, left, start, pos, r);
      if TreeUnary(ts, pos + 1).Ok? {
        var further, n := UnariesFurther(ts, us, left, start, pos);
        SameUnaries(ts, us, further, start, n, r);
      } else {
        UnariesFail(ts, us, left, start, pos);
      }
    } else {
      UnariesEnd(ts, us, left, start, pos);
    }
  }

  lemma {:induction false} SameUnary(ts: seq<Token>, us: seq<Token>, pos: nat)
    requires pos <= |ts| && Follows(ts, us, Stop(TreeUnary(ts, pos)), Closed(TreeUnary(ts, pos)))
    ensures pos <= |us| && TreeUnary(us, pos) == Moved(TreeUnary(ts, pos))
    decreases |ts| - pos, 2
  {
    if pos < |ts| {
      FollowsEarlier(ts, us, pos, Stop(TreeUnary(ts, pos)), Closed(TreeUnary(ts, pos)));
      SamePrimary(ts, us, if ts[pos].Minus? || ts[pos].Plus? then pos + 1 else pos);
    }
  }

  lemma {:induction false} SamePrimary(ts: seq<Token>, us: seq<Token>, pos: nat)
    requires pos <= |ts| && Follows(ts, us, Stop(TreePrimary(ts, pos)), Closed(TreePrimary(ts, pos)))
    ensures pos <= |us| && TreePrimary(us, pos) == Moved(TreePrimary(ts, pos))
    decreases |ts| - pos, 1
  {
    var r := TreePrimary(ts, pos);
    if pos < |ts| {
      FollowsEarlier(ts, us, pos, Stop(r), Closed(r));
      if ts[pos].LParen? {
        if TreeExpr(ts, pos + 1).Ok? {
          FollowsEarlier(ts, us, TreeExpr(ts, pos + 1).value.1, Stop(r), Closed(r));
        }
        SameExpr(ts, us, pos + 1);
      }
    }
  }

  // ----- up to where it stops, an expression can be completed -----

  /** What an expression goes on with at an error. */
  function Wanted(error: Error): Token {
    if error.MissingClosingParen? || error.ExpectedClosingParen? then RParen else Num(0.0)
  }

  /** The error fits its position. */
  predicate Placed(ts: seq<Token>, error: Error, at: nat) {
    match error
    case UnexpectedEnd => at == |ts|
    case MissingClosingParen => at == |ts|
    case UnexpectedToken(p) => p == at < |ts|
    case ExpectedClosingParen => at < |ts|
    case _ => false
  }

  /** These tokens up to the error, and then others that begin with what is wanted there. */
  predicate Completion<T>(ts: seq<Token>, pos: nat, r: Tree<T>, yielded: seq<Token>, rest: seq<Token>) {
    && r.Err? && pos <= r.error.1 <= |ts| && Placed(ts, r.error.0, r.error.1)
    && rest != [] && rest[0] == Wanted(r.error.0) && yielded == ts[pos..r.error.1] + rest
  }

  lemma CompletionAfter<S, T>(
    ts: seq<Token>, start: nat, pos: nat, r: Tree<S>, all: Tree<T>, first: seq<Token>, yielded: seq<Token>,
    rest: seq<Token>)
    requires Completion(ts, pos + 1, r, yielded, rest) && all.Err? && all.error == r.error
    requires start <= pos && first == ts[start..pos]
    ensures Completion(ts, start, all, first + [ts[pos]] + yielded, rest)
  {
    var at := r.error.1;
    ThreeSlices(ts, start, pos, at);
  }

  lemma {:induction false} CompletesExpr(ts: seq<Token>, pos: nat) returns (e: Expr, rest: seq<Token>)
    requires pos <= |ts| && TreeExpr(ts, pos).Err?
    ensures Completion(ts, pos, TreeExpr(ts, pos), YieldExpr(e), rest)
    decreases |ts| - pos, 4
  {
    if TreeTerm(ts, pos).Ok? {
      var (t, n) := TreeTerm(ts, pos).value;
      e, rest := CompletesTerms(ts, OneTerm(t), pos, n);
    } else {
      var t;
      t, rest := CompletesTerm(ts, pos);
      e := OneTerm(t);
    }
  }

  lemma {:induction false} CompletesTerms(ts: seq<Token>, left: Expr, start: nat, pos: nat)
    returns (e: Expr, rest: seq<Token>)
    requires Spans(ts, start, pos, YieldExpr(left)) && MoreTerms(ts, left, start, pos).Err?
    ensures Completion(ts, start, MoreTerms(ts, left, start, pos), YieldExpr(e), rest)
    decreases |ts| - pos, 0
  {
    if TreeTerm(ts, pos + 1).Ok? {
      var (t, n) := TreeTerm(ts, pos + 1).value;
      ExtendExpr(ts, left, start, pos);
      e, rest := CompletesTerms(ts, AddSub(left, ts[pos].Minus?, t), start, n);
    } else {
      var t;
      t, rest := CompletesTerm(ts, pos + 1);
      e := AddSub(left, ts[pos].Minus?, t);
      CompletionAfter(ts, start, pos, TreeTerm(ts, pos + 1), MoreTerms(ts, left, start, pos),
                      YieldExpr(left), YieldTerm(t), rest);
    }
  }

  lemma {:induction false} CompletesTerm(ts: seq<Token>, pos: nat) returns (t: Term, rest: seq<Token>)
    requires pos <= |ts| && TreeTerm(ts, pos).Err?
    ensures Completion(ts, pos, TreeTerm(ts, pos), YieldTerm(t), rest)
    decreases |ts| - pos, 3
  {
    if TreeUnary(ts, pos).Ok? {
      var (u, n) := TreeUnary(ts, pos).value;
      t, rest := CompletesUnaries(ts, OneUnary(u), pos, n);
    } else {
      var u;
      u, rest := CompletesUnary(ts, pos);
      t := OneUnary(u);
    }
  }

  lemma {:induction false} CompletesUnaries(ts: seq<Token>, left: Term, start: nat, pos: nat)
    returns (t: Term, rest: seq<Token>)
    requires Spans(ts, start, pos, YieldTerm(left)) && MoreUnaries(ts, left, start, pos).Err?
    ensures Completion(ts, start, MoreUnaries(ts, left, start, pos), YieldTerm(t), rest)
    decreases |ts| - pos, 0
  {
    if TreeUnary(ts, pos + 1).Ok? {
      var (u, n) := TreeUnary(ts, pos + 1).value;
      ExtendTerm(ts, left, start, pos);
      t, rest := CompletesUnaries(ts, MulDiv(left, ts[pos].Slash?, u), start, n);
    } else {
      var u;
      u, rest := CompletesUnary(ts, pos + 1);
      t := MulDiv(left, ts[pos].Slash?, u);
      CompletionAfter(ts, start, pos, TreeUnary(ts, pos + 1), MoreUnaries(ts, left, start, pos),
                      YieldTerm(left), YieldUnary(u), rest);
    }
  }

  lemma {:induction false} CompletesUnary(ts: seq<Token>, pos: nat) returns (u: Unary, rest: seq<Token>)
    requires pos <= |ts| && TreeUnary(ts, pos).Err?
    ensures Completion(ts, pos, TreeUnary(ts, pos), YieldUnary(u), rest)
    decreases |ts| - pos, 2
  {
    if pos == |ts| {
      u, rest := Unary(NoSign, Number(0.0)), [Num(0.0)];
    } else {
      var sign := if ts[pos].Minus? then MinusSign else if ts[pos].Plus? then PlusSign else NoSign;
      var p;
      if sign.NoSign? {
        p, rest := CompletesPrimary(ts, pos);
      } else {
        p, rest := CompletesPrimary(ts, pos + 1);
        CompletionAfter(ts, pos, pos, TreePrimary(ts, pos + 1), TreeUnary(ts, pos), [], YieldPrimary(p), rest);
        assert [] + [ts[pos]] + YieldPrimary(p) == YieldUnary(Unary(sign, p));
      }
      u := Unary(sign, p);
    }
  }

  lemma {:induction false} CompletesPrimary(ts: seq<Token>, pos: nat) returns (p: Primary, rest: seq<Token>)
    requires pos <= |ts| && TreePrimary(ts, pos).Err?
    ensures Completion(ts, pos, TreePrimary(ts, pos), YieldPrimary(p), rest)
    decreases |ts| - pos, 1
  {
    if pos < |ts| && ts[pos].LParen? {
      var e;
      if TreeExpr(ts, pos + 1).Ok? {
        e, rest := TreeExpr(ts, pos + 1).value.0, [RParen];
        ThreeSlices(ts, pos, pos, TreeExpr(ts, pos + 1).value.1);
      } else {
        e, rest := CompletesExpr(ts, pos + 1);
        rest := rest + [RParen];
        ThreeSlices(ts, pos, pos, TreeExpr(ts, pos + 1).error.1);
      }
      p := Parens(e);
    } else {
      p, rest := Number(0.0), [Num(0.0)];
    }
  }

  // ----- the reported error -----

  /** What goes on from the stop in the same way is no expression either. */
  lemma NoSum(ts: seq<Token>, us: seq<Token>)
    requires WholeTree(ts).Err? && Follows(ts, us, Stop(TreeExpr(ts, 0)), Closed(TreeExpr(ts, 0)))
    ensures !IsSum(us)
  {
    SameExpr(ts, us, 0);
    NotDerived(us);
  }

  /** The tokens before `at` and one more. */
  lemma OneMoreToken(ts: seq<Token>, at: nat, t: Token, rest: seq<Token>)
    requires at <= |ts|
    ensures var us := ts[..at] + [t] + rest; Agree(ts, us, at) && us[at] == t
    ensures at < |ts| && t == ts[at] ==> ts[..at + 1] + rest == ts[..at] + [t] + rest
  {
  }

  lemma NotViableNext(ts: seq<Token>, at: nat)
    requires WholeTree(ts).Err? && at == Stop(TreeExpr(ts, 0)) < |ts|
    ensures !Viable(ts[..at + 1])
  {
    var next := ts[..at + 1];
    forall rest ensures !IsSum(next + rest) {
      OneMoreToken(ts, at, ts[at], rest);
      NoSum(ts, ts[..at] + [ts[at]] + rest);
    }
  }

  lemma NoOperandNext(ts: seq<Token>, at: nat)
    requires WholeTree(ts).Err? && at == Stop(TreeExpr(ts, 0)) && Closed(TreeExpr(ts, 0))
    ensures !AwaitsOperand(ts[..at])
  {
    forall rest ensures !IsSum(ts[..at] + [Num(0.0)] + rest) {
      OneMoreToken(ts, at, Num(0.0), rest);
      NoSum(ts, ts[..at] + [Num(0.0)] + rest);
    }
  }

  /** A part that lacks a closing parenthesis is no expression. */
  lemma NotClosed(ts: seq<Token>, at: nat)
    requires TreeExpr(ts, 0).Err? && at == Stop(TreeExpr(ts, 0)) && Closed(TreeExpr(ts, 0))
    ensures !IsSum(ts[..at])
  {
    var us := ts[..at] + [Num(0.0)];
    assert us == ts[..at] + [Num(0.0)] + [];
    OneMoreToken(ts, at, Num(0.0), []);
    SameExpr(ts, us, 0);
    forall e ensures YieldExpr(e) != ts[..at] {
      if YieldExpr(e) == ts[..at] {
        assert us[0..at] == ts[..at];
        ExprFound(e, us, 0, at);
      }
    }
  }

  lemma ViableCompletion(ts: seq<Token>, at: nat, e: Expr, rest: seq<Token>)
    requires at <= |ts| && rest != [] && YieldExpr(e) == ts[..at] + rest
    ensures Viable(ts[..at]) && Viable(ts[..at] + [rest[0]])
  {
    assert IsSum(ts[..at] + rest);
    assert ts[..at] + [rest[0]] + rest[1..] == ts[..at] + rest;
  }

  lemma NotDerived(ts: seq<Token>)
    requires WholeTree(ts).Err?
    ensures !IsSum(ts)
  {
    forall e ensures YieldExpr(e) != ts { DerivationExactly(ts, e); }
  }

  /** The error found inside a sum. */
  lemma StopsInside(ts: seq<Token>, error: Error, at: nat)
    requires TreeExpr(ts, 0) == Err((error, at))
    ensures Stops(ts, error, at)
  {
    var e, rest := CompletesExpr(ts, 0);
    assert ts[0..at] == ts[..at];
    ViableCompletion(ts, at, e, rest);
    NotDerived(ts);
    if at < |ts| { NotViableNext(ts, at); }
    if Closed(TreeExpr(ts, 0)) {
      NoOperandNext(ts, at);
      NotClosed(ts, at);
    }
  }

  lemma SumRead(ts: seq<Token>, e: Expr, n: nat)
    requires n <= |ts| && YieldExpr(e) == ts[0..n]
    ensures IsSum(ts[..n]) && Viable(ts[..n])
  {
    var first := ts[..n];
    assert ts[0..n] == first && first + [] == first;
    assert IsSum(first + []);
  }

  /** The error behind a sum. */
  lemma StopsBehind(ts: seq<Token>, e: Expr, at: nat)
    requires TreeExpr(ts, 0) == Ok((e, at)) && at < |ts|
    ensures Stops(ts, UnexpectedToken(at), at)
  {
    SumRead(ts, e, at);
    NotDerived(ts);
    NotViableNext(ts, at);
    NoOperandNext(ts, at);
  }

  lemma ErrorStops(ts: seq<Token>)
    requires WholeTree(ts).Err?
    ensures Stops(ts, WholeTree(ts).error.0, WholeTree(ts).error.1)
  {
    match TreeExpr(ts, 0)
    case Err((error, at)) => StopsInside(ts, error, at);
    case Ok((e, n)) => StopsBehind(ts, e, n);
  }

  lemma ViableShorter(ts: seq<Token>, n: nat, k: nat)
    requires n <= k <= |ts| && Viable(ts[..k])
    ensures Viable(ts[..n])
  {
    var rest :| IsSum(ts[..k] + rest);
    assert ts[..n] + (ts[n..k] + rest) == ts[..k] + rest;
  }

  lemma StopsOnce(ts: seq<Token>, error: Error, at: nat, error': Error, at': nat)
    requires Stops(ts, error, at) && Stops(ts, error', at')
    ensures at == at' && error == error'
  {
    if at < at' { ViableShorter(ts, at + 1, at'); } else if at' < at { ViableShorter(ts, at' + 1, at); }
  }

  lemma ReadIsSum(ts: seq<Token>)
    requires WholeTree(ts).Ok?
    ensures IsSum(ts)
  {
    assert YieldExpr(WholeTree(ts).value) == ts;
  }

  /** Tokens are refused with exactly the error of the place where they stop being the beginning of an expression. */
  lemma {:induction false} ErrorExactly(ts: seq<Token>, error: Error, at: nat)
    ensures WholeTree(ts) == Err((error, at)) <==> Stops(ts, error, at)
  {
    if WholeTree(ts).Err? {
      ErrorStops(ts);
      if Stops(ts, error, at) { StopsOnce(ts, error, at, WholeTree(ts).error.0, WholeTree(ts).error.1); }
    } else {
      ReadIsSum(ts);
    }
  }
}
