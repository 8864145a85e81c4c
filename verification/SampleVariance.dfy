/**
 * Sample variance and the noisy-question split of
 * crates/amplihack-agent-eval/src/long_horizon_multi_seed.rs, on exact reals.
 */
module SampleVariance {

  function SumOf(s: seq<real>, f: real -> real): real {
    if s == [] then 0.0 else f(s[0]) + SumOf(s[1..], f)
  }

  function Itself(x: real): real {
    x
  }

  function Square(x: real): real {
    x * x
  }

  /** The squared distance of a number from m. */
  function DistanceTo(m: real): real -> real {
    x => (x - m) * (x - m)
  }

  function Sum(s: seq<real>): real {
    SumOf(s, Itself)
  }

  function Mean(s: seq<real>): real
    requires s != []
  {
    Sum(s) / |s| as real
  }

  function SquaredDistances(s: seq<real>, m: real): real {
    SumOf(s, DistanceTo(m))
  }

  /** The quantity under the square root in safe_stddev. */
  function Variance(s: seq<real>): real
    requires |s| >= 2
  {
    SquaredDistances(s, Mean(s)) / (|s| - 1) as real
  }

  /** d is safe_stddev of the values: zero below two values, else the root of the variance. */
  predicate IsStddev(s: seq<real>, d: real) {
    d >= 0.0 && if |s| < 2 then d == 0.0 else d * d == Variance(s)
  }

  predicate InUnit(s: seq<real>) {
    forall i :: 0 <= i < |s| ==> 0.0 <= s[i] <= 1.0
  }

  predicate AllEqual(s: seq<real>) {
    forall i, j :: 0 <= i < j < |s| ==> s[i] == s[j]
  }

  // ----- the bound -----

  function SumOfSquares(s: seq<real>): real {
    SumOf(s, Square)
  }

  lemma ExpandOne(x: real, m: real)
    ensures (x - m) * (x - m) == x * x - 2.0 * (m * x) + m * m
  {
  }

  lemma Distribute(m: real, x: real, y: real)
    ensures m * (x + y) == m * x + m * y
  {
  }

  lemma {:induction false} Expand(s: seq<real>, m: real)
    ensures SquaredDistances(s, m) == SumOfSquares(s) - 2.0 * (m * Sum(s)) + (m * m) * |s| as real
  {
    if s != [] {
      Expand(s[1..], m);
      ExpandOne(s[0], m);
      Distribute(m, s[0], Sum(s[1..]));
      Distribute(m * m, 1.0, |s[1..]| as real);
    }
  }

  /** Termwise comparison carries over to sums. */
  lemma {:induction false} SumsCompare(s: seq<real>, f: real -> real, g: real -> real)
    requires forall i :: 0 <= i < |s| ==> f(s[i]) <= g(s[i])
    ensures SumOf(s, f) <= SumOf(s, g)
  {
    if s != [] { SumsCompare(s[1..], f, g); }
  }

  lemma SquaresBelow(s: seq<real>)
    requires InUnit(s)
    ensures SumOfSquares(s) <= Sum(s)
  {
    forall i | 0 <= i < |s| ensures Square(s[i]) <= Itself(s[i]) { SquareBelow(s[i]); }
    SumsCompare(s, Square, Itself);
  }

  lemma SquareBelow(x: real)
    requires 0.0 <= x <= 1.0
    ensures Square(x) <= x
  {
    ProductSign(x, 1.0 - x);
  }

  lemma ProductSign(a: real, b: real)
    requires a >= 0.0 && b >= 0.0
    ensures a * b >= 0.0
  {
  }

  lemma MeanTimesSize(s: seq<real>)
    requires s != []
    ensures Mean(s) * |s| as real == Sum(s)
  {
  }

  /** Distances from the mean: the sum of squares less n times the squared mean. */
  lemma AroundMean(s: seq<real>)
    requires s != []
    ensures SquaredDistances(s, Mean(s)) == SumOfSquares(s) - (Mean(s) * Mean(s)) * |s| as real
  {
    Expand(s, Mean(s));
    MeanTimesSize(s);
    Regroup(Mean(s), |s| as real);
  }

  lemma Regroup(m: real, n: real)
    ensures m * (m * n) == (m * m) * n
  {
  }

  lemma Parabola(m: real, n: real)
    requires n > 0.0
    ensures m * n - (m * m) * n <= n / 4.0
  {
    var gap := (m - 0.5) * (m - 0.5);
    assert gap >= 0.0 && gap == 0.25 - (m - m * m);
    assert gap * n >= 0.0;
    assert gap * n == n / 4.0 - (m * n - (m * m) * n);
  }

  lemma {:induction false} DistancesNonNegative(s: seq<real>, m: real)
    ensures SquaredDistances(s, m) >= 0.0
    ensures SquaredDistances(s, m) == 0.0 <==> forall i :: 0 <= i < |s| ==> s[i] == m
  {
    if s != [] {
      DistancesNonNegative(s[1..], m);
      SquareSign(s[0] - m);
      assert forall i :: 0 < i < |s| ==> s[i] == s[1..][i - 1];
    }
  }

  lemma SquareSign(x: real)
    ensures x * x >= 0.0 && (x * x == 0.0 <==> x == 0.0)
  {
    if x != 0.0 {
      var y := 1.0 / x;
      assert y * x == 1.0;
      assert x * x * y == x * (x * y);
    }
  }

  lemma {:induction false} SumOfEqual(s: seq<real>, v: real)
    requires forall i :: 0 <= i < |s| ==> s[i] == v
    ensures Sum(s) == v * |s| as real
  {
    if s != [] {
      SumOfEqual(s[1..], v);
      Distribute(v, 1.0, |s[1..]| as real);
    }
  }

  lemma DivideBound(a: real, b: real, d: real)
    requires 0.0 <= a <= b && d > 0.0
    ensures 0.0 <= a / d <= b / d && (a / d == 0.0 <==> a == 0.0)
  {
    var q, r := a / d, b / d;
    assert q * d == a && r * d == b;
    assert q > r ==> q * d > r * d;
    assert q < 0.0 ==> q * d < 0.0;
  }

  /** For scores in [0, 1] the variance lies between 0 and n / (4(n - 1)), and is 0 exactly for equal scores. */
  lemma {:induction false} VarianceBounds(s: seq<real>)
    requires |s| >= 2 && InUnit(s)
    ensures 0.0 <= Variance(s) <= (|s| as real / 4.0) / (|s| - 1) as real
    ensures Variance(s) == 0.0 <==> AllEqual(s)
  {
    DistancesBounded(s);
    DistancesNonNegative(s, Mean(s));
    DivideBound(SquaredDistances(s, Mean(s)), |s| as real / 4.0, (|s| - 1) as real);
    EqualToMean(s);
  }

  lemma DistancesBounded(s: seq<real>)
    requires s != [] && InUnit(s)
    ensures SquaredDistances(s, Mean(s)) <= |s| as real / 4.0
  {
    AroundMean(s);
    SquaresBelow(s);
    MeanTimesSize(s);
    BelowParabola(SquaredDistances(s, Mean(s)), SumOfSquares(s), Sum(s), Mean(s), |s| as real);
  }

  lemma BelowParabola(distances: real, squares: real, sum: real, m: real, n: real)
    requires n > 0.0 && distances == squares - (m * m) * n && squares <= sum && m * n == sum
    ensures distances <= n / 4.0
  {
    Parabola(m, n);
  }

  lemma EqualToMean(s: seq<real>)
    requires s != []
    ensures AllEqual(s) <==> forall i :: 0 <= i < |s| ==> s[i] == Mean(s)
  {
    if AllEqual(s) {
      assert forall i :: 0 <= i < |s| ==> s[i] == s[0];
      SumOfEqual(s, s[0]);
      DivideBack(Sum(s), s[0], |s| as real);
    }
  }

  lemma DivideBack(sum: real, v: real, n: real)
    requires n > 0.0 && sum == v * n
    ensures sum / n == v
  {
    var q := sum / n;
    assert q * n == sum;
    assert (q - v) * n == 0.0;
  }

  /** The bound is reached: half the scores 0 and half 1. */
  lemma {:induction false} BoundReached(k: nat)
    requires k >= 1
    ensures var s := seq(k, _ => 0.0) + seq(k, _ => 1.0);
      Variance(s) == (|s| as real / 4.0) / (|s| - 1) as real
  {
    var zeros, ones := seq(k, _ => 0.0), seq(k, _ => 1.0);
    var s := zeros + ones;
    SumConcat(zeros, ones);
    SumOfEqual(zeros, 0.0);
    SumOfEqual(ones, 1.0);
    UnitSquares(s);
    AroundMean(s);
    DivideBack(Sum(s), 0.5, |s| as real);
  }

  lemma UnitSquares(s: seq<real>)
    requires forall i :: 0 <= i < |s| ==> s[i] == 0.0 || s[i] == 1.0
    ensures SumOfSquares(s) == Sum(s)
  {
    SumsCompare(s, Square, Itself);
    SumsCompare(s, Itself, Square);
  }

  lemma {:induction false} SumConcat(a: seq<real>, b: seq<real>)
    ensures Sum(a + b) == Sum(a) + Sum(b)
  {
    if a == [] {
      assert a + b == b;
    } else {
      assert (a + b)[1..] == a[1..] + b;
      SumConcat(a[1..], b);
    }
  }

  /** Of two scores: half the squared difference. */
  lemma {:induction false} VarianceOfTwo(x: real, y: real)
    ensures Variance([x, y]) == (x - y) * (x - y) / 2.0
  {
    SumOfTwo(x, y, Itself);
    SumOfTwo(x, y, DistanceTo(Mean([x, y])));
    HalfGap(x, y, Mean([x, y]));
  }

  lemma SumOfTwo(x: real, y: real, f: real -> real)
    ensures SumOf([x, y], f) == f(x) + f(y)
  {
    assert [x, y][1..] == [y] && [y][1..] == [];
    assert SumOf([y], f) == f(y) + SumOf([y][1..], f);
  }

  lemma HalfGap(x: real, y: real, m: real)
    requires m == (x + y) / 2.0
    ensures (x - m) * (x - m) + (y - m) * (y - m) == (x - y) * (x - y) / 2.0
  {
    assert x - m == (x - y) / 2.0 && y - m == -((x - y) / 2.0);
  }

  // ----- the order in which a map's values are visited does not matter -----

  lemma {:induction false} RearrangedSums(a: seq<real>, b: seq<real>, f: real -> real)
    requires multiset(a) == multiset(b)
    ensures SumOf(a, f) == SumOf(b, f) && |a| == |b|
    decreases |a|
  {
    assert |multiset(a)| == |a| && |multiset(b)| == |b|;
    if a != [] {
      var j := MatchHead(a, b);
      RearrangedSums(a[1..], b[..j] + b[j + 1..], f);
      TakeOut(b, j, f);
    }
  }

  lemma MatchHead(a: seq<real>, b: seq<real>) returns (j: nat)
    requires a != [] && multiset(a) == multiset(b)
    ensures j < |b| && b[j] == a[0] && multiset(b[..j] + b[j + 1..]) == multiset(a[1..])
  {
    assert a[0] in multiset(b);
    j :| 0 <= j < |b| && b[j] == a[0];
    Without(b, j);
    assert a == [a[0]] + a[1..];
    assert multiset(a[1..]) == multiset(a) - multiset{a[0]};
  }

  lemma Without(s: seq<real>, j: nat)
    requires j < |s|
    ensures multiset(s[..j] + s[j + 1..]) == multiset(s) - multiset{s[j]}
  {
    assert s == s[..j] + [s[j]] + s[j + 1..];
  }

  lemma {:induction false} TakeOut(b: seq<real>, j: nat, f: real -> real)
    requires j < |b|
    ensures SumOf(b, f) == f(b[j]) + SumOf(b[..j] + b[j + 1..], f)
  {
    var rest := b[..j] + b[j + 1..];
    if j == 0 {
      assert rest == b[1..];
    } else {
      assert rest[1..] == b[1..][..j - 1] + b[1..][j..];
      TakeOut(b[1..], j - 1, f);
    }
  }

  lemma {:induction false} VarianceOrderFree(a: seq<real>, b: seq<real>)
    requires multiset(a) == multiset(b) && |a| >= 2
    ensures |b| == |a| && Variance(a) == Variance(b)
  {
    RearrangedSums(a, b, Itself);
    RearrangedSums(a, b, DistanceTo(Mean(a)));
  }

  // ----- the noisy questions -----

  const NOISY_THRESHOLD_PP := 10.0

  /** A question's scores over the seeds, in any order, and their safe_stddev. */
  datatype Question = Question(id: string, scores: seq<real>, stddev: real)

  predicate IsNoisy(q: Question) {
    q.stddev > NOISY_THRESHOLD_PP / 100.0
  }

  predicate Varies(scores: seq<real>) {
    |scores| >= 2 && Variance(scores) > 0.01
  }

  /** The threshold on the deviation is the threshold 0.01 on the variance. */
  lemma {:induction false} NoisyExactly(q: Question)
    requires IsStddev(q.scores, q.stddev)
    ensures IsNoisy(q) <==> Varies(q.scores)
  {
    SquareOrder(q.stddev, 0.1);
  }

  lemma SquareOrder(a: real, b: real)
    requires a >= 0.0 && b > 0.0
    ensures a > b <==> a * a > b * b
  {
    assert a * a - b * b == (a - b) * (a + b);
  }

  function Noisy(questions: seq<Question>): seq<Question> {
    if questions == [] then [] else
    var last := |questions| - 1;
    Noisy(questions[..last]) + if Varies(questions[last].scores) then [questions[last]] else []
  }

  /** The loop over the questions: all of them are reported, and the noisy ones also listed apart. */
  method SplitQuestions(questions: seq<Question>) returns (all: seq<Question>, noisy: seq<Question>)
    requires forall i :: 0 <= i < |questions| ==> IsStddev(questions[i].scores, questions[i].stddev)
    ensures all == questions && noisy == Noisy(questions)
    ensures forall q :: q in noisy <==> q in questions && Varies(q.scores)
  {
    all, noisy := [], [];
    for i := 0 to |questions|
      invariant all == questions[..i] && noisy == Noisy(questions[..i])
      invariant forall q :: q in noisy <==> q in questions[..i] && Varies(q.scores)
    {
      assert questions[..i + 1][..i] == questions[..i] && questions[..i + 1] == questions[..i] + [questions[i]];
      NoisyExactly(questions[i]);
      if IsNoisy(questions[i]) {
        noisy := noisy + [questions[i]];
      }
      all := all + [questions[i]];
    }
    assert questions[..|questions|] == questions;
  }
}
