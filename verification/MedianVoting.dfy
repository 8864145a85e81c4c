/**
 * Median voting: multi_vote_grade of crates/amplihack-agent-eval/src/long_horizon.rs
 * and grade_with_votes of crates/amplihack-agent-eval/src/grader.rs, on exact reals.
 */
module MedianVoting {
  import opened Wrappers
  import opened StableSort
  import opened Decimal

  function Itself(x: real): real {
    x
  }

  /** The middle of sorted votes, or the mean of the two middle ones. */
  function Middle(s: seq<real>): real
    requires s != []
  {
    if |s| % 2 == 0 then (s[|s| / 2 - 1] + s[|s| / 2]) / 2.0 else s[|s| / 2]
  }

  function Median(votes: seq<real>): real
    requires votes != []
  {
    SortSorts(votes, Itself);
    Middle(Sort(votes, Itself))
  }

  function Clamp(x: real): real {
    if x < 0.0 then 0.0 else if x > 1.0 then 1.0 else x
  }

  // ----- order statistics by counting -----

  function Count(s: seq<real>, p: real -> bool): nat {
    if s == [] then 0 else (if p(s[0]) then 1 else 0) + Count(s[1..], p)
  }

  /** What holds of a number holds of every smaller one. */
  ghost predicate DownClosed(p: real -> bool) {
    forall a, b :: a <= b && p(b) ==> p(a)
  }

  function AtMost(x: real): real -> bool {
    y => y <= x
  }

  function LessThan(x: real): real -> bool {
    y => y < x
  }

  lemma {:induction false} CountSize(s: seq<real>, p: real -> bool)
    ensures Count(s, p) <= |s|
  {
    if s != [] { CountSize(s[1..], p); }
  }

  lemma {:induction false} CountInsert(x: real, s: seq<real>, p: real -> bool)
    ensures Count(Insert(x, s, Itself), p) == Count(s, p) + if p(x) then 1 else 0
  {
    if s == [] || x <= s[0] {
      assert ([x] + s)[1..] == s;
    } else {
      CountInsert(x, s[1..], p);
      assert Insert(x, s, Itself)[1..] == Insert(x, s[1..], Itself);
    }
  }

  lemma {:induction false} CountSorted(s: seq<real>, p: real -> bool)
    ensures Count(Sort(s, Itself), p) == Count(s, p)
  {
    if s != [] {
      CountSorted(s[1..], p);
      CountInsert(s[0], Sort(s[1..], Itself), p);
    }
  }

  lemma {:induction false} CountNone(s: seq<real>, p: real -> bool)
    requires forall i :: 0 <= i < |s| ==> !p(s[i])
    ensures Count(s, p) == 0
  {
    if s != [] { CountNone(s[1..], p); }
  }

  /** In a sorted list the element at k satisfies a down-closed property exactly when more than k elements do. */
  lemma {:induction false} RankByCount(s: seq<real>, k: nat, p: real -> bool)
    requires Sorted(s, Itself) && k < |s| && DownClosed(p)
    ensures p(s[k]) <==> Count(s, p) > k
  {
    assert Itself(s[0]) <= Itself(s[k]);
    if !p(s[0]) {
      forall i | 0 <= i < |s| ensures !p(s[i]) { assert i > 0 ==> Itself(s[0]) <= Itself(s[i]); }
      CountNone(s, p);
    } else if k > 0 {
      RankByCount(s[1..], k - 1, p);
    }
  }

  /** The same for the sort of any votes. */
  lemma {:induction false} OrderStatistic(votes: seq<real>, k: nat, p: real -> bool)
    requires k < |votes| && DownClosed(p)
    ensures |Sort(votes, Itself)| == |votes| && (p(Sort(votes, Itself)[k]) <==> Count(votes, p) > k)
  {
    SortSorts(votes, Itself);
    CountSorted(votes, p);
    RankByCount(Sort(votes, Itself), k, p);
  }

  // ----- robustness of the median -----

  lemma LeastFirst(s: seq<real>, t: seq<real>)
    requires Sorted(s, Itself) && multiset(s) == multiset(t) && t != [] && s != []
    ensures s[0] <= t[0]
  {
    assert t[0] in multiset(s);
    var j :| 0 <= j < |s| && s[j] == t[0];
    assert Itself(s[0]) <= Itself(s[j]);
  }

  lemma {:induction false} SortedUnique(s: seq<real>, t: seq<real>)
    requires Sorted(s, Itself) && Sorted(t, Itself) && multiset(s) == multiset(t)
    ensures s == t
  {
    SameSize(s, t);
    if s != [] {
      LeastFirst(s, t);
      LeastFirst(t, s);
      RestSame(s, t);
      SortedUnique(s[1..], t[1..]);
      assert s == [s[0]] + s[1..] && t == [t[0]] + t[1..];
    }
  }

  lemma RestSame(s: seq<real>, t: seq<real>)
    requires s != [] && t != [] && s[0] == t[0] && multiset(s) == multiset(t)
    ensures multiset(s[1..]) == multiset(t[1..])
  {
    assert s == [s[0]] + s[1..] && t == [t[0]] + t[1..];
    assert multiset(s[1..]) == multiset(s) - multiset{s[0]};
    assert multiset(t[1..]) == multiset(t) - multiset{t[0]};
  }

  lemma SortOrderFree(votes: seq<real>, others: seq<real>)
    requires multiset(votes) == multiset(others)
    ensures Sort(votes, Itself) == Sort(others, Itself)
  {
    SortSorts(votes, Itself);
    SortSorts(others, Itself);
    SortedUnique(Sort(votes, Itself), Sort(others, Itself));
  }

  lemma SameSize(a: seq<real>, b: seq<real>)
    requires multiset(a) == multiset(b)
    ensures |a| == |b|
  {
    assert |multiset(a)| == |a| && |multiset(b)| == |b|;
  }

  /** The median does not depend on the order of the votes. */
  lemma {:induction false} MedianOrderFree(votes: seq<real>, others: seq<real>)
    requires votes != [] && multiset(votes) == multiset(others)
    ensures others != [] && Median(votes) == Median(others)
  {
    SameSize(votes, others);
    SortOrderFree(votes, others);
  }

  ghost predicate PointwiseAtMost(a: seq<real>, b: seq<real>) {
    |a| == |b| && forall i :: 0 <= i < |a| ==> a[i] <= b[i]
  }

  lemma {:induction false} CountFalls(a: seq<real>, b: seq<real>, p: real -> bool)
    requires PointwiseAtMost(a, b) && DownClosed(p)
    ensures Count(b, p) <= Count(a, p)
  {
    if a != [] {
      assert a[0] <= b[0];
      CountFalls(a[1..], b[1..], p);
    }
  }

  lemma SortMonotone(a: seq<real>, b: seq<real>, k: nat)
    requires PointwiseAtMost(a, b) && k < |a|
    ensures |Sort(a, Itself)| == |Sort(b, Itself)| == |a| && Sort(a, Itself)[k] <= Sort(b, Itself)[k]
  {
    SortSorts(a, Itself);
    SortSorts(b, Itself);
    var p := AtMost(Sort(b, Itself)[k]);
    OrderStatistic(b, k, p);
    OrderStatistic(a, k, p);
    CountFalls(a, b, p);
  }

  /** Raising votes never lowers the median. */
  lemma {:induction false} MedianMonotone(a: seq<real>, b: seq<real>)
    requires a != [] && PointwiseAtMost(a, b)
    ensures Median(a) <= Median(b)
  {
    SortMonotone(a, b, |a| / 2);
    if |a| % 2 == 0 { SortMonotone(a, b, |a| / 2 - 1); }
  }

  function Between(lo: real, hi: real): real -> bool {
    y => lo <= y <= hi
  }

  lemma {:induction false} CountBetween(votes: seq<real>, lo: real, hi: real)
    ensures Count(votes, Between(lo, hi)) <= Count(votes, AtMost(hi))
    ensures Count(votes, Between(lo, hi)) + Count(votes, LessThan(lo)) <= |votes|
  {
    if votes != [] { CountBetween(votes[1..], lo, hi); }
  }

  /** If more than half of the votes lie in an interval, so does the median. */
  lemma {:induction false} MajorityBinds(votes: seq<real>, lo: real, hi: real)
    requires votes != [] && 2 * Count(votes, Between(lo, hi)) > |votes|
    ensures lo <= Median(votes) <= hi
  {
    var mid := |votes| / 2;
    MiddleBound(votes, mid, lo, hi);
    if |votes| % 2 == 0 { MiddleBound(votes, mid - 1, lo, hi); }
  }

  lemma MiddleBound(votes: seq<real>, k: nat, lo: real, hi: real)
    requires k < |votes| && 2 * k <= |votes| <= 2 * k + 2 && 2 * Count(votes, Between(lo, hi)) > |votes|
    ensures |Sort(votes, Itself)| == |votes| && lo <= Sort(votes, Itself)[k] <= hi
  {
    CountBetween(votes, lo, hi);
    assert DownClosed(AtMost(hi)) && DownClosed(LessThan(lo));
    OrderStatistic(votes, k, AtMost(hi));
    OrderStatistic(votes, k, LessThan(lo));
  }

  // ----- multi_vote_grade -----

  datatype DimensionScore = DimensionScore(dimension: string, score: real, reasoning: string)

  /** DimensionScore::new clamps. */
  function MakeScore(dimension: string, score: real, reasoning: string): DimensionScore {
    DimensionScore(dimension, Clamp(score), reasoning)
  }

  /** The first score a grade gives to a dimension. */
  function ScoreOf(grade: seq<DimensionScore>, dimension: string): Option<DimensionScore> {
    if grade == [] then None
    else if grade[0].dimension == dimension then Some(grade[0])
    else ScoreOf(grade[1..], dimension)
  }

  ghost predicate FirstOf(grade: seq<DimensionScore>, dimension: string, d: DimensionScore, i: nat) {
    && i < |grade| && grade[i] == d && d.dimension == dimension
    && forall k :: 0 <= k < i ==> grade[k].dimension != dimension
  }

  /** The first one, if there is any. */
  lemma {:induction false} ScoreOfExactly(grade: seq<DimensionScore>, dimension: string, d: DimensionScore)
    ensures ScoreOf(grade, dimension) == Some(d) <==> exists i: nat :: FirstOf(grade, dimension, d, i)
    ensures ScoreOf(grade, dimension) == None <==> forall i :: 0 <= i < |grade| ==> grade[i].dimension != dimension
  {
    if grade != [] {
      var rest := grade[1..];
      ScoreOfExactly(rest, dimension, d);
      assert forall i :: 0 < i < |grade| ==> grade[i] == rest[i - 1];
      if grade[0].dimension == dimension {
        assert grade[0] == d ==> FirstOf(grade, dimension, d, 0);
      } else {
        if i: nat :| FirstOf(rest, dimension, d, i) { assert FirstOf(grade, dimension, d, i + 1); }
        if i: nat :| FirstOf(grade, dimension, d, i) { assert FirstOf(rest, dimension, d, i - 1); }
      }
    }
  }

  function VoteOf(grade: seq<DimensionScore>, dimension: string): Option<real> {
    match ScoreOf(grade, dimension)
    case None => None
    case Some(d) => Some(d.score)
  }

  function Votes(grades: seq<seq<DimensionScore>>, dimension: string): seq<real> {
    if grades == [] then [] else
    var last := |grades| - 1;
    Votes(grades[..last], dimension) +
    match VoteOf(grades[last], dimension)
    case None => []
    case Some(v) => [v]
  }

  /** The reasons given with the votes, in the order of the grades. */
  function Reasons(grades: seq<seq<DimensionScore>>, dimension: string): (reasons: seq<string>)
    ensures |reasons| == |Votes(grades, dimension)|
  {
    if grades == [] then [] else
    var last := |grades| - 1;
    Reasons(grades[..last], dimension) +
    match ScoreOf(grades[last], dimension)
    case None => []
    case Some(d) => [d.reasoning]
  }

  /** The per-dimension score of two or more grades: the clamped median of its votes, zero without any. */
  function DimensionMedian(grades: seq<seq<DimensionScore>>, dimension: string): real {
    var votes := Votes(grades, dimension);
    if votes == [] then 0.0 else Clamp(Median(votes))
  }

  function Distance(x: real, m: real): real {
    if x < m then m - x else x - m
  }

  /** The first of the numbers that are closest to m: min_by. */
  function Closest(s: seq<real>, m: real): (k: nat)
    requires s != []
    ensures k < |s| && forall i :: 0 <= i < |s| ==> Distance(s[k], m) <= Distance(s[i], m)
    ensures forall i :: 0 <= i < k ==> Distance(s[k], m) < Distance(s[i], m)
  {
    if |s| == 1 then 0 else
    var k := Closest(s[..|s| - 1], m);
    if Distance(s[|s| - 1], m) < Distance(s[k], m) then |s| - 1 else k
  }

  /** Whose reason is quoted: a position among the sorted votes, used among the reasons as they came. */
  function Quoted(votes: seq<real>): nat
    requires votes != []
  {
    SortSorts(votes, Itself);
    Closest(Sort(votes, Itself), Median(votes))
  }

  function Reasoning(grades: seq<seq<DimensionScore>>, dimension: string): string {
    var votes, reasons := Votes(grades, dimension), Reasons(grades, dimension);
    if grades == [] then "No votes"
    else if votes == [] then "Not graded"
    else
      QuotedInRange(votes);
      reasons[Quoted(votes)] + " [median of " + ToString(|votes|) + " votes]"
  }

  lemma QuotedInRange(votes: seq<real>)
    requires votes != []
    ensures Quoted(votes) < |votes|
  {
    SortSorts(votes, Itself);
  }

  function Expected(grades: seq<seq<DimensionScore>>, dimension: string): DimensionScore {
    DimensionScore(dimension, DimensionMedian(grades, dimension), Reasoning(grades, dimension))
  }

  /** One expected score per dimension, in order. */
  ghost predicate AllExpected(
    grades: seq<seq<DimensionScore>>, dimensions: seq<string>, result: seq<DimensionScore>)
  {
    |result| == |dimensions| && forall i :: 0 <= i < |dimensions| ==> result[i] == Expected(grades, dimensions[i])
  }

  lemma OneMore(
    grades: seq<seq<DimensionScore>>, dimensions: seq<string>, result: seq<DimensionScore>, score: DimensionScore)
    requires |result| < |dimensions| && AllExpected(grades, dimensions[..|result|], result)
    requires score == Expected(grades, dimensions[|result|])
    ensures AllExpected(grades, dimensions[..|result| + 1], result + [score])
  {
    var n := |result|;
    forall i | 0 <= i <= n ensures (result + [score])[i] == Expected(grades, dimensions[..n + 1][i]) {
      if i < n { assert dimensions[..n + 1][i] == dimensions[..n][i]; }
    }
  }

  lemma NoVotes(dimension: string)
    ensures Expected([], dimension) == MakeScore(dimension, 0.0, "No votes")
  {
  }

  method MultiVoteGrade(grades: seq<seq<DimensionScore>>, dimensions: seq<string>) returns (result: seq<DimensionScore>)
    ensures |grades| == 1 ==> result == grades[0]
    ensures |grades| != 1 ==> AllExpected(grades, dimensions, result)
  {
    if |grades| == 1 {
      return grades[0];
    }
    result := [];
    for i := 0 to |dimensions|
      invariant |result| == i && AllExpected(grades, dimensions[..i], result)
    {
      var score;
      if |grades| == 0 {
        NoVotes(dimensions[i]);
        score := MakeScore(dimensions[i], 0.0, "No votes");
      } else {
        score := GradeDimension(grades, dimensions[i]);
      }
      OneMore(grades, dimensions, result, score);
      result := result + [score];
    }
    assert dimensions[..|dimensions|] == dimensions;
  }

  /** One turn of the loop over the dimensions. */
  method GradeDimension(grades: seq<seq<DimensionScore>>, dimension: string) returns (score: DimensionScore)
    requires grades != []
    ensures score == Expected(grades, dimension)
  {
    var votes, reasons := CollectVotes(grades, dimension);
    if votes == [] {
      return MakeScore(dimension, 0.0, "Not graded");
    }
    QuotedInRange(votes);
    SortSorts(votes, Itself);
    var sorted := Sort(votes, Itself);
    var mid := |sorted| / 2;
    var median := if |sorted| % 2 == 0 then (sorted[mid - 1] + sorted[mid]) / 2.0 else sorted[mid];
    var best := Closest(sorted, median);
    score := MakeScore(dimension, median, reasons[best] + " [median of " + ToString(|sorted|) + " votes]");
  }

  method CollectVotes(grades: seq<seq<DimensionScore>>, dimension: string)
    returns (votes: seq<real>, reasons: seq<string>)
    ensures votes == Votes(grades, dimension) && reasons == Reasons(grades, dimension)
  {
    votes, reasons := [], [];
    for j := 0 to |grades|
      invariant votes == Votes(grades[..j], dimension) && reasons == Reasons(grades[..j], dimension)
    {
      assert grades[..j + 1][..j] == grades[..j];
      var found := ScoreOf(grades[j], dimension);
      if found.Some? {
        votes := votes + [found.value.score];
        reasons := reasons + [found.value.reasoning];
      }
    }
    assert grades[..|grades|] == grades;
  }

  /** A score is the number in [0, 1] that is closest to what was given. */
  lemma ClampNearest(x: real, y: real)
    requires 0.0 <= y <= 1.0
    ensures 0.0 <= Clamp(x) <= 1.0
    ensures y != Clamp(x) ==> Distance(Clamp(x), x) < Distance(y, x)
  {
  }

  // ----- whose reason is quoted -----

  /** The lower and the upper of the middle votes; the same one for an odd count. */
  function Lower(votes: seq<real>): real
    requires votes != []
  {
    SortSorts(votes, Itself);
    Sort(votes, Itself)[(|votes| - 1) / 2]
  }

  function Upper(votes: seq<real>): real
    requires votes != []
  {
    SortSorts(votes, Itself);
    Sort(votes, Itself)[|votes| / 2]
  }

  lemma MiddleBetween(votes: seq<real>)
    requires votes != []
    ensures Lower(votes) <= Upper(votes) && Median(votes) == (Lower(votes) + Upper(votes)) / 2.0
  {
    SortSorts(votes, Itself);
    MiddlePlaces(|votes|);
    SortedAt(Sort(votes, Itself), (|votes| - 1) / 2, |votes| / 2);
  }

  lemma MiddlePlaces(n: nat)
    requires n > 0
    ensures n % 2 == 1 ==> (n - 1) / 2 == n / 2
    ensures n % 2 == 0 ==> (n - 1) / 2 == n / 2 - 1
  {
  }

  lemma SortedAt(s: seq<real>, i: nat, j: nat)
    requires Sorted(s, Itself) && i <= j < |s|
    ensures s[i] <= s[j]
  {
    if i < j { assert Itself(s[i]) <= Itself(s[j]); }
  }

  /** a stands at place k in the order of the votes: at most k are smaller, and more than k are not larger. */
  predicate AtPlace(votes: seq<real>, k: nat, a: real) {
    Count(votes, LessThan(a)) <= k < Count(votes, AtMost(a))
  }

  predicate InMiddle(votes: seq<real>, a: real, b: real)
    requires votes != []
  {
    AtPlace(votes, (|votes| - 1) / 2, a) && AtPlace(votes, |votes| / 2, b)
  }

  lemma PlaceExactly(votes: seq<real>, k: nat, a: real)
    requires k < |votes|
    ensures |Sort(votes, Itself)| == |votes| && (AtPlace(votes, k, a) <==> a == Sort(votes, Itself)[k])
  {
    OrderStatistic(votes, k, LessThan(a));
    OrderStatistic(votes, k, AtMost(a));
  }

  /** The median is the mean of the values at the two middle places, which are the same for an odd count. */
  lemma {:induction false} MedianExactly(votes: seq<real>, m: real)
    requires votes != []
    ensures Median(votes) == m <==> exists a, b :: InMiddle(votes, a, b) && m == (a + b) / 2.0
  {
    MiddleBetween(votes);
    PlaceExactly(votes, (|votes| - 1) / 2, Lower(votes));
    PlaceExactly(votes, |votes| / 2, Upper(votes));
    assert InMiddle(votes, Lower(votes), Upper(votes));
    if a, b :| InMiddle(votes, a, b) && m == (a + b) / 2.0 {
      PlaceExactly(votes, (|votes| - 1) / 2, a);
      PlaceExactly(votes, |votes| / 2, b);
    }
  }

  /** In sorted votes none is closer to the median than the lower middle one, and smaller ones are further. */
  lemma LowerClosest(votes: seq<real>, i: nat)
    requires i < |votes| == |Sort(votes, Itself)|
    ensures Distance(Lower(votes), Median(votes)) <= Distance(Sort(votes, Itself)[i], Median(votes))
    ensures Sort(votes, Itself)[i] < Lower(votes) ==>
              Distance(Lower(votes), Median(votes)) < Distance(Sort(votes, Itself)[i], Median(votes))
  {
    SortSorts(votes, Itself);
    MiddleBetween(votes);
    if i <= (|votes| - 1) / 2 {
      SortedAt(Sort(votes, Itself), i, (|votes| - 1) / 2);
    } else {
      SortedAt(Sort(votes, Itself), |votes| / 2, i);
    }
  }

  /** The place of the lower middle vote is the number of votes below it. */
  lemma LowerPlace(votes: seq<real>)
    requires votes != []
    ensures var c := Count(votes, LessThan(Lower(votes)));
      c < |votes| == |Sort(votes, Itself)| && Sort(votes, Itself)[c] == Lower(votes)
      && forall i :: 0 <= i < c ==> Sort(votes, Itself)[i] < Lower(votes)
  {
    var s, lo := Sort(votes, Itself), Lower(votes);
    var c := Count(votes, LessThan(lo));
    SortSorts(votes, Itself);
    OrderStatistic(votes, (|votes| - 1) / 2, LessThan(lo));
    assert c <= (|votes| - 1) / 2;
    OrderStatistic(votes, c, LessThan(lo));
    SortedAt(s, c, (|votes| - 1) / 2);
    forall i | 0 <= i < c ensures s[i] < lo { OrderStatistic(votes, i, LessThan(lo)); }
  }

  /** The reason quoted is that of grade number c, c being the number of votes below the lower middle vote. */
  lemma {:induction false} QuotedIsCount(votes: seq<real>)
    requires votes != []
    ensures Quoted(votes) == Count(votes, LessThan(Lower(votes)))
  {
    var s, m := Sort(votes, Itself), Median(votes);
    var c := Count(votes, LessThan(Lower(votes)));
    LowerPlace(votes);
    forall i | 0 <= i < |s|
      ensures Distance(s[c], m) <= Distance(s[i], m) && (i < c ==> Distance(s[c], m) < Distance(s[i], m))
    {
      LowerClosest(votes, i);
    }
    FirstClosestIs(s, m, c);
  }

  lemma FirstClosestIs(s: seq<real>, m: real, c: nat)
    requires c < |s| && forall i :: 0 <= i < |s| ==> Distance(s[c], m) <= Distance(s[i], m)
    requires forall i :: 0 <= i < c ==> Distance(s[c], m) < Distance(s[i], m)
    ensures Closest(s, m) == c
  {
  }

  /**
   * With c the number of votes below the lower middle vote, the reason quoted, grade number c's, is that of a
   * vote closest to the median exactly when vote number c is between the middle votes.
   */
  lemma {:induction false} QuotedClosestExactly(votes: seq<real>)
    requires votes != []
    ensures var c := Count(votes, LessThan(Lower(votes)));
      && c == Quoted(votes) < |votes|
      && ((forall i :: 0 <= i < |votes| ==> Distance(votes[c], Median(votes)) <= Distance(votes[i], Median(votes)))
          <==> Lower(votes) <= votes[c] <= Upper(votes))
  {
    QuotedInRange(votes);
    QuotedIsCount(votes);
    MiddleBetween(votes);
    NoneCloser(votes);
    var v, m := votes[Quoted(votes)], Median(votes);
    if !(Lower(votes) <= v <= Upper(votes)) {
      var j := Occurs(votes);
      assert Distance(votes[j], m) < Distance(v, m);
    }
  }

  /** No vote is closer to the median than the lower middle one. */
  lemma NoneCloser(votes: seq<real>)
    requires votes != []
    ensures forall i :: 0 <= i < |votes| ==>
              Distance(Lower(votes), Median(votes)) <= Distance(votes[i], Median(votes))
  {
    var s := Sort(votes, Itself);
    SortSorts(votes, Itself);
    forall i | 0 <= i < |votes| ensures Distance(Lower(votes), Median(votes)) <= Distance(votes[i], Median(votes)) {
      assert votes[i] in multiset(s);
      var k :| 0 <= k < |s| && s[k] == votes[i];
      LowerClosest(votes, k);
    }
  }

  /** The lower middle vote is one of the votes. */
  lemma Occurs(votes: seq<real>) returns (j: nat)
    requires votes != []
    ensures j < |votes| && votes[j] == Lower(votes)
  {
    SortSorts(votes, Itself);
    assert Lower(votes) in multiset(Sort(votes, Itself));
    assert Lower(votes) in multiset(votes);
    j :| 0 <= j < |votes| && votes[j] == Lower(votes);
  }

  /** For instance votes 0.5, 0 and 1 in this order: the median is the first vote, the reason quoted the second's. */
  lemma {:induction false} QuotesAnother()
    ensures Median([0.5, 0.0, 1.0]) == 0.5 && Quoted([0.5, 0.0, 1.0]) == 1
  {
    var votes: seq<real> := [0.5, 0.0, 1.0];
    var two, one: seq<real> := [0.0, 1.0], [1.0];
    assert votes[1..] == two && two[1..] == one && one[1..] == [];
    assert Sort(one, Itself) == one && Sort(two, Itself) == [0.0, 1.0];
    assert [0.0, 1.0][1..] == one;
    assert Sort(votes, Itself) == [0.0, 0.5, 1.0];
    QuotedInRange(votes);
    assert Distance(0.5, 0.5) == 0.0 && Distance(0.0, 0.5) == 0.5;
  }

  // ----- robustness of the scores -----

  /** Swapping the grades around leaves every dimension's score unchanged. */
  lemma {:induction false} VotesOrderFree(
    grades: seq<seq<DimensionScore>>, others: seq<seq<DimensionScore>>, dimension: string)
    requires multiset(grades) == multiset(others)
    ensures multiset(Votes(grades, dimension)) == multiset(Votes(others, dimension))
    decreases |grades|
  {
    assert |multiset(grades)| == |grades| && |multiset(others)| == |others|;
    if grades != [] {
      var last := |grades| - 1;
      var g := grades[last];
      assert g in multiset(others);
      var j :| 0 <= j < |others| && others[j] == g;
      var rest := others[..j] + others[j + 1..];
      assert others == others[..j] + [g] + others[j + 1..];
      assert grades == grades[..last] + [g];
      assert multiset(rest) == multiset(others) - multiset{g};
      VotesOrderFree(grades[..last], rest, dimension);
      VotesConcat(others[..j] + [g], others[j + 1..], dimension);
      VotesConcat(others[..j], [g], dimension);
      VotesConcat(others[..j], others[j + 1..], dimension);
      VotesConcat(grades[..last], [g], dimension);
    }
  }

  lemma {:induction false} VotesConcat(a: seq<seq<DimensionScore>>, b: seq<seq<DimensionScore>>, dimension: string)
    ensures Votes(a + b, dimension) == Votes(a, dimension) + Votes(b, dimension)
  {
    if b == [] {
      assert a + b == a;
    } else {
      var last := |b| - 1;
      assert (a + b)[..|a + b| - 1] == a + b[..last];
      VotesConcat(a, b[..last], dimension);
    }
  }

  lemma {:induction false} ScoresOrderFree(
    grades: seq<seq<DimensionScore>>, others: seq<seq<DimensionScore>>, dimension: string)
    requires multiset(grades) == multiset(others)
    ensures DimensionMedian(grades, dimension) == DimensionMedian(others, dimension)
  {
    VotesOrderFree(grades, others, dimension);
    var a, b := Votes(grades, dimension), Votes(others, dimension);
    assert |multiset(a)| == |a| && |multiset(b)| == |b|;
    if a != [] { MedianOrderFree(a, b); }
  }

  /** Each grade of b votes on the same occasions as that of a, and never lower. */
  ghost predicate Raised(a: seq<seq<DimensionScore>>, b: seq<seq<DimensionScore>>, dimension: string) {
    |a| == |b| && forall i :: 0 <= i < |a| ==> VoteRaised(a[i], b[i], dimension)
  }

  predicate VoteRaised(a: seq<DimensionScore>, b: seq<DimensionScore>, dimension: string) {
    match (VoteOf(a, dimension), VoteOf(b, dimension))
    case (None, None) => true
    case (Some(v), Some(w)) => v <= w
    case _ => false
  }

  lemma {:induction false} VotesRise(a: seq<seq<DimensionScore>>, b: seq<seq<DimensionScore>>, dimension: string)
    requires Raised(a, b, dimension)
    ensures PointwiseAtMost(Votes(a, dimension), Votes(b, dimension))
  {
    if a != [] {
      var last := |a| - 1;
      assert VoteRaised(a[last], b[last], dimension);
      forall i | 0 <= i < last ensures VoteRaised(a[..last][i], b[..last][i], dimension) {
        assert VoteRaised(a[i], b[i], dimension);
      }
      VotesRise(a[..last], b[..last], dimension);
    }
  }

  /** Raising any votes never lowers a dimension's score. */
  lemma {:induction false} ScoresMonotone(a: seq<seq<DimensionScore>>, b: seq<seq<DimensionScore>>, dimension: string)
    requires Raised(a, b, dimension)
    ensures DimensionMedian(a, dimension) <= DimensionMedian(b, dimension)
  {
    VotesRise(a, b, dimension);
    if Votes(a, dimension) != [] { MedianMonotone(Votes(a, dimension), Votes(b, dimension)); }
  }

  /** More than half of a dimension's votes in a part of [0, 1] hold its score there. */
  lemma {:induction false} ScoreFollowsMajority(grades: seq<seq<DimensionScore>>, dimension: string, lo: real, hi: real)
    requires 0.0 <= lo <= hi <= 1.0
    requires 2 * Count(Votes(grades, dimension), Between(lo, hi)) > |Votes(grades, dimension)|
    ensures lo <= DimensionMedian(grades, dimension) <= hi
  {
    CountSize(Votes(grades, dimension), Between(lo, hi));
    MajorityBinds(Votes(grades, dimension), lo, hi);
  }

  // ----- grade_with_votes -----

  datatype Grade = Grade(score: real, reasoning: string, votes: Option<seq<real>>)

  datatype GradeError = GraderFailed(message: string) | ScoreOutOfRange(score: real) | NoReasoning

  /** GradeResult::new */
  function MakeGrade(score: real, reasoning: string): Result<Grade, GradeError> {
    if !(0.0 <= score <= 1.0) then Err(ScoreOutOfRange(score))
    else if reasoning == "" then Err(NoReasoning)
    else Ok(Grade(score, reasoning, None))
  }

  function VoteCount(votes: nat): nat {
    if votes < 1 then 1 else if votes > 9 then 9 else votes
  }

  /** The first failure among the first n answers. */
  function FirstFailure(answers: seq<Result<Grade, GradeError>>, n: nat): (r: Option<nat>)
    requires n <= |answers|
    ensures r.Some? ==> r.value < n && answers[r.value].Err? && forall k :: 0 <= k < r.value ==> answers[k].Ok?
    ensures r.None? ==> forall k :: 0 <= k < n ==> answers[k].Ok?
  {
    if n == 0 then None else
    var earlier := FirstFailure(answers, n - 1);
    if earlier.Some? then earlier else if answers[n - 1].Err? then Some(n - 1) else None
  }

  function Scores(answers: seq<Result<Grade, GradeError>>, n: nat): (scores: seq<real>)
    requires n <= |answers| && forall i :: 0 <= i < n ==> answers[i].Ok?
    ensures |scores| == n && forall i :: 0 <= i < n ==> scores[i] == answers[i].value.score
  {
    if n == 0 then [] else Scores(answers, n - 1) + [answers[n - 1].value.score]
  }

  lemma {:induction false} CountAll(s: seq<real>, p: real -> bool)
    requires forall i :: 0 <= i < |s| ==> p(s[i])
    ensures Count(s, p) == |s|
  {
    if s != [] { CountAll(s[1..], p); }
  }

  predicate InRange(scores: seq<real>) {
    forall i :: 0 <= i < |scores| ==> 0.0 <= scores[i] <= 1.0
  }

  lemma MedianInRange(scores: seq<real>)
    requires scores != [] && InRange(scores)
    ensures 0.0 <= Median(scores) <= 1.0
  {
    CountAll(scores, Between(0.0, 1.0));
    MajorityBinds(scores, 0.0, 1.0);
  }

  /** GradeResult::with_votes, if there is a grade. */
  function WithVotes(r: Result<Grade, GradeError>, votes: seq<real>): Result<Grade, GradeError> {
    match r
    case Ok(g) => Ok(g.(votes := Some(votes)))
    case Err(e) => Err(e)
  }

  /** The grade given for some scores and the last reasoning. */
  function Voted(scores: seq<real>, reasoning: string): Result<Grade, GradeError>
    requires scores != []
  {
    WithVotes(MakeGrade(Median(scores), reasoning), Sort(scores, Itself))
  }

  /**
   * The voted grade is the median with the given reasoning and every score in rising order, exactly when the median
   * is in range and there is a reasoning; scores in range never cause a range error.
   */
  lemma VotedInRange(scores: seq<real>, reasoning: string)
    requires scores != []
    ensures Voted(scores, reasoning).Ok? <==> 0.0 <= Median(scores) <= 1.0 && reasoning != ""
    ensures InRange(scores) ==> 0.0 <= Median(scores) <= 1.0
    ensures Voted(scores, reasoning).Err? ==>
              Voted(scores, reasoning).error ==
              if 0.0 <= Median(scores) <= 1.0 then NoReasoning else ScoreOutOfRange(Median(scores))
    ensures Voted(scores, reasoning).Ok? ==>
              exists votes :: Voted(scores, reasoning).value == Grade(Median(scores), reasoning, Some(votes))
                              && Sorted(votes, Itself) && multiset(votes) == multiset(scores)
  {
    SortSorts(scores, Itself);
    if InRange(scores) { MedianInRange(scores); }
  }

  /** At least one and at most nine votes, and otherwise as many as asked for. */
  lemma VoteCountNearest(votes: nat, n: nat)
    requires 1 <= n <= 9
    ensures 1 <= VoteCount(votes) <= 9
    ensures n != VoteCount(votes) ==>
              Distance(VoteCount(votes) as real, votes as real) < Distance(n as real, votes as real)
  {
  }

  /**
   * answers[i] is the outcome of the i-th call of grade.  The first failure is
   * passed on; otherwise the grade is the median of the calls with the last
   * reasoning, and lists the scores.
   */
  method GradeWithVotes(answers: seq<Result<Grade, GradeError>>, votes: nat) returns (r: Result<Grade, GradeError>)
    requires VoteCount(votes) <= |answers|
    ensures var n := VoteCount(votes);
      match FirstFailure(answers, n)
      case Some(i) => r == answers[i]
      case None => r == Voted(Scores(answers, n), answers[n - 1].value.reasoning)
  {
    var n := VoteCount(votes);
    var scores := [];
    var reasoning := "";
    for i := 0 to n
      invariant FirstFailure(answers, i) == None && scores == Scores(answers, i)
      invariant i > 0 ==> reasoning == answers[i - 1].value.reasoning
    {
      if answers[i].Err? {
        FailureFound(answers, i, n);
        return answers[i];
      }
      scores := scores + [answers[i].value.score];
      reasoning := answers[i].value.reasoning;
    }
    r := GradeOf(scores, reasoning);
  }

  /** The part after the loop. */
  method GradeOf(scores0: seq<real>, reasoning: string) returns (r: Result<Grade, GradeError>)
    requires scores0 != []
    ensures r == Voted(scores0, reasoning)
  {
    SortSorts(scores0, Itself);
    var scores := Sort(scores0, Itself);
    var mid := |scores| / 2;
    var median := if |scores| % 2 == 0 then (scores[mid - 1] + scores[mid]) / 2.0 else scores[mid];
    r := MakeGrade(median, reasoning);
    if r.Ok? {
      r := Ok(r.value.(votes := Some(scores)));
    }
  }

  lemma {:induction false} FailureFound(answers: seq<Result<Grade, GradeError>>, i: nat, n: nat)
    requires i < n <= |answers| && answers[i].Err? && FirstFailure(answers, i) == None
    ensures FirstFailure(answers, n) == Some(i)
    decreases n
  {
    if i < n - 1 { FailureFound(answers, i, n - 1); }
  }
}
