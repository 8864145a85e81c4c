/**
 * Word, tag and composite similarity of
 * crates/amplihack-agent-core/src/similarity.rs, on exact reals.
 *
 * How a text becomes a token set (lower-casing, punctuation, stop words) is a
 * parameter; every result holds for every such function.
 */
module Similarity {

  /** tokens: the token set of a text; tag: a tag lower-cased and trimmed. */
  datatype Lexicon = Lexicon(tokens: string -> set<string>, tag: string -> string)

  datatype NodeInput = NodeInput(content: string, tags: seq<string>, concept: string)

  /** Shared tokens over all tokens; zero as soon as one side has none. */
  function Jaccard<T>(a: set<T>, b: set<T>): real {
    if a == {} || b == {} then 0.0 else
    assert a <= a + b;
    assert a + b != {};
    |a * b| as real / |a + b| as real
  }

  function WordSimilarity(lex: Lexicon, a: string, b: string): real {
    Jaccard(lex.tokens(a), lex.tokens(b))
  }

  function TagSet(lex: Lexicon, tags: seq<string>): set<string> {
    set i | 0 <= i < |tags| && lex.tag(tags[i]) != "" :: lex.tag(tags[i])
  }

  function TagSimilarity(lex: Lexicon, a: seq<string>, b: seq<string>): real {
    if a == [] || b == [] then 0.0 else Jaccard(TagSet(lex, a), TagSet(lex, b))
  }

  function CompositeSimilarity(lex: Lexicon, a: NodeInput, b: NodeInput): real {
    0.5 * WordSimilarity(lex, a.content, b.content) +
    0.2 * TagSimilarity(lex, a.tags, b.tags) +
    0.3 * WordSimilarity(lex, a.concept, b.concept)
  }

  // ----- range, symmetry, extremes -----

  lemma JaccardSymmetric<T>(a: set<T>, b: set<T>)
    ensures Jaccard(a, b) == Jaccard(b, a)
  {
    assert a * b == b * a && a + b == b + a;
  }

  lemma SubsetSize<T>(a: set<T>, b: set<T>)
    requires a <= b
    ensures |a| <= |b| && (|a| == |b| ==> a == b)
  {
    assert b == a + (b - a);
  }

  lemma RatioRange(p: nat, q: nat)
    requires p <= q && 0 < q
    ensures 0.0 <= p as real / q as real <= 1.0
    ensures (p as real / q as real == 1.0 <==> p == q) && (p as real / q as real == 0.0 <==> p == 0)
  {
    var r := p as real / q as real;
    assert r * q as real == p as real;
    assert r > 1.0 ==> r * q as real > 1.0 * q as real;
  }

  /** In [0, 1]; one exactly for equal non-empty sets, zero exactly for disjoint ones. */
  lemma {:induction false} JaccardRange<T>(a: set<T>, b: set<T>)
    ensures 0.0 <= Jaccard(a, b) <= 1.0
    ensures Jaccard(a, b) == 1.0 <==> a == b && a != {}
    ensures Jaccard(a, b) == 0.0 <==> a * b == {}
  {
    if a != {} && b != {} {
      SubsetSize(a * b, a + b);
      SubsetSize(a, a + b);
      assert a <= a + b && a + b != {};
      RatioRange(|a * b|, |a + b|);
      if a == b {
        assert a * b == a + b;
      }
      if a * b == a + b {
        assert a <= a * b && b <= a * b;
      }
    }
  }

  // ----- the triangle inequality -----

  /** Elements of exactly one of the two sets. */
  function Apart<T>(a: set<T>, b: set<T>): nat {
    |a - b| + |b - a|
  }

  /** On non-empty sets the distance is 2d / (|a| + |b| + d), d counting what sets them apart. */
  lemma DistanceForm<T>(a: set<T>, b: set<T>)
    requires a != {} && b != {}
    ensures 1.0 - Jaccard(a, b) == 2.0 * Apart(a, b) as real / (|a| + |b| + Apart(a, b)) as real
  {
    assert a == (a - b) + (a * b) && b == (b - a) + (a * b);
    assert a + b == (a - b) + (b - a) + (a * b);
    var u, i, d := |a + b| as real, |a * b| as real, Apart(a, b) as real;
    assert |a + b| == Apart(a, b) + |a * b|;
    assert |a| + |b| == Apart(a, b) + 2 * |a * b|;
    assert a <= a + b && a + b != {};
    assert u > 0.0 && u == d + i;
    assert (|a| + |b| + Apart(a, b)) as real == 2.0 * u;
    HalfRatio(u, i, d);
  }

  lemma HalfRatio(u: real, i: real, d: real)
    requires u > 0.0 && u == d + i
    ensures 1.0 - i / u == 2.0 * d / (2.0 * u)
  {
    SumOfFractions(d, i, u);
    CrossMultiply(u, u, 1.0, 1.0);
    CrossMultiply(1.0, 1.0, u, u);
    assert d * (2.0 * u) == 2.0 * d * u;
    CrossMultiply(d, u, 2.0 * d, 2.0 * u);
    CrossMultiply(2.0 * d, 2.0 * u, d, u);
  }

  lemma ApartTriangle<T>(a: set<T>, b: set<T>, c: set<T>)
    ensures Apart(a, c) <= Apart(a, b) + Apart(b, c)
    ensures |b| <= |a| + Apart(a, b) && |b| <= |c| + Apart(b, c)
  {
    SubsetSize(a - c, (a - b) + (b - c));
    SubsetSize(c - a, (c - b) + (b - a));
    assert |(a - b) + (b - c)| <= |a - b| + |b - c|;
    assert |(c - b) + (b - a)| <= |c - b| + |b - a|;
    SubsetSize(b, a + (b - a));
    SubsetSize(b, c + (b - c));
  }

  /** x/(x+k) rises with x. */
  lemma FractionRises(x: real, y: real, k: real)
    requires 0.0 <= x <= y && k > 0.0
    ensures x / (x + k) <= y / (y + k)
  {
    CrossMultiply(x, x + k, y, y + k);
  }

  lemma CrossMultiply(p: real, q: real, r: real, s: real)
    requires q > 0.0 && s > 0.0 && p * s <= r * q
    ensures p / q <= r / s
  {
    var x, y := p / q, r / s;
    assert x * q == p && y * s == r;
    assert x * q * s <= y * s * q;
    assert x > y ==> x * (q * s) > y * (q * s);
  }

  /** A smaller denominator makes a larger fraction. */
  lemma FractionFalls(x: real, q: real, s: real)
    requires 0.0 <= x && 0.0 < s <= q
    ensures x / q <= x / s
  {
    CrossMultiply(x, q, x, s);
  }

  /** One minus the Jaccard similarity obeys the triangle inequality, empty sets included. */
  lemma {:induction false} JaccardTriangle<T>(a: set<T>, b: set<T>, c: set<T>)
    ensures 1.0 - Jaccard(a, c) <= (1.0 - Jaccard(a, b)) + (1.0 - Jaccard(b, c))
  {
    JaccardRange(a, b);
    JaccardRange(b, c);
    JaccardRange(a, c);
    if a != {} && b != {} && c != {} {
      DistanceForm(a, b);
      DistanceForm(b, c);
      DistanceForm(a, c);
      ApartTriangle(a, b, c);
      SubsetSize({}, a);
      RealTriangle(|a| as real, |b| as real, |c| as real,
                   Apart(a, b) as real, Apart(b, c) as real, Apart(a, c) as real);
    }
  }

  lemma SplitFraction(x: real, y: real, z: real, k: real)
    requires 0.0 <= z <= x + y && k > 0.0 && x >= 0.0 && y >= 0.0
    ensures z / (z + k) <= x / (x + y + k) + y / (x + y + k)
  {
    FractionRises(z, x + y, k);
    SumOfFractions(x, y, x + y + k);
  }

  /** The same inequality on the sizes alone, halved. */
  lemma HalfTriangle(a: real, b: real, c: real, ab: real, bc: real, ac: real)
    requires a > 0.0 && b > 0.0 && c > 0.0 && ab >= 0.0 && bc >= 0.0 && 0.0 <= ac <= ab + bc
    requires b <= a + ab && b <= c + bc
    ensures ac / (a + c + ac) <= ab / (a + b + ab) + bc / (b + c + bc)
  {
    SplitFraction(ab, bc, ac, a + c);
    FractionFalls(ab, ab + bc + (a + c), a + b + ab);
    FractionFalls(bc, ab + bc + (a + c), b + c + bc);
    assert ac + (a + c) == a + c + ac;
  }

  lemma RealTriangle(a: real, b: real, c: real, ab: real, bc: real, ac: real)
    requires a > 0.0 && b > 0.0 && c > 0.0 && ab >= 0.0 && bc >= 0.0 && 0.0 <= ac <= ab + bc
    requires b <= a + ab && b <= c + bc
    ensures 2.0 * ac / (a + c + ac) <= 2.0 * ab / (a + b + ab) + 2.0 * bc / (b + c + bc)
  {
    HalfTriangle(a, b, c, ab, bc, ac);
    Doubled(ac, a + c + ac);
    Doubled(ab, a + b + ab);
    Doubled(bc, b + c + bc);
  }

  lemma SumOfFractions(x: real, y: real, q: real)
    requires q > 0.0
    ensures (x + y) / q == x / q + y / q
  {
  }

  lemma Doubled(x: real, q: real)
    requires q > 0.0
    ensures 2.0 * x / q == 2.0 * (x / q)
  {
  }

  lemma TagSetExactly(lex: Lexicon, tags: seq<string>, tag: string)
    ensures tag in TagSet(lex, tags) <==> tag != "" && exists t :: t in tags && lex.tag(t) == tag
  {
    if t :| t in tags && lex.tag(t) == tag != "" {
      var i :| 0 <= i < |tags| && tags[i] == t;
    }
  }

  /** Tag lists: the same, an empty list counting as no tags. */
  lemma TagSimilarityIsJaccard(lex: Lexicon, a: seq<string>, b: seq<string>)
    ensures TagSimilarity(lex, a, b) == Jaccard(TagSet(lex, a), TagSet(lex, b))
  {
  }

  /** The weighted composite is symmetric, in [0, 1], and one minus it obeys the triangle inequality. */
  lemma {:induction false} CompositeIsDistance(lex: Lexicon, a: NodeInput, b: NodeInput, c: NodeInput)
    ensures CompositeSimilarity(lex, a, b) == CompositeSimilarity(lex, b, a)
    ensures 0.0 <= CompositeSimilarity(lex, a, b) <= 1.0
    ensures 1.0 - CompositeSimilarity(lex, a, c) <=
            (1.0 - CompositeSimilarity(lex, a, b)) + (1.0 - CompositeSimilarity(lex, b, c))
  {
    WordIsDistance(lex, a.content, b.content, c.content);
    WordIsDistance(lex, a.concept, b.concept, c.concept);
    TagIsDistance(lex, a.tags, b.tags, c.tags);
  }

  /** Two texts with the same words, and at least one. */
  predicate Same(a: set<string>, b: set<string>) {
    a == b && a != {}
  }

  /**
   * Equal content, tags and concept count for a half, a fifth and three tenths, and having nothing in common for
   * nothing; whatever is equal and whatever is apart, the composite adds up so.
   */
  lemma {:induction false} CompositeWeights(
    lex: Lexicon, a: NodeInput, b: NodeInput, content: bool, tags: bool, concept: bool)
    requires if content then Same(lex.tokens(a.content), lex.tokens(b.content))
             else lex.tokens(a.content) !! lex.tokens(b.content)
    requires if tags then Same(TagSet(lex, a.tags), TagSet(lex, b.tags)) else TagSet(lex, a.tags) !! TagSet(lex, b.tags)
    requires if concept then Same(lex.tokens(a.concept), lex.tokens(b.concept))
             else lex.tokens(a.concept) !! lex.tokens(b.concept)
    ensures CompositeSimilarity(lex, a, b) ==
            (if content then 0.5 else 0.0) + (if tags then 0.2 else 0.0) + (if concept then 0.3 else 0.0)
  {
    JaccardRange(lex.tokens(a.content), lex.tokens(b.content));
    JaccardRange(TagSet(lex, a.tags), TagSet(lex, b.tags));
    JaccardRange(lex.tokens(a.concept), lex.tokens(b.concept));
    TagSimilarityIsJaccard(lex, a.tags, b.tags);
  }

  lemma {:induction false} WordIsDistance(lex: Lexicon, a: string, b: string, c: string)
    ensures WordSimilarity(lex, a, b) == WordSimilarity(lex, b, a)
    ensures 0.0 <= WordSimilarity(lex, a, b) <= 1.0
    ensures 1.0 - WordSimilarity(lex, a, c) <= (1.0 - WordSimilarity(lex, a, b)) + (1.0 - WordSimilarity(lex, b, c))
  {
    JaccardSymmetric(lex.tokens(a), lex.tokens(b));
    JaccardRange(lex.tokens(a), lex.tokens(b));
    JaccardTriangle(lex.tokens(a), lex.tokens(b), lex.tokens(c));
  }

  lemma {:induction false} TagIsDistance(lex: Lexicon, a: seq<string>, b: seq<string>, c: seq<string>)
    ensures TagSimilarity(lex, a, b) == TagSimilarity(lex, b, a)
    ensures 0.0 <= TagSimilarity(lex, a, b) <= 1.0
    ensures 1.0 - TagSimilarity(lex, a, c) <= (1.0 - TagSimilarity(lex, a, b)) + (1.0 - TagSimilarity(lex, b, c))
  {
    TagSimilarityIsJaccard(lex, a, b);
    TagSimilarityIsJaccard(lex, b, a);
    TagSimilarityIsJaccard(lex, b, c);
    TagSimilarityIsJaccard(lex, a, c);
    JaccardSymmetric(TagSet(lex, a), TagSet(lex, b));
    JaccardRange(TagSet(lex, a), TagSet(lex, b));
    JaccardTriangle(TagSet(lex, a), TagSet(lex, b), TagSet(lex, c));
  }
}
