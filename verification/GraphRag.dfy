/**
 * Keyword search, similarity expansion and bounded breadth-first retrieval of
 * crates/amplihack-agent-core/src/graph_rag_retriever.rs.
 */
module GraphRag {
  import opened Wrappers
  import opened HierarchicalMemory
  import opened Similarity
  import opened StableSort
  import opened Text
  import Utf8

  datatype Subgraph = Subgraph(nodes: seq<Node>, edges: seq<Edge>, query: string)

  /** Unicode lower-casing, of which nothing is assumed. */
  type Lowering = string -> string

  // ----- one hop -----

  /** node_map: among nodes with the same id the last one wins. */
  function Lookup(nodes: seq<Node>, id: string): Option<Node> {
    if nodes == [] then None
    else if nodes[|nodes| - 1].id == id then Some(nodes[|nodes| - 1])
    else Lookup(nodes[..|nodes| - 1], id)
  }

  /** The other end of a heavy enough SIMILAR_TO edge at id. */
  function OtherEnd(e: Edge, id: string, minSimilarity: real): Option<string> {
    if e.relationship != SIMILAR_TO || e.weight < minSimilarity then None
    else if e.source == id then Some(e.target)
    else if e.target == id then Some(e.source)
    else None
  }

  /** What one edge contributes to the neighbours of id. */
  function Neighbour(nodes: seq<Node>, e: Edge, id: string, minSimilarity: real): seq<(Node, real)> {
    match OtherEnd(e, id, minSimilarity)
    case None => []
    case Some(other) =>
      match Lookup(nodes, other)
      case None => []
      case Some(n) => [(n, e.weight)]
  }

  /** The neighbours of id, in edge order. */
  function Neighbours(nodes: seq<Node>, edges: seq<Edge>, id: string, minSimilarity: real): seq<(Node, real)> {
    if edges == [] then [] else
    var last := |edges| - 1;
    Neighbours(nodes, edges[..last], id, minSimilarity) + Neighbour(nodes, edges[last], id, minSimilarity)
  }

  function FallingWeight(p: (Node, real)): real {
    -p.1
  }

  function FallingConfidence(n: Node): real {
    -n.confidence
  }

  // ----- keywords -----

  predicate Mentions(lower: Lowering, n: Node, word: string) {
    n.category.Semantic? && (Contains(lower(n.content), lower(word)) || Contains(lower(n.concept), lower(word)))
  }

  /** The nodes that mention a word, in storage order. */
  function Mentioning(lower: Lowering, nodes: seq<Node>, word: string): (r: seq<Node>)
    ensures forall n :: n in r <==> n in nodes && Mentions(lower, n, word)
  {
    if nodes == [] then [] else
    var last := |nodes| - 1;
    var r := Mentioning(lower, nodes[..last], word)
             + (if Mentions(lower, nodes[last], word) then [nodes[last]] else []);
    assert nodes == nodes[..last] + [nodes[last]];
    r
  }

  function Take<T>(s: seq<T>, limit: nat): seq<T> {
    if |s| <= limit then s else s[..limit]
  }

  /** The query words that are searched for: those longer than two bytes. */
  function Keywords(query: string): seq<string> {
    LongWords(SplitWhitespace(query))
  }

  function LongWords(words: seq<string>): (r: seq<string>)
    ensures forall w :: w in r <==> w in words && Utf8.ByteLength(w) > 2
  {
    if words == [] then []
    else (if Utf8.ByteLength(words[0]) > 2 then [words[0]] else []) + LongWords(words[1..])
  }

  // ----- the ball a query reaches -----

  function Ids(nodes: seq<Node>): set<string> {
    set i | 0 <= i < |nodes| :: nodes[i].id
  }

  /** What a retrieval works on. */
  datatype Search = Search(lower: Lowering, nodes: seq<Node>, edges: seq<Edge>, query: string, minSimilarity: real)

  /** A Semantic node in whose content or concept the word occurs, both lower-cased. */
  ghost predicate About(lower: Lowering, n: Node, word: string) {
    n.category == Semantic && (Occurs(lower(word), lower(n.content)) || Occurs(lower(word), lower(n.concept)))
  }

  lemma AboutExactly(lower: Lowering, n: Node, word: string)
    ensures Mentions(lower, n, word) <==> About(lower, n, word)
  {
    ContainsExactly(lower(n.content), lower(word));
    ContainsExactly(lower(n.concept), lower(word));
  }

  /** The id of a Semantic node about some word of the query of more than two bytes. */
  ghost predicate IsSeed(s: Search, id: string) {
    exists n, w ::
      n in s.nodes && n.id == id && w in SplitWhitespace(s.query) && Utf8.ByteLength(w) > 2 && About(s.lower, n, w)
  }

  /** A SIMILAR_TO edge of weight at least t between a and b, in either direction. */
  predicate Joins(e: Edge, a: string, b: string, t: real) {
    && e.relationship == "SIMILAR_TO" && e.weight >= t
    && ((e.source == a && e.target == b) || (e.source == b && e.target == a))
  }

  lemma OtherEndJoins(e: Edge, a: string, b: string, t: real)
    ensures OtherEnd(e, a, t) == Some(b) <==> Joins(e, a, b, t)
  {
  }

  ghost predicate Hop(edges: seq<Edge>, a: string, b: string, t: real) {
    exists e :: e in edges && Joins(e, a, b, t)
  }

  /** Such a hop over an edge of the given weight. */
  ghost predicate WeightedHop(edges: seq<Edge>, a: string, b: string, t: real, weight: real) {
    exists e :: e in edges && Joins(e, a, b, t) && e.weight == weight
  }

  predicate ByConfidence(nodes: seq<Node>) {
    forall i, j :: 0 <= i < j < |nodes| ==> nodes[i].confidence >= nodes[j].confidence
  }

  predicate ByWeight(ps: seq<(Node, real)>) {
    forall i, j :: 0 <= i < j < |ps| ==> ps[i].1 >= ps[j].1
  }

  /** A stored id reached from a seed in at most `hops` hops between stored ids. */
  ghost predicate Within(s: Search, id: string, hops: nat)
    decreases hops
  {
    id in Ids(s.nodes) &&
    if hops == 0 then IsSeed(s, id)
    else
      Within(s, id, hops - 1) ||
      exists a :: Within(s, a, hops - 1) && Hop(s.edges, a, id, s.minSimilarity)
  }

  /** All within h hops, and everything one hop nearer is among them. */
  ghost predicate BetweenBalls(s: Search, ids: set<string>, h: nat) {
    && (forall id :: id in ids ==> Within(s, id, h))
    && (h > 0 ==> forall id :: Within(s, id, h - 1) ==> id in ids)
  }

  /** Nothing is among the ids while something nearer to the seeds is left out. */
  ghost predicate NearestFirst(s: Search, ids: set<string>) {
    exists h: nat :: BetweenBalls(s, ids, h)
  }

  lemma {:induction false} WithinGrows(s: Search, id: string, hops: nat, more: nat)
    requires hops <= more && Within(s, id, hops)
    ensures Within(s, id, more)
    decreases more
  {
    if hops < more { WithinGrows(s, id, hops, more - 1); }
  }

  lemma {:induction false} LookupFinds(nodes: seq<Node>, id: string)
    ensures id in Ids(nodes) <==> Lookup(nodes, id).Some?
    ensures Lookup(nodes, id).Some? ==> Lookup(nodes, id).value in nodes && Lookup(nodes, id).value.id == id
  {
    if nodes != [] {
      var last := |nodes| - 1;
      LookupFinds(nodes[..last], id);
      assert nodes == nodes[..last] + [nodes[last]];
      assert forall i :: 0 <= i < last ==> nodes[..last][i] == nodes[i];
    }
  }

  /** Every listed neighbour is a stored node one hop away, and every such id is listed. */
  lemma {:induction false} NeighboursAreHops(nodes: seq<Node>, edges: seq<Edge>, a: string, t: real)
    ensures forall p :: p in Neighbours(nodes, edges, a, t) ==> p.0 in nodes && Hop(edges, a, p.0.id, t)
    ensures forall b :: Hop(edges, a, b, t) && b in Ids(nodes) ==>
      exists p :: p in Neighbours(nodes, edges, a, t) && p.0.id == b
  {
    if edges != [] {
      var last := |edges| - 1;
      var before, e := edges[..last], edges[last];
      assert edges == before + [e];
      NeighboursAreHops(nodes, before, a, t);
      var all := Neighbours(nodes, edges, a, t);
      forall p | p in all ensures p.0 in nodes && Hop(edges, a, p.0.id, t) {
        if p in Neighbours(nodes, before, a, t) {
          assert Hop(before, a, p.0.id, t);
        } else {
          LookupFinds(nodes, OtherEnd(e, a, t).value);
          OtherEndJoins(e, a, p.0.id, t);
          assert e in edges;
        }
      }
      forall b | Hop(edges, a, b, t) && b in Ids(nodes) ensures exists p :: p in all && p.0.id == b {
        if Hop(before, a, b, t) {
          var p :| p in Neighbours(nodes, before, a, t) && p.0.id == b;
          assert p in all;
        } else {
          LookupFinds(nodes, b);
          OtherEndJoins(e, a, b, t);
          assert Neighbour(nodes, e, a, t)[0] in all;
        }
      }
    }
  }

  // ----- sets of ids -----

  /** Listed neighbours carry the weights of their hops, and every hop to a stored id is listed with its weight. */
  lemma {:induction false} NeighboursCarryWeights(nodes: seq<Node>, edges: seq<Edge>, a: string, t: real)
    ensures forall p :: p in Neighbours(nodes, edges, a, t) ==> WeightedHop(edges, a, p.0.id, t, p.1)
    ensures forall b, weight :: WeightedHop(edges, a, b, t, weight) && b in Ids(nodes) ==>
      exists p :: p in Neighbours(nodes, edges, a, t) && p.0.id == b && p.1 == weight
  {
    if edges != [] {
      var last := |edges| - 1;
      var before, e := edges[..last], edges[last];
      var all := Neighbours(nodes, edges, a, t);
      assert edges == before + [e];
      NeighboursCarryWeights(nodes, before, a, t);
      forall p | p in all ensures WeightedHop(edges, a, p.0.id, t, p.1) {
        if p in Neighbours(nodes, before, a, t) {
          assert WeightedHop(before, a, p.0.id, t, p.1);
        } else {
          LookupFinds(nodes, OtherEnd(e, a, t).value);
          OtherEndJoins(e, a, p.0.id, t);
          assert e in edges;
        }
      }
      forall b, weight | WeightedHop(edges, a, b, t, weight) && b in Ids(nodes)
        ensures exists p :: p in all && p.0.id == b && p.1 == weight
      {
        if WeightedHop(before, a, b, t, weight) {
          var p :| p in Neighbours(nodes, before, a, t) && p.0.id == b && p.1 == weight;
          assert p in all;
        } else {
          LookupFinds(nodes, b);
          OtherEndJoins(e, a, b, t);
          assert Neighbour(nodes, e, a, t)[0] in all;
        }
      }
    }
  }

  lemma {:induction false} IdsOf(nodes: seq<Node>)
    ensures forall id :: id in Ids(nodes) <==> exists n :: n in nodes && n.id == id
    ensures UniqueIds(nodes) ==> |Ids(nodes)| == |nodes|
  {
    if nodes != [] {
      var last := |nodes| - 1;
      var init := nodes[..last];
      IdsOf(init);
      assert nodes == init + [nodes[last]];
      assert forall i :: 0 <= i < last ==> init[i] == nodes[i];
      assert Ids(nodes) == Ids(init) + {nodes[last].id};
    }
  }

  lemma IdsOfMore(nodes: seq<Node>, n: Node)
    ensures Ids(nodes + [n]) == Ids(nodes) + {n.id}
    ensures UniqueIds(nodes) && n.id !in Ids(nodes) ==> UniqueIds(nodes + [n])
  {
    var more := nodes + [n];
    assert more[|nodes|] == n;
    assert forall i :: 0 <= i < |nodes| ==> more[i] == nodes[i];
  }

  lemma {:induction false} UniqueOnce(nodes: seq<Node>, n: Node)
    requires UniqueIds(nodes)
    ensures multiset(nodes)[n] <= 1
  {
    if nodes != [] {
      UniqueOnce(nodes[1..], n);
      assert nodes == [nodes[0]] + nodes[1..];
      if nodes[0] == n {
        assert forall i :: 0 <= i < |nodes[1..]| ==> nodes[1..][i] == nodes[i + 1];
        assert n !in nodes[1..];
      }
    }
  }

  lemma SameMembers(s: seq<Node>, t: seq<Node>)
    requires multiset(s) == multiset(t)
    ensures forall n :: n in t <==> n in s
  {
    forall n ensures n in t <==> n in s {
      assert n in multiset(s) <==> n in multiset(t);
    }
  }

  lemma CountedTwice(t: seq<Node>, i: nat, j: nat)
    requires i < j < |t| && t[i] == t[j]
    ensures multiset(t)[t[i]] >= 2
  {
    assert t == t[..i] + [t[i]] + t[i + 1..j] + [t[j]] + t[j + 1..];
  }

  lemma SameIds(s: seq<Node>, t: seq<Node>)
    requires forall n :: n in t <==> n in s
    ensures Ids(t) == Ids(s)
  {
    IdsOf(s);
    IdsOf(t);
  }

  lemma IdsDiffer(nodes: seq<Node>, n: Node, o: Node)
    requires UniqueIds(nodes) && n in nodes && o in nodes && n != o
    ensures n.id != o.id
  {
  }

  /** Rearranging keeps ids unique. */
  lemma UniqueRearranged(s: seq<Node>, t: seq<Node>)
    requires UniqueIds(s) && multiset(s) == multiset(t)
    ensures UniqueIds(t) && Ids(t) == Ids(s) && |t| == |s|
  {
    SameMembers(s, t);
    SameIds(s, t);
    forall i, j | 0 <= i < j < |t| ensures t[i].id != t[j].id {
      if t[i] == t[j] {
        CountedTwice(t, i, j);
        UniqueOnce(s, t[i]);
      } else {
        IdsDiffer(s, t[i], t[j]);
      }
    }
    assert |multiset(s)| == |s| && |multiset(t)| == |t|;
  }

  /** A prefix keeps ids unique and within the whole. */
  lemma PrefixIds(nodes: seq<Node>, limit: nat)
    ensures Ids(Take(nodes, limit)) <= Ids(nodes) && (UniqueIds(nodes) ==> UniqueIds(Take(nodes, limit)))
  {
    IdsOf(nodes);
    IdsOf(Take(nodes, limit));
  }

  lemma BlankHasNoWords(s: string)
    requires Trim(s) == ""
    ensures SplitWhitespace(s) == []
  {
    BlankStart(s);
  }

  lemma {:induction false} BlankStart(s: string)
    requires TrimEnd(TrimStart(s)) == ""
    ensures SplitWhitespace(s) == []
  {
    if s != [] && IsWhitespace(s[0]) {
      BlankStart(s[1..]);
    } else if s != [] {
      EndKeepsFirst(s);
    }
  }

  lemma {:induction false} EndKeepsFirst(s: string)
    requires s != [] && !IsWhitespace(s[0])
    ensures TrimEnd(s) != ""
  {
    if IsWhitespace(s[|s| - 1]) { EndKeepsFirst(s[..|s| - 1]); }
  }

  lemma {:induction false} MentioningUnique(lower: Lowering, nodes: seq<Node>, word: string)
    requires UniqueIds(nodes)
    ensures UniqueIds(Mentioning(lower, nodes, word))
  {
    if nodes != [] {
      var last := |nodes| - 1;
      MentioningUnique(lower, nodes[..last], word);
      forall n | n in Mentioning(lower, nodes[..last], word) ensures n.id != nodes[last].id {
        assert n in nodes[..last];
      }
    }
  }

  /** A keyword's ranked hits: all of them, or as many distinct ones as the limit. */
  lemma {:induction false} HitsCompleteOrFull(lower: Lowering, nodes: seq<Node>, word: string, limit: nat)
    ensures var hits := Take(Sort(Mentioning(lower, nodes, word), FallingConfidence), limit);
      && (forall n :: n in hits ==> n in nodes && Mentions(lower, n, word))
      && (UniqueIds(nodes) ==>
            UniqueIds(hits) && (|hits| < limit ==> forall n :: n in nodes && Mentions(lower, n, word) ==> n in hits))
  {
    var all := Mentioning(lower, nodes, word);
    var sorted := Sort(all, FallingConfidence);
    SortSorts(all, FallingConfidence);
    forall n ensures n in sorted <==> n in all { assert n in multiset(sorted) <==> n in multiset(all); }
    if UniqueIds(nodes) {
      MentioningUnique(lower, nodes, word);
      UniqueRearranged(all, sorted);
      PrefixIds(sorted, limit);
    }
  }

  // ----- the retriever -----

  /** The ids gathered so far: stored, distinct, none beyond `hops`. */
  ghost predicate Gathered(s: Search, all: seq<Node>, seen: set<string>, hops: nat) {
    && UniqueIds(all) && seen == Ids(all) && |seen| == |all|
    && (forall n :: n in all ==> n in s.nodes)
    && (forall id :: id in seen ==> Within(s, id, hops))
  }

  /** Every stored id one hop from a has been seen. */
  ghost predicate Explored(s: Search, seen: set<string>, a: string) {
    forall b :: Hop(s.edges, a, b, s.minSimilarity) && b in Ids(s.nodes) ==> b in seen
  }

  /** A listed edge is a hop of the memory, read from the expanded node, with its weight. */
  ghost predicate TrueEdge(s: Search, e: Edge) {
    e.relationship == SIMILAR_TO && WeightedHop(s.edges, e.source, e.target, s.minSimilarity, e.weight)
  }

  ghost predicate TrueEdges(s: Search, edges: seq<Edge>) {
    forall e :: e in edges ==> TrueEdge(s, e)
  }

  /** Every hop from a to a stored id is listed, with its weight. */
  ghost predicate ListedAll(s: Search, edges: seq<Edge>, a: string) {
    forall b, weight :: WeightedHop(s.edges, a, b, s.minSimilarity, weight) && b in Ids(s.nodes) ==>
      Edge(a, b, SIMILAR_TO, weight) in edges
  }

  /** That holds of every id within the given number of hops. */
  ghost predicate ListedWithin(s: Search, edges: seq<Edge>, hops: nat) {
    forall a :: Within(s, a, hops) ==> ListedAll(s, edges, a)
  }

  /** The edge a neighbour of an expanded node is listed with. */
  function ListedEdge(seed: string, p: (Node, real)): Edge {
    Edge(seed, p.0.id, SIMILAR_TO, p.1)
  }

  lemma Gather(s: Search, all: seq<Node>, seen: set<string>, hops: nat, n: Node)
    requires Gathered(s, all, seen, hops) && n in s.nodes && n.id !in seen && Within(s, n.id, hops)
    ensures Gathered(s, all + [n], seen + {n.id}, hops)
  {
    IdsOfMore(all, n);
  }

  lemma TrimOfKeyword(query: string, word: string)
    requires word in Keywords(query)
    ensures Trim(word) == word != ""
  {
    TrimOfWord(word);
  }

  /** Stored nodes, all within the given number of hops. */
  ghost predicate AllWithin(s: Search, hits: seq<Node>, hops: nat) {
    forall k :: 0 <= k < |hits| ==> hits[k] in s.nodes && Within(s, hits[k].id, hops)
  }

  predicate AllSeen(hits: seq<Node>, seen: set<string>) {
    forall k :: 0 <= k < |hits| ==> hits[k].id in seen
  }

  lemma HitsAreSeeds(s: Search, hits: seq<Node>, word: string, maxNodes: nat)
    requires hits == Take(Sort(Mentioning(s.lower, s.nodes, word), FallingConfidence), maxNodes)
    requires word in Keywords(s.query)
    ensures AllWithin(s, hits, 0)
  {
    HitsCompleteOrFull(s.lower, s.nodes, word, maxNodes);
    IdsOf(s.nodes);
    forall k | 0 <= k < |hits| ensures hits[k] in s.nodes && Within(s, hits[k].id, 0) {
      assert hits[k] in hits;
      AboutExactly(s.lower, hits[k], word);
      assert IsSeed(s, hits[k].id);
    }
  }

  /** Below the limit, seeing a keyword's hits is seeing every node that mentions it. */
  lemma HitsSeen(s: Search, hits: seq<Node>, word: string, before: set<string>, seen: set<string>,
                 words: seq<string>, maxNodes: nat)
    requires hits == Take(Sort(Mentioning(s.lower, s.nodes, word), FallingConfidence), maxNodes)
    requires before <= seen && AllSeen(hits, seen)
    requires UniqueIds(s.nodes) && |before| < maxNodes ==> SeenMentioning(s, before, words)
    ensures UniqueIds(s.nodes) && |seen| < maxNodes ==> SeenMentioning(s, seen, words + [word])
  {
    HitsCompleteOrFull(s.lower, s.nodes, word, maxNodes);
    SubsetSize(before, seen);
    SubsetSize(Ids(hits), seen);
    IdsOf(hits);
  }

  lemma GatheredFurther(s: Search, all: seq<Node>, seen: set<string>, hops: nat)
    requires Gathered(s, all, seen, hops)
    ensures Gathered(s, all, seen, hops + 1)
  {
    forall id | id in seen ensures Within(s, id, hops + 1) { WithinGrows(s, id, hops, hops + 1); }
  }

  /** Everything within the given number of hops has been seen. */
  ghost predicate SeenAll(s: Search, seen: set<string>, hops: nat) {
    forall id :: Within(s, id, hops) ==> id in seen
  }

  ghost predicate Grown(before: set<string>, seen: set<string>, found: seq<string>) {
    forall id :: id in seen <==> id in before || id in found
  }

  /** Every seen id outside the frontier has been explored. */
  ghost predicate ExploredBut(s: Search, seen: set<string>, frontier: seq<string>) {
    forall a :: a in seen && a !in frontier ==> Explored(s, seen, a)
  }

  /** Every stored node that mentions one of the words has been seen. */
  ghost predicate SeenMentioning(s: Search, seen: set<string>, words: seq<string>) {
    forall n, w :: n in s.nodes && w in words && Mentions(s.lower, n, w) ==> n.id in seen
  }

  lemma SeedsSeen(s: Search, seen: set<string>)
    requires SeenMentioning(s, seen, Keywords(s.query))
    ensures SeenAll(s, seen, 0)
  {
    forall n, w | n in s.nodes && w in Keywords(s.query) && About(s.lower, n, w) ensures n.id in seen {
      AboutExactly(s.lower, n, w);
    }
  }

  lemma SeenNext(hits: seq<Node>, j: nat, seen: set<string>)
    requires j < |hits| && AllSeen(hits[..j], seen)
    ensures AllSeen(hits[..j + 1], seen + {hits[j].id})
    ensures hits[j].id in seen ==> AllSeen(hits[..j + 1], seen)
  {
    assert hits[..j + 1] == hits[..j] + [hits[j]];
  }

  /** Seeds have been gathered, below the limit all those that mention one of the words. */
  ghost predicate Seeded(s: Search, all: seq<Node>, seen: set<string>, words: seq<string>, maxNodes: nat) {
    Gathered(s, all, seen, 0) && (UniqueIds(s.nodes) && |seen| < maxNodes ==> SeenMentioning(s, seen, words))
  }

  lemma SeedsBegin(s: Search, maxNodes: nat)
    ensures Seeded(s, [], {}, [], maxNodes)
  {
  }

  lemma SeedsEnd(s: Search, all: seq<Node>, seen: set<string>, maxNodes: nat)
    requires Seeded(s, all, seen, Keywords(s.query), maxNodes)
    ensures Gathered(s, all, seen, 0)
    ensures UniqueIds(s.nodes) && |seen| < maxNodes ==> SeenAll(s, seen, 0)
  {
    if UniqueIds(s.nodes) && |seen| < maxNodes { SeedsSeen(s, seen); }
  }

  lemma ListedMore(s: Search, edges: seq<Edge>, more: seq<Edge>, a: string)
    requires ListedAll(s, edges, a) || ListedAll(s, more, a)
    ensures ListedAll(s, edges + more, a)
  {
  }

  ghost predicate ListedUpTo(s: Search, edges: seq<Edge>, seeds: seq<string>, n: nat) {
    n <= |seeds| && forall k :: 0 <= k < n ==> ListedAll(s, edges, seeds[k])
  }

  lemma ListedNext(s: Search, edges: seq<Edge>, more: seq<Edge>, seeds: seq<string>, n: nat)
    requires n < |seeds| && ListedUpTo(s, edges, seeds, n) && ListedAll(s, more, seeds[n])
    ensures ListedUpTo(s, edges + more, seeds, n + 1)
  {
    forall k | 0 <= k <= n ensures ListedAll(s, edges + more, seeds[k]) { ListedMore(s, edges, more, seeds[k]); }
  }

  /** The hops of every seen id outside the frontier are listed. */
  ghost predicate ListedBut(s: Search, seen: set<string>, edges: seq<Edge>, frontier: seq<string>) {
    forall a :: a in seen && a !in frontier ==> ListedAll(s, edges, a)
  }

  /** Expanding the frontier lists the hops of the whole ball. */
  lemma NextListed(s: Search, before: set<string>, seen: set<string>, seeds: seq<string>, next: seq<string>,
                   hops: nat, edges: seq<Edge>, more: seq<Edge>)
    requires SeenAll(s, before, hops) && ListedBut(s, before, edges, seeds) && Grown(before, seen, next)
    requires ListedUpTo(s, more, seeds, |seeds|)
    ensures ListedBut(s, seen, edges + more, next) && ListedWithin(s, edges + more, hops)
  {
    forall a | a in before ensures ListedAll(s, edges + more, a) {
      if a in seeds {
        var k :| 0 <= k < |seeds| && seeds[k] == a;
        assert ListedAll(s, more, seeds[k]);
      }
      ListedMore(s, edges, more, a);
    }
  }

  lemma TrueEdgesBoth(s: Search, edges: seq<Edge>, more: seq<Edge>)
    requires TrueEdges(s, edges) && TrueEdges(s, more)
    ensures TrueEdges(s, edges + more)
  {
  }

  lemma GrownMore(before: set<string>, seen: set<string>, found: seq<string>, id: string)
    requires Grown(before, seen, found)
    ensures Grown(before, seen + {id}, found + [id])
  {
  }

  /** Gathering from seen0 on, with the ids found since. */
  ghost predicate Gathering(
    s: Search, all: seq<Node>, seen0: set<string>, seen: set<string>, found: seq<string>, hops: nat)
  {
    Gathered(s, all, seen, hops) && Grown(seen0, seen, found)
  }

  lemma GatherNeighbour(
    s: Search, all: seq<Node>, seen0: set<string>, seen: set<string>, found: seq<string>, hops: nat, n: Node)
    requires Gathering(s, all, seen0, seen, found, hops)
    requires n in s.nodes && n.id !in seen && Within(s, n.id, hops)
    ensures Gathering(s, all + [n], seen0, seen + {n.id}, found + [n.id], hops)
  {
    Gather(s, all, seen, hops, n);
    GrownMore(seen0, seen, found, n.id);
  }

  lemma GrownTwice(before: set<string>, seen: set<string>, later: set<string>, found: seq<string>, more: seq<string>)
    requires Grown(before, seen, found) && Grown(seen, later, more)
    ensures Grown(before, later, found + more) && seen <= later && before <= later
  {
  }

  lemma SeenFirstMore(seen: set<string>, later: set<string>, ps: seq<(Node, real)>, j: nat)
    requires j < |ps| && SeenFirst(seen, ps, j) && seen <= later && ps[j].0.id in later
    ensures SeenFirst(later, ps, j + 1)
  {
  }

  lemma ExploredMore(s: Search, seen: set<string>, later: set<string>, seeds: seq<string>, n: nat)
    requires n < |seeds| && ExploredUpTo(s, seen, seeds, n) && seen <= later && Explored(s, later, seeds[n])
    ensures ExploredUpTo(s, later, seeds, n + 1)
  {
    forall k | 0 <= k < n ensures Explored(s, later, seeds[k]) { assert Explored(s, seen, seeds[k]); }
  }

  predicate AllIn(ids: seq<string>, seen: set<string>) {
    forall k :: 0 <= k < |ids| ==> ids[k] in seen
  }

  lemma AllInGrown(before: set<string>, seen: set<string>, found: seq<string>)
    requires Grown(before, seen, found)
    ensures AllIn(found, seen) && before <= seen
  {
  }

  /** Everything within `hops` has been seen, and all but the frontier explored and listed. */
  ghost predicate Expanded(s: Search, seen: set<string>, edges: seq<Edge>, frontier: seq<string>, hops: nat) {
    && SeenAll(s, seen, hops) && ExploredBut(s, seen, frontier) && ListedBut(s, seen, edges, frontier)
    && (hops > 0 ==> ListedWithin(s, edges, hops - 1))
  }

  lemma FrontierBegins(s: Search, all: seq<Node>, seeds: seq<string>)
    requires |seeds| == |all| && forall i :: 0 <= i < |all| ==> seeds[i] == all[i].id
    ensures SeenAll(s, Ids(all), 0) ==> Expanded(s, Ids(all), [], seeds, 0)
    ensures AllIn(seeds, Ids(all))
  {
    forall id | id in Ids(all) ensures id in seeds {
      var i :| 0 <= i < |all| && all[i].id == id;
      assert seeds[i] == id;
    }
  }

  ghost predicate ExploredUpTo(s: Search, seen: set<string>, seeds: seq<string>, n: nat) {
    n <= |seeds| && forall k :: 0 <= k < n ==> Explored(s, seen, seeds[k])
  }

  /** Exploring the frontier as well completes the next ball. */
  lemma {:induction false} NextBall(
    s: Search, before: set<string>, seen: set<string>, seeds: seq<string>, next: seq<string>, hops: nat)
    requires SeenAll(s, before, hops) && ExploredBut(s, before, seeds) && before <= seen
    requires ExploredUpTo(s, seen, seeds, |seeds|)
    requires Grown(before, seen, next)
    ensures SeenAll(s, seen, hops + 1) && ExploredBut(s, seen, next)
  {
    forall a | a in before ensures Explored(s, seen, a) {
      if a !in seeds { assert Explored(s, before, a); }
    }
    forall id | Within(s, id, hops + 1) ensures id in seen {
      if !Within(s, id, hops) {
        var a :| Within(s, a, hops) && Hop(s.edges, a, id, s.minSimilarity);
        assert a in before && Explored(s, seen, a);
      }
    }
  }

  lemma RoundDone(s: Search, before: set<string>, seen: set<string>, seeds: seq<string>, next: seq<string>,
                  hops: nat, edges: seq<Edge>, more: seq<Edge>)
    requires Expanded(s, before, edges, seeds, hops) && Grown(before, seen, next) && before <= seen
    requires ExploredUpTo(s, seen, seeds, |seeds|) && ListedUpTo(s, more, seeds, |seeds|)
    ensures Expanded(s, seen, edges + more, next, hops + 1)
  {
    NextBall(s, before, seen, seeds, next, hops);
    NextListed(s, before, seen, seeds, next, hops, edges, more);
  }

  /** ps are the neighbours of the seed, in some order. */
  ghost predicate NeighboursOf(s: Search, seed: string, ps: seq<(Node, real)>) {
    multiset(ps) == multiset(Neighbours(s.nodes, s.edges, seed, s.minSimilarity))
  }

  ghost predicate NeighboursWithin(s: Search, ps: seq<(Node, real)>, hops: nat) {
    forall k :: 0 <= k < |ps| ==> ps[k].0 in s.nodes && Within(s, ps[k].0.id, hops)
  }

  /** Neighbours are stored nodes one hop further. */
  lemma NeighboursFurther(s: Search, hops: nat, seed: string, ps: seq<(Node, real)>)
    requires NeighboursOf(s, seed, ps) && Within(s, seed, hops)
    ensures NeighboursWithin(s, ps, hops + 1)
  {
    var listed := Neighbours(s.nodes, s.edges, seed, s.minSimilarity);
    NeighboursAreHops(s.nodes, s.edges, seed, s.minSimilarity);
    IdsOf(s.nodes);
    forall k | 0 <= k < |ps| ensures ps[k].0 in s.nodes && Within(s, ps[k].0.id, hops + 1) {
      assert ps[k] in multiset(ps);
      assert ps[k] in listed;
    }
  }

  /** Seeing all neighbours explores the node. */
  lemma NeighboursExplore(s: Search, seed: string, ps: seq<(Node, real)>, seen: set<string>)
    requires NeighboursOf(s, seed, ps) && SeenFirst(seen, ps, |ps|)
    ensures Explored(s, seen, seed)
  {
    var listed := Neighbours(s.nodes, s.edges, seed, s.minSimilarity);
    NeighboursAreHops(s.nodes, s.edges, seed, s.minSimilarity);
    forall b | Hop(s.edges, seed, b, s.minSimilarity) && b in Ids(s.nodes) ensures b in seen {
      var p :| p in listed && p.0.id == b;
      assert p in multiset(ps);
    }
  }

  /** The first n neighbours have been listed, in order. */
  predicate ListedFirst(edges: seq<Edge>, seed: string, ps: seq<(Node, real)>, n: nat) {
    n <= |ps| && |edges| == n && forall k :: 0 <= k < n ==> edges[k] == ListedEdge(seed, ps[k])
  }

  lemma ListedFirstMore(edges: seq<Edge>, seed: string, ps: seq<(Node, real)>, n: nat)
    requires n < |ps| && ListedFirst(edges, seed, ps, n)
    ensures ListedFirst(edges + [ListedEdge(seed, ps[n])], seed, ps, n + 1)
  {
  }

  /** Listing all neighbours lists exactly the hops to stored ids. */
  lemma NeighboursListed(s: Search, seed: string, ps: seq<(Node, real)>, edges: seq<Edge>)
    requires NeighboursOf(s, seed, ps) && ListedFirst(edges, seed, ps, |ps|)
    ensures TrueEdges(s, edges) && ListedAll(s, edges, seed)
  {
    var all := Neighbours(s.nodes, s.edges, seed, s.minSimilarity);
    NeighboursCarryWeights(s.nodes, s.edges, seed, s.minSimilarity);
    forall e | e in edges ensures TrueEdge(s, e) {
      var k :| 0 <= k < |edges| && edges[k] == e;
      assert ps[k] in multiset(ps);
      assert ps[k] in all;
    }
    forall b, weight | WeightedHop(s.edges, seed, b, s.minSimilarity, weight) && b in Ids(s.nodes)
      ensures Edge(seed, b, SIMILAR_TO, weight) in edges
    {
      var p :| p in all && p.0.id == b && p.1 == weight;
      assert p in multiset(ps);
      var k :| 0 <= k < |ps| && ps[k] == p;
      assert edges[k] == Edge(seed, b, SIMILAR_TO, weight);
    }
  }

  /** The expansion of a seed after its first n neighbours. */
  ghost predicate Expansion(
    s: Search, hops: nat, seed: string, ps: seq<(Node, real)>, maxNodes: nat, all: seq<Node>,
    seen0: set<string>, seen: set<string>, found: seq<string>, edges: seq<Edge>, n: nat)
  {
    && Gathering(s, all, seen0, seen, found, hops + 1)
    && (|seen| < maxNodes ==> SeenFirst(seen, ps, n))
    && ListedFirst(edges, seed, ps, n)
  }

  lemma ExpansionBegins(
    s: Search, hops: nat, seed: string, ps: seq<(Node, real)>, maxNodes: nat, all: seq<Node>, seen: set<string>)
    requires Gathered(s, all, seen, hops + 1)
    ensures Expansion(s, hops, seed, ps, maxNodes, all, seen, seen, [], [], 0)
  {
  }

  lemma ExpandsToNew(
    s: Search, hops: nat, seed: string, ps: seq<(Node, real)>, maxNodes: nat, all: seq<Node>,
    seen0: set<string>, seen: set<string>, found: seq<string>, edges: seq<Edge>, n: nat)
    requires Expansion(s, hops, seed, ps, maxNodes, all, seen0, seen, found, edges, n)
    requires n < |ps| && NeighboursWithin(s, ps, hops + 1) && ps[n].0.id !in seen && |seen| < maxNodes
    ensures Expansion(s, hops, seed, ps, maxNodes, all + [ps[n].0], seen0, seen + {ps[n].0.id},
                      found + [ps[n].0.id], edges + [ListedEdge(seed, ps[n])], n + 1)
  {
    GatherNeighbour(s, all, seen0, seen, found, hops + 1, ps[n].0);
    SeenFirstMore(seen, seen + {ps[n].0.id}, ps, n);
    ListedFirstMore(edges, seed, ps, n);
  }

  /** A neighbour that has been seen, or for which there is no room, is only listed. */
  lemma ExpandsToOld(
    s: Search, hops: nat, seed: string, ps: seq<(Node, real)>, maxNodes: nat, all: seq<Node>,
    seen0: set<string>, seen: set<string>, found: seq<string>, edges: seq<Edge>, n: nat)
    requires Expansion(s, hops, seed, ps, maxNodes, all, seen0, seen, found, edges, n)
    requires n < |ps| && (ps[n].0.id in seen || |seen| >= maxNodes)
    ensures Expansion(s, hops, seed, ps, maxNodes, all, seen0, seen, found,
                      edges + [ListedEdge(seed, ps[n])], n + 1)
  {
    if |seen| < maxNodes { SeenFirstMore(seen, seen, ps, n); }
    ListedFirstMore(edges, seed, ps, n);
  }

  lemma ExpansionEnds(
    s: Search, hops: nat, seed: string, ps: seq<(Node, real)>, maxNodes: nat, all: seq<Node>,
    seen0: set<string>, seen: set<string>, found: seq<string>, edges: seq<Edge>)
    requires Expansion(s, hops, seed, ps, maxNodes, all, seen0, seen, found, edges, |ps|)
    requires NeighboursOf(s, seed, ps)
    ensures Gathered(s, all, seen, hops + 1) && Grown(seen0, seen, found)
    ensures |seen| < maxNodes ==> Explored(s, seen, seed)
    ensures TrueEdges(s, edges) && ListedAll(s, edges, seed)
  {
    NeighboursListed(s, seed, ps, edges);
    if |seen| < maxNodes { NeighboursExplore(s, seed, ps, seen); }
  }

  ghost predicate SeenFirst(seen: set<string>, ps: seq<(Node, real)>, n: nat) {
    n <= |ps| && forall k :: 0 <= k < n ==> ps[k].0.id in seen
  }

  /** Ranking and cutting keep distinct gathered ids, and all of them below the limit. */
  lemma RankedPrefix(s: Search, all: seq<Node>, seen: set<string>, hops: nat, maxNodes: nat)
    requires Gathered(s, all, seen, hops)
    ensures var nodes := Take(Sort(all, FallingConfidence), maxNodes);
      && |nodes| <= maxNodes && UniqueIds(nodes) && ByConfidence(nodes)
      && (forall n :: n in nodes ==> n in s.nodes && Within(s, n.id, hops))
      && (|nodes| < maxNodes ==> Ids(nodes) == seen && |seen| < maxNodes)
  {
    var ranked := Sort(all, FallingConfidence);
    SortSorts(all, FallingConfidence);
    UniqueRearranged(all, ranked);
    PrefixIds(ranked, maxNodes);
    forall n | n in ranked ensures n in all { assert n in multiset(ranked); }
    IdsOf(all);
  }

  /** What a keyword search finds: nodes about the word by falling confidence, all of them below the limit. */
  lemma HitsRanked(lower: Lowering, nodes: seq<Node>, word: string, limit: nat)
    ensures var hits := Take(Sort(Mentioning(lower, nodes, word), FallingConfidence), limit);
      && ByConfidence(hits) && |hits| <= limit
      && (forall n :: n in hits ==> n in nodes && About(lower, n, word))
      && (|hits| < limit ==> forall n :: n in nodes && About(lower, n, word) ==> n in hits)
  {
    var all := Mentioning(lower, nodes, word);
    var sorted := Sort(all, FallingConfidence);
    SortSorts(all, FallingConfidence);
    SameMembers(all, sorted);
    forall n ensures n in all <==> n in nodes && About(lower, n, word) { AboutExactly(lower, n, word); }
  }

  /** Among nodes with the same id the last one is looked up. */
  lemma {:induction false} LookupLast(nodes: seq<Node>, n: Node)
    ensures Lookup(nodes, n.id) == Some(n) <==>
            exists i :: 0 <= i < |nodes| && nodes[i] == n && forall j :: i < j < |nodes| ==> nodes[j].id != n.id
  {
    if nodes != [] {
      var last := |nodes| - 1;
      LookupLast(nodes[..last], n);
      if nodes[last].id == n.id {
        if nodes[last] == n { assert forall j :: last < j < |nodes| ==> nodes[j].id != n.id; }
      } else {
        assert forall k :: 0 <= k < last ==> nodes[..last][k] == nodes[k];
      }
    }
  }

  class GraphRagRetriever {
    const memory: HierarchicalMemoryLocal
    const agentName: string
    const lower: Lowering

    constructor (memory: HierarchicalMemoryLocal, agentName: string, lower: Lowering)
      requires Trim(agentName) != ""
      ensures this.memory == memory && this.agentName == Trim(agentName) && this.lower == lower
    {
      this.memory, this.agentName, this.lower := memory, Trim(agentName), lower;
    }

    method KeywordSearch(keyword: string, limit: nat) returns (matched: seq<Node>)
      ensures Trim(keyword) == "" ==> matched == []
      ensures Trim(keyword) != "" ==>
        matched == Take(Sort(Mentioning(lower, memory.nodes, Trim(keyword)), FallingConfidence), limit)
      ensures ByConfidence(matched) && |matched| <= limit
      ensures forall n :: n in matched ==> n in memory.nodes && Trim(keyword) != "" && About(lower, n, Trim(keyword))
      ensures Trim(keyword) != "" && |matched| < limit ==>
        forall n :: n in memory.nodes && About(lower, n, Trim(keyword)) ==> n in matched
    {
      if Trim(keyword) == "" {
        return [];
      }
      HitsRanked(lower, memory.nodes, Trim(keyword), limit);
      matched := Mentioning(lower, memory.nodes, Trim(keyword));
      matched := Sort(matched, FallingConfidence);
      matched := Take(matched, limit);
    }

    method SimilarToExpand(id: string, minSimilarity: real) returns (results: seq<(Node, real)>)
      ensures results == Sort(Neighbours(memory.nodes, memory.edges, id, minSimilarity), FallingWeight)
      ensures ByWeight(results)
    {
      results := [];
      for i := 0 to |memory.edges|
        invariant results == Neighbours(memory.nodes, memory.edges[..i], id, minSimilarity)
      {
        assert memory.edges[..i + 1][..i] == memory.edges[..i];
        var other := OtherEnd(memory.edges[i], id, minSimilarity);
        if other.Some? {
          var target := Lookup(memory.nodes, other.value);
          if target.Some? {
            results := results + [(target.value, memory.edges[i].weight)];
          }
        }
      }
      assert memory.edges[..|memory.edges|] == memory.edges;
      SortSorts(results, FallingWeight);
      results := Sort(results, FallingWeight);
    }

    /** Steps 1 and 2: the nodes the keywords hit, each id once. */
    method CollectSeeds(ghost s: Search, keywords: seq<string>, maxNodes: nat)
      returns (all: seq<Node>, seen: set<string>)
      requires s.lower == lower && s.nodes == memory.nodes && keywords == Keywords(s.query)
      ensures Gathered(s, all, seen, 0)
      ensures UniqueIds(s.nodes) && |seen| < maxNodes ==> SeenAll(s, seen, 0)
    {
      all, seen := [], {};
      SeedsBegin(s, maxNodes);
      for i := 0 to |keywords|
        invariant Seeded(s, all, seen, keywords[..i], maxNodes)
      {
        assert keywords[..i + 1] == keywords[..i] + [keywords[i]];
        all, seen := CollectHits(s, keywords[i], maxNodes, keywords[..i], all, seen);
      }
      assert keywords[..|keywords|] == keywords;
      SeedsEnd(s, all, seen, maxNodes);
    }

    /** The nodes one keyword hits join, each id once. */
    method CollectHits(ghost s: Search, word: string, maxNodes: nat, ghost earlier: seq<string>,
                       all0: seq<Node>, seen0: set<string>)
      returns (all: seq<Node>, seen: set<string>)
      requires s.lower == lower && s.nodes == memory.nodes && word in Keywords(s.query)
      requires Seeded(s, all0, seen0, earlier, maxNodes)
      ensures Seeded(s, all, seen, earlier + [word], maxNodes)
    {
      TrimOfKeyword(s.query, word);
      var hits := KeywordSearch(word, maxNodes);
      HitsAreSeeds(s, hits, word, maxNodes);
      all, seen := AddNew(s, 0, hits, all0, seen0);
      HitsSeen(s, hits, word, seen0, seen, earlier, maxNodes);
    }

    /** Nodes within the given number of hops join, each id once. */
    method AddNew(ghost s: Search, ghost hops: nat, hits: seq<Node>, all0: seq<Node>, seen0: set<string>)
      returns (all: seq<Node>, seen: set<string>)
      requires Gathered(s, all0, seen0, hops)
      requires AllWithin(s, hits, hops)
      ensures Gathered(s, all, seen, hops) && seen0 <= seen
      ensures AllSeen(hits, seen)
    {
      all, seen := all0, seen0;
      for j := 0 to |hits|
        invariant Gathered(s, all, seen, hops) && seen0 <= seen
        invariant AllSeen(hits[..j], seen)
      {
        var hit := hits[j];
        SeenNext(hits, j, seen);
        if hit.id !in seen {
          Gather(s, all, seen, hops, hit);
          seen := seen + {hit.id};
          all := all + [hit];
        }
      }
      assert hits[..|hits|] == hits;
    }

    /** The neighbours of one seed: their edges are listed, the new ones gathered while there is room. */
    method ExpandSeed(ghost s: Search, ghost hops: nat, seed: string, minSimilarity: real, maxNodes: nat,
                      all0: seq<Node>, seen0: set<string>)
      returns (all: seq<Node>, seen: set<string>, found: seq<string>, edges: seq<Edge>)
      requires s.nodes == memory.nodes && s.edges == memory.edges && s.minSimilarity == minSimilarity
      requires Gathered(s, all0, seen0, hops + 1) && Within(s, seed, hops)
      ensures Gathered(s, all, seen, hops + 1)
      ensures Grown(seen0, seen, found)
      ensures |seen| < maxNodes ==> Explored(s, seen, seed)
      ensures TrueEdges(s, edges) && ListedAll(s, edges, seed)
      ensures |seen0| <= maxNodes ==> |seen| <= maxNodes
    {
      all, seen, found, edges := all0, seen0, [], [];
      var neighbours := SimilarToExpand(seed, minSimilarity);
      SortSorts(Neighbours(s.nodes, s.edges, seed, minSimilarity), FallingWeight);
      assert NeighboursOf(s, seed, neighbours);
      NeighboursFurther(s, hops, seed, neighbours);
      ExpansionBegins(s, hops, seed, neighbours, maxNodes, all, seen);
      for j := 0 to |neighbours|
        invariant Expansion(s, hops, seed, neighbours, maxNodes, all, seen0, seen, found, edges, j)
        invariant |seen0| <= maxNodes ==> |seen| <= maxNodes
      {
        var n := neighbours[j].0;
        if n.id !in seen && |seen| < maxNodes {
          ExpandsToNew(s, hops, seed, neighbours, maxNodes, all, seen0, seen, found, edges, j);
        } else {
          ExpandsToOld(s, hops, seed, neighbours, maxNodes, all, seen0, seen, found, edges, j);
        }
        edges := edges + [ListedEdge(seed, neighbours[j])];
        if n.id !in seen && |seen| < maxNodes {
          seen := seen + {n.id};
          found := found + [n.id];
          all := all + [n];
        }
      }
      ExpansionEnds(s, hops, seed, neighbours, maxNodes, all, seen0, seen, found, edges);
    }

    /** One round of step 3: every seed of the frontier, until the limit is reached. */
    method ExpandLevel(ghost s: Search, ghost hops: nat, seeds: seq<string>, minSimilarity: real, maxNodes: nat,
                       all0: seq<Node>, seen0: set<string>)
      returns (all: seq<Node>, seen: set<string>, next: seq<string>, edges: seq<Edge>)
      requires s.nodes == memory.nodes && s.edges == memory.edges && s.minSimilarity == minSimilarity
      requires Gathered(s, all0, seen0, hops) && AllIn(seeds, seen0)
      ensures Gathered(s, all, seen, hops + 1)
      ensures Grown(seen0, seen, next)
      ensures |seen| < maxNodes ==> ExploredUpTo(s, seen, seeds, |seeds|) && ListedUpTo(s, edges, seeds, |seeds|)
      ensures TrueEdges(s, edges)
      ensures |seen0| <= maxNodes ==> |seen| <= maxNodes
    {
      all, seen, next, edges := all0, seen0, [], [];
      GatheredFurther(s, all, seen, hops);
      for i := 0 to |seeds|
        invariant Gathered(s, all, seen, hops + 1)
        invariant Grown(seen0, seen, next)
        invariant |seen| < maxNodes ==> ExploredUpTo(s, seen, seeds, i)
        invariant TrueEdges(s, edges) && ListedUpTo(s, edges, seeds, i)
        invariant |seen0| <= maxNodes ==> |seen| <= maxNodes
      {
        if |seen| >= maxNodes {
          break;
        }
        ghost var before := seen;
        var found, listed;
        all, seen, found, listed := ExpandSeed(s, hops, seeds[i], minSimilarity, maxNodes, all, seen);
        GrownTwice(seen0, before, seen, next, found);
        TrueEdgesBoth(s, edges, listed);
        ListedNext(s, edges, listed, seeds, i);
        next := next + found;
        edges := edges + listed;
        SubsetSize(before, seen);
        if |seen| < maxNodes { ExploredMore(s, before, seen, seeds, i); }
      }
    }

    /** Step 3: rounds of expansion until the depth or the limit is reached. */
    method Expand(ghost s: Search, maxDepth: nat, minSimilarity: real, maxNodes: nat,
                  all0: seq<Node>, seen0: set<string>)
      returns (all: seq<Node>, seen: set<string>, edges: seq<Edge>, ghost hops: nat)
      requires s.nodes == memory.nodes && s.edges == memory.edges && s.minSimilarity == minSimilarity
      requires Gathered(s, all0, seen0, 0)
      ensures hops <= maxDepth && (|seen| < maxNodes ==> hops == maxDepth)
      ensures Gathered(s, all, seen, hops) && TrueEdges(s, edges)
      ensures |seen0| <= |seen|
      ensures |seen| < maxNodes && SeenAll(s, seen0, 0) ==>
        SeenAll(s, seen, hops) && (hops > 0 ==> ListedWithin(s, edges, hops - 1))
      ensures hops > 0 ==>
        |seen0| < maxNodes && |seen| <= maxNodes && (SeenAll(s, seen0, 0) ==> SeenAll(s, seen, hops - 1))
    {
      all, seen, edges, hops := all0, seen0, [], 0;
      var seeds := seq(|all|, i requires 0 <= i < |all| => all[i].id);
      FrontierBegins(s, all, seeds);
      for depth := 0 to maxDepth
        invariant hops <= depth && (hops < depth ==> |seen| >= maxNodes)
        invariant Gathered(s, all, seen, hops) && TrueEdges(s, edges)
        invariant AllIn(seeds, seen)
        invariant |seen0| <= |seen|
        invariant |seen| < maxNodes && SeenAll(s, seen0, 0) ==> Expanded(s, seen, edges, seeds, hops)
        invariant hops > 0 ==>
          |seen0| < maxNodes && |seen| <= maxNodes && (SeenAll(s, seen0, 0) ==> SeenAll(s, seen, hops - 1))
      {
        if |seen| >= maxNodes {
          break;
        }
        ghost var before := seen;
        var next, listed;
        all, seen, next, listed := ExpandLevel(s, hops, seeds, minSimilarity, maxNodes, all, seen);
        AllInGrown(before, seen, next);
        SubsetSize(before, seen);
        TrueEdgesBoth(s, edges, listed);
        if |seen| < maxNodes && SeenAll(s, seen0, 0) {
          RoundDone(s, before, seen, seeds, next, hops, edges, listed);
        }
        edges := edges + listed;
        seeds := next;
        hops := hops + 1;
      }
    }

    /**
     * Bounded retrieval.  Always: distinct ids, at most maxNodes, by falling
     * confidence, inside the ball of maxDepth hops around the seeds.  Below the
     * limit, when the memory's ids are unique: exactly that ball; at the limit nothing
     * is returned while something nearer is left out.  Every listed edge is a hop with
     * its weight, and below the limit every hop out of the ball of one hop less to a
     * stored id is listed.
     */
    method RetrieveSubgraph(query: string, maxDepth: nat, maxNodes: nat, minSimilarity: real) returns (r: Subgraph)
      ensures r.query == query && |r.nodes| <= maxNodes
      ensures UniqueIds(r.nodes) && ByConfidence(r.nodes)
      ensures var s := Search(lower, memory.nodes, memory.edges, query, minSimilarity);
        && TrueEdges(s, r.edges)
        && (forall n :: n in r.nodes ==> n in memory.nodes && Within(s, n.id, maxDepth))
        && (UniqueIds(memory.nodes) && |r.nodes| < maxNodes ==>
              forall id :: Within(s, id, maxDepth) <==> id in Ids(r.nodes))
        && (UniqueIds(memory.nodes) && |r.nodes| < maxNodes && maxDepth >= 1 ==> ListedWithin(s, r.edges, maxDepth - 1))
        && (UniqueIds(memory.nodes) ==> NearestFirst(s, Ids(r.nodes)))
    {
      ghost var s := Search(lower, memory.nodes, memory.edges, query, minSimilarity);
      if Trim(query) == "" {
        BlankHasNoWords(query);
        NothingWithin(s, maxDepth);
        if maxDepth >= 1 { NothingWithin(s, maxDepth - 1); }
        assert BetweenBalls(s, Ids([]), 0);
        return Subgraph([], [], query);
      }
      var all, seen := CollectSeeds(s, Keywords(query), maxNodes);
      ghost var seeds := seen;
      var edges; ghost var hops;
      all, seen, edges, hops := Expand(s, maxDepth, minSimilarity, maxNodes, all, seen);
      RankedAnswer(s, all, seen, hops, edges, maxDepth, maxNodes);
      if UniqueIds(memory.nodes) { RankedNearest(s, all, seen, hops, maxNodes); }
      r := Subgraph(Take(Sort(all, FallingConfidence), maxNodes), edges, query);
    }
  }

  lemma RankedWithin(s: Search, nodes: seq<Node>, hops: nat, maxDepth: nat)
    requires hops <= maxDepth && forall n :: n in nodes ==> Within(s, n.id, hops)
    ensures forall n :: n in nodes ==> Within(s, n.id, maxDepth)
    ensures forall id :: id in Ids(nodes) ==> Within(s, id, maxDepth)
  {
    IdsOf(nodes);
    forall n | n in nodes ensures Within(s, n.id, maxDepth) { WithinGrows(s, n.id, hops, maxDepth); }
  }

  /** What ranking and cutting the gathered nodes gives. */
  lemma RankedAnswer(
    s: Search, all: seq<Node>, seen: set<string>, hops: nat, edges: seq<Edge>, maxDepth: nat, maxNodes: nat)
    requires Gathered(s, all, seen, hops) && hops <= maxDepth && (|seen| < maxNodes ==> hops == maxDepth)
    requires UniqueIds(s.nodes) && |seen| < maxNodes ==>
      SeenAll(s, seen, hops) && (hops > 0 ==> ListedWithin(s, edges, hops - 1))
    ensures var nodes := Take(Sort(all, FallingConfidence), maxNodes);
      && |nodes| <= maxNodes && UniqueIds(nodes) && ByConfidence(nodes)
      && (forall n :: n in nodes ==> n in s.nodes && Within(s, n.id, maxDepth))
      && (UniqueIds(s.nodes) && |nodes| < maxNodes ==> forall id :: Within(s, id, maxDepth) <==> id in Ids(nodes))
      && (UniqueIds(s.nodes) && |nodes| < maxNodes && maxDepth >= 1 ==> ListedWithin(s, edges, maxDepth - 1))
  {
    var nodes := Take(Sort(all, FallingConfidence), maxNodes);
    RankedPrefix(s, all, seen, hops, maxNodes);
    RankedWithin(s, nodes, hops, maxDepth);
    if UniqueIds(s.nodes) && |nodes| < maxNodes { RankedComplete(s, nodes, edges, maxDepth); }
  }

  /** When no more than fit were gathered, ranking keeps all of them. */
  lemma RankedAll(all: seq<Node>, maxNodes: nat)
    requires |all| <= maxNodes
    ensures Ids(Take(Sort(all, FallingConfidence), maxNodes)) == Ids(all)
  {
    var ranked := Sort(all, FallingConfidence);
    SortSorts(all, FallingConfidence);
    SameMembers(all, ranked);
    IdsOf(all);
    IdsOf(ranked);
  }

  lemma RankedNearest(s: Search, all: seq<Node>, seen: set<string>, hops: nat, maxNodes: nat)
    requires Gathered(s, all, seen, hops)
    requires hops > 0 ==> |seen| <= maxNodes && SeenAll(s, seen, hops - 1)
    ensures NearestFirst(s, Ids(Take(Sort(all, FallingConfidence), maxNodes)))
  {
    var nodes := Take(Sort(all, FallingConfidence), maxNodes);
    RankedPrefix(s, all, seen, hops, maxNodes);
    IdsOf(nodes);
    if hops > 0 { RankedAll(all, maxNodes); }
    assert BetweenBalls(s, Ids(nodes), hops);
  }

  lemma RankedComplete(s: Search, nodes: seq<Node>, edges: seq<Edge>, maxDepth: nat)
    requires SeenAll(s, Ids(nodes), maxDepth) && (maxDepth > 0 ==> ListedWithin(s, edges, maxDepth - 1))
    requires forall id :: id in Ids(nodes) ==> Within(s, id, maxDepth)
    ensures forall id :: Within(s, id, maxDepth) <==> id in Ids(nodes)
    ensures maxDepth >= 1 ==> ListedWithin(s, edges, maxDepth - 1)
  {
  }

  /** Without keywords there are no seeds, hence nothing is within any number of hops. */
  lemma {:induction false} NothingWithin(s: Search, hops: nat)
    requires SplitWhitespace(s.query) == []
    ensures forall id :: !Within(s, id, hops)
  {
    if hops > 0 { NothingWithin(s, hops - 1); }
  }

  // ----- the edge list as an index of the similarity relation -----

  /** Every other one of the first n nodes at least as similar to node i as t, with its similarity. */
  function BruteForce(lex: Lexicon, nodes: seq<Node>, i: nat, t: real, n: nat): seq<(Node, real)>
    requires i < |nodes| && n <= |nodes|
  {
    if n == 0 then [] else
    var j := n - 1;
    BruteForce(lex, nodes, i, t, j) +
    (if j != i && Alike(lex, nodes[i], nodes[j]) >= t then [(nodes[j], Alike(lex, nodes[i], nodes[j]))] else [])
  }

  function Max(a: real, b: real): real {
    if a < b then b else a
  }

  lemma {:induction false} NeighboursConcat(nodes: seq<Node>, a: seq<Edge>, b: seq<Edge>, id: string, t: real)
    ensures Neighbours(nodes, a + b, id, t) == Neighbours(nodes, a, id, t) + Neighbours(nodes, b, id, t)
  {
    if b == [] {
      assert a + b == a;
    } else {
      var last := |b| - 1;
      assert (a + b)[..|a + b| - 1] == a + b[..last];
      NeighboursConcat(nodes, a, b[..last], id, t);
    }
  }

  lemma {:induction false} LookupUnique(nodes: seq<Node>, i: nat)
    requires UniqueIds(nodes) && i < |nodes|
    ensures Lookup(nodes, nodes[i].id) == Some(nodes[i])
  {
    LookupFinds(nodes, nodes[i].id);
    assert nodes[i].id in Ids(nodes);
    var n := Lookup(nodes, nodes[i].id).value;
    var j :| 0 <= j < |nodes| && nodes[j] == n;
    assert i == j;
  }

  lemma OneEdge(nodes: seq<Node>, e: Edge, id: string, t: real)
    ensures Neighbours(nodes, [e], id, t) == Neighbour(nodes, e, id, t)
  {
    assert [e][..0] == [];
    assert Neighbours(nodes, [], id, t) == [];
  }

  /** What node n's possible edge to the older node j contributes to the neighbours of node i. */
  function EdgeShare(lex: Lexicon, nodes: seq<Node>, n: nat, j: nat, i: nat, t: real): seq<(Node, real)>
    requires i < |nodes| && j < n < |nodes|
  {
    var weight := Alike(lex, nodes[n], nodes[j]);
    if weight < Max(t, EDGE_THRESHOLD) then []
    else if i == n then [(nodes[j], weight)]
    else if i == j then [(nodes[n], weight)]
    else []
  }

  lemma EdgeShareIs(lex: Lexicon, nodes: seq<Node>, n: nat, j: nat, i: nat, t: real)
    requires UniqueIds(nodes) && i < |nodes| && j < n < |nodes| && Alike(lex, nodes[n], nodes[j]) >= EDGE_THRESHOLD
    ensures EdgeShare(lex, nodes, n, j, i, t) ==
            Neighbour(nodes, Edge(nodes[n].id, nodes[j].id, SIMILAR_TO, Alike(lex, nodes[n], nodes[j])), nodes[i].id, t)
  {
    LookupUnique(nodes, n);
    LookupUnique(nodes, j);
    assert (nodes[n].id == nodes[i].id <==> n == i) && (nodes[j].id == nodes[i].id <==> j == i);
  }

  lemma NewEdgesShare(lex: Lexicon, nodes: seq<Node>, n: nat, j: nat, i: nat, t: real)
    requires UniqueIds(nodes) && i < |nodes| && j < n < |nodes|
    ensures Neighbours(nodes, NewEdges(lex, nodes[n], nodes[j..n]), nodes[i].id, t) ==
            EdgeShare(lex, nodes, n, j, i, t)
            + Neighbours(nodes, NewEdges(lex, nodes[n], nodes[j + 1..n]), nodes[i].id, t)
  {
    var rest := nodes[j..n];
    var more := NewEdges(lex, nodes[n], nodes[j + 1..n]);
    assert rest[0] == nodes[j] && rest[1..] == nodes[j + 1..n];
    if Alike(lex, nodes[n], nodes[j]) >= EDGE_THRESHOLD {
      var e := Edge(nodes[n].id, nodes[j].id, SIMILAR_TO, Alike(lex, nodes[n], nodes[j]));
      assert NewEdges(lex, nodes[n], rest) == [e] + more;
      NeighboursConcat(nodes, [e], more, nodes[i].id, t);
      OneEdge(nodes, e, nodes[i].id, t);
      EdgeShareIs(lex, nodes, n, j, i, t);
    } else {
      assert NewEdges(lex, nodes[n], rest) == [] + more == more;
    }
  }

  /** What node n's edges to the nodes from j on contribute to the neighbours of node i. */
  function Shares(lex: Lexicon, nodes: seq<Node>, n: nat, j: nat, i: nat, t: real): seq<(Node, real)>
    requires i < |nodes| && j <= n < |nodes|
    decreases n - j
  {
    if j == n then [] else EdgeShare(lex, nodes, n, j, i, t) + Shares(lex, nodes, n, j + 1, i, t)
  }

  lemma {:induction false} NewEdgesAreShares(lex: Lexicon, nodes: seq<Node>, n: nat, j: nat, i: nat, t: real)
    requires UniqueIds(nodes) && i < |nodes| && j <= n < |nodes|
    ensures Neighbours(nodes, NewEdges(lex, nodes[n], nodes[j..n]), nodes[i].id, t) == Shares(lex, nodes, n, j, i, t)
    decreases n - j
  {
    if j < n {
      NewEdgesShare(lex, nodes, n, j, i, t);
      NewEdgesAreShares(lex, nodes, n, j + 1, i, t);
    } else {
      assert nodes[n..n] == [];
    }
  }

  /** Edges of a node that is not i: at most the one to i. */
  lemma {:induction false} SharesAtOther(lex: Lexicon, nodes: seq<Node>, i: nat, n: nat, j: nat, t: real)
    requires i < |nodes| && j <= n < |nodes| && i != n
    ensures Shares(lex, nodes, n, j, i, t) == if j <= i < n then EdgeShare(lex, nodes, n, i, i, t) else []
    decreases n - j
  {
    if j < n {
      SharesAtOther(lex, nodes, i, n, j + 1, t);
      if j == i {
        Associate(EdgeShare(lex, nodes, n, i, i, t), [], []);
      } else {
        assert EdgeShare(lex, nodes, n, j, i, t) == [];
      }
    }
  }

  /** Node i's own edges, to nodes j up to i: every one of them, as brute force lists it. */
  lemma {:induction false} SharesAtOwn(lex: Lexicon, nodes: seq<Node>, i: nat, j: nat, t: real)
    requires j <= i < |nodes|
    ensures BruteForce(lex, nodes, i, Max(t, EDGE_THRESHOLD), j) + Shares(lex, nodes, i, j, i, t)
            == BruteForce(lex, nodes, i, Max(t, EDGE_THRESHOLD), i)
    decreases i - j
  {
    var before := BruteForce(lex, nodes, i, Max(t, EDGE_THRESHOLD), j);
    if j < i {
      SharesAtOwn(lex, nodes, i, j + 1, t);
      BruteForceStep(lex, nodes, i, j, t);
      Associate(before, EdgeShare(lex, nodes, i, j, i, t), Shares(lex, nodes, i, j + 1, i, t));
    } else {
      Associate(before, [], []);
    }
  }

  lemma BruteForceStep(lex: Lexicon, nodes: seq<Node>, i: nat, j: nat, t: real)
    requires j < i < |nodes|
    ensures BruteForce(lex, nodes, i, Max(t, EDGE_THRESHOLD), j + 1) ==
            BruteForce(lex, nodes, i, Max(t, EDGE_THRESHOLD), j) + EdgeShare(lex, nodes, i, j, i, t)
  {
  }

  lemma Associate<T>(a: seq<T>, b: seq<T>, c: seq<T>)
    ensures a + (b + c) == a + b + c && a + [] == a
  {
  }

  /**
   * In a memory built by storing, the neighbours of node i are exactly the other
   * nodes whose similarity reaches the asked-for and the indexing threshold, each
   * once, in storage order.
   */
  lemma {:induction false} NeighboursAreBruteForce(lex: Lexicon, nodes: seq<Node>, i: nat, t: real, n: nat)
    requires UniqueIds(nodes) && i < |nodes| && n <= |nodes|
    ensures Neighbours(nodes, IndexEdges(lex, nodes[..n]), nodes[i].id, t) ==
            if n <= i then [] else BruteForce(lex, nodes, i, Max(t, EDGE_THRESHOLD), n)
    decreases n
  {
    if n > 0 {
      var j := n - 1;
      NeighboursAreBruteForce(lex, nodes, i, t, j);
      NeighboursStep(lex, nodes, i, t, j);
      NewEdgesAreShares(lex, nodes, j, 0, i, t);
      if j < i {
        SharesAtOther(lex, nodes, i, j, 0, t);
      } else if j == i {
        SharesAtOwn(lex, nodes, i, 0, t);
        BruteForceSelf(lex, nodes, i, t);
      } else {
        SharesAtOther(lex, nodes, i, j, 0, t);
        BruteForceStepAfter(lex, nodes, i, j, t);
      }
    } else {
      assert nodes[..n] == [];
    }
  }

  lemma NeighboursStep(lex: Lexicon, nodes: seq<Node>, i: nat, t: real, j: nat)
    requires i < |nodes| && j < |nodes|
    ensures Neighbours(nodes, IndexEdges(lex, nodes[..j + 1]), nodes[i].id, t) ==
            Neighbours(nodes, IndexEdges(lex, nodes[..j]), nodes[i].id, t) +
            Neighbours(nodes, NewEdges(lex, nodes[j], nodes[0..j]), nodes[i].id, t)
  {
    var stored := nodes[..j + 1];
    assert stored[..j] == nodes[..j] == nodes[0..j] && stored[j] == nodes[j];
    NeighboursConcat(nodes, IndexEdges(lex, nodes[..j]), NewEdges(lex, nodes[j], nodes[0..j]), nodes[i].id, t);
  }

  lemma BruteForceSelf(lex: Lexicon, nodes: seq<Node>, i: nat, t: real)
    requires i < |nodes|
    ensures BruteForce(lex, nodes, i, Max(t, EDGE_THRESHOLD), i + 1)
            == BruteForce(lex, nodes, i, Max(t, EDGE_THRESHOLD), i)
    ensures BruteForce(lex, nodes, i, Max(t, EDGE_THRESHOLD), 0) == []
  {
  }

  lemma BruteForceStepAfter(lex: Lexicon, nodes: seq<Node>, i: nat, j: nat, t: real)
    requires i < j < |nodes|
    ensures BruteForce(lex, nodes, i, Max(t, EDGE_THRESHOLD), j + 1) ==
            BruteForce(lex, nodes, i, Max(t, EDGE_THRESHOLD), j) + EdgeShare(lex, nodes, j, i, i, t)
  {
    WordIsDistance(lex, nodes[i].content, nodes[j].content, "");
  }

  /** What brute force lists: each node of the relation with its similarity, and no node twice. */
  lemma {:induction false} BruteForceExactly(lex: Lexicon, nodes: seq<Node>, i: nat, t: real, n: nat)
    requires UniqueIds(nodes) && i < |nodes| && n <= |nodes|
    ensures forall p :: p in BruteForce(lex, nodes, i, t, n) <==>
      exists j :: 0 <= j < n && j != i && WordSimilarity(lex, nodes[i].content, nodes[j].content) >= t
                  && p == (nodes[j], WordSimilarity(lex, nodes[i].content, nodes[j].content))
    ensures forall a, b :: 0 <= a < b < |BruteForce(lex, nodes, i, t, n)| ==>
      BruteForce(lex, nodes, i, t, n)[a].0.id != BruteForce(lex, nodes, i, t, n)[b].0.id
  {
    if n > 0 {
      BruteForceExactly(lex, nodes, i, t, n - 1);
      forall p | p in BruteForce(lex, nodes, i, t, n - 1) ensures p.0.id != nodes[n - 1].id {
        var j :| 0 <= j < n - 1 && p == (nodes[j], Alike(lex, nodes[i], nodes[j]));
      }
    }
  }

  /**
   * similar_to_expand on a valid memory: the brute-force answer over all pairs,
   * reordered by falling weight.
   */
  method ExpandValidMemory(r: GraphRagRetriever, i: nat, minSimilarity: real) returns (results: seq<(Node, real)>)
    requires r.memory.Valid() && i < |r.memory.nodes|
    ensures ByWeight(results)
    ensures var nodes, t := r.memory.nodes, Max(minSimilarity, EDGE_THRESHOLD);
      multiset(results) == multiset(BruteForce(r.memory.lex, nodes, i, t, |nodes|))
  {
    var nodes := r.memory.nodes;
    results := r.SimilarToExpand(nodes[i].id, minSimilarity);
    SortSorts(Neighbours(nodes, r.memory.edges, nodes[i].id, minSimilarity), FallingWeight);
    assert nodes[..|nodes|] == nodes;
    NeighboursAreBruteForce(r.memory.lex, nodes, i, minSimilarity, |nodes|);
  }
}
