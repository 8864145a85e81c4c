/**
 * The in-memory knowledge store of
 * crates/amplihack-agent-core/src/hierarchical_memory_local.rs: every stored
 * node is linked to the earlier nodes it resembles, so that the edge list is an
 * index of the all-pairs similarity relation.
 */
module HierarchicalMemory {
  import opened Decimal
  import opened Similarity
  import opened Text

  datatype Category = Episodic | Semantic | Procedural | Prospective | Working

  datatype Node = Node(
    id: string,
    category: Category,
    content: string,
    concept: string,
    confidence: real,
    source: string,
    tags: seq<string>)

  datatype Edge = Edge(source: string, target: string, relationship: string, weight: real)

  datatype StoreParams = StoreParams(
    content: string,
    concept: string,
    confidence: real,
    category: Category,
    source: string,
    tags: seq<string>)

  const SIMILAR_TO := "SIMILAR_TO"

  const EDGE_THRESHOLD := 0.3

  function NodeName(serial: nat): string {
    "node-" + ToString(serial)
  }

  function EpisodeName(serial: nat): string {
    "ep-" + ToString(serial)
  }

  function MakeNode(serial: nat, p: StoreParams): Node {
    Node(NodeName(serial), p.category, Trim(p.content), Trim(p.concept), p.confidence, p.source, p.tags)
  }

  function Alike(lex: Lexicon, a: Node, b: Node): real {
    WordSimilarity(lex, a.content, b.content)
  }

  /** The edges of a new node to the existing ones, in their order. */
  function NewEdges(lex: Lexicon, node: Node, existing: seq<Node>): seq<Edge> {
    if existing == [] then [] else
    var e := existing[0];
    (if Alike(lex, node, e) >= EDGE_THRESHOLD then [Edge(node.id, e.id, SIMILAR_TO, Alike(lex, node, e))] else [])
    + NewEdges(lex, node, existing[1..])
  }

  /** The edges of a memory whose nodes were stored in this order. */
  function IndexEdges(lex: Lexicon, nodes: seq<Node>): seq<Edge> {
    if nodes == [] then [] else
    var last := |nodes| - 1;
    IndexEdges(lex, nodes[..last]) + NewEdges(lex, nodes[last], nodes[..last])
  }

  ghost predicate UniqueIds(nodes: seq<Node>) {
    forall i, j :: 0 <= i < j < |nodes| ==> nodes[i].id != nodes[j].id
  }

  /** id is the name of a serial below the bound. */
  ghost predicate IsName(id: string, name: nat -> string, bound: nat) {
    exists k: nat :: k < bound && id == name(k)
  }

  ghost predicate Named(nodes: seq<Node>, name: nat -> string, bound: nat) {
    UniqueIds(nodes) && forall i :: 0 <= i < |nodes| ==> IsName(nodes[i].id, name, bound)
  }

  /** Naming one more node with the next serial, or skipping that serial. */
  lemma NamedGrows(nodes: seq<Node>, name: nat -> string, bound: nat, node: Node)
    requires Named(nodes, name, bound) && node.id == name(bound)
    requires forall k: nat :: k < bound ==> name(k) != name(bound)
    ensures Named(nodes + [node], name, bound + 1) && Named(nodes, name, bound + 1)
  {
    forall i | 0 <= i < |nodes| ensures IsName(nodes[i].id, name, bound + 1) && nodes[i].id != node.id {
      assert IsName(nodes[i].id, name, bound);
    }
    assert IsName(node.id, name, bound + 1);
  }

  lemma NamesDiffer(j: nat, k: nat)
    requires j != k
    ensures NodeName(j) != NodeName(k) && EpisodeName(j) != EpisodeName(k)
  {
    assert NodeName(j)[5..] == ToString(j) && NodeName(k)[5..] == ToString(k);
    assert EpisodeName(j)[3..] == ToString(j) && EpisodeName(k)[3..] == ToString(k);
    if ToString(j) == ToString(k) {
      ToStringInjective(j, k);
    }
  }

  lemma NextNamesFresh(bound: nat)
    ensures forall k: nat :: k < bound ==> NodeName(k) != NodeName(bound)
    ensures forall k: nat :: k < bound ==> EpisodeName(k) != EpisodeName(bound)
  {
    forall k: nat | k < bound ensures NodeName(k) != NodeName(bound) && EpisodeName(k) != EpisodeName(bound) {
      NamesDiffer(k, bound);
    }
  }

  // ----- the store -----

  class HierarchicalMemoryLocal {
    const agentName: string
    const lex: Lexicon
    var nodes: seq<Node>
    var edges: seq<Edge>
    var episodes: seq<Node>
    var nextId: nat

    /** Ids are unused serials of the right kind, all distinct; the edges are the index of the nodes. */
    ghost predicate Valid()
      reads this
    {
      && Named(nodes, NodeName, nextId) && Named(episodes, EpisodeName, nextId)
      && edges == IndexEdges(lex, nodes)
    }

    constructor (agentName: string, lex: Lexicon)
      requires Trim(agentName) != ""
      ensures Valid() && nodes == [] && edges == [] && episodes == [] && nextId == 1
      ensures this.agentName == agentName && this.lex == lex
    {
      this.agentName, this.lex := agentName, lex;
      nodes, edges, episodes, nextId := [], [], [], 1;
    }

    method StoreKnowledge(p: StoreParams) returns (id: string)
      requires Valid()
      modifies this
      ensures Valid()
      ensures id == "node-" + ToString(old(nextId)) && nextId == old(nextId) + 1
      ensures var node :=
                Node(id, p.category, Trim(p.content), Trim(p.concept), p.confidence, p.source, p.tags);
              nodes == old(nodes) + [node] && edges == old(edges) + NewEdges(lex, node, old(nodes))
      ensures episodes == old(episodes)
    {
      id := NodeName(nextId);
      var node := MakeNode(nextId, p);
      NextNamesFresh(nextId);
      NamedGrows(nodes, NodeName, nextId, node);
      NamedGrows(episodes, EpisodeName, nextId, node.(id := EpisodeName(nextId)));
      nextId := nextId + 1;
      var newEdges := NewEdges(lex, node, nodes);
      nodes := nodes + [node];
      edges := edges + newEdges;
      assert nodes[..|nodes| - 1] == old(nodes);
    }

    method StoreEpisode(content: string, sourceLabel: string) returns (id: string)
      requires Valid()
      modifies this
      ensures Valid()
      ensures id == "ep-" + ToString(old(nextId)) && nextId == old(nextId) + 1
      ensures episodes == old(episodes) + [Node(id, Episodic, content, sourceLabel, 1.0, "", [])]
      ensures nodes == old(nodes) && edges == old(edges)
    {
      id := EpisodeName(nextId);
      var episode := Node(id, Episodic, content, sourceLabel, 1.0, "", []);
      NextNamesFresh(nextId);
      NamedGrows(episodes, EpisodeName, nextId, episode);
      NamedGrows(nodes, NodeName, nextId, episode.(id := NodeName(nextId)));
      nextId := nextId + 1;
      episodes := episodes + [episode];
    }
  }

  /** One call on the store. */
  datatype Call = Knowledge(p: StoreParams) | Episode(content: string, sourceLabel: string)

  /** Any run of stores on a fresh memory ends in a valid one: unique ids, and edges that are the index. */
  method Replay(agentName: string, lex: Lexicon, calls: seq<Call>) returns (m: HierarchicalMemoryLocal)
    requires Trim(agentName) != ""
    ensures fresh(m) && m.Valid() && m.lex == lex
    ensures |m.nodes| + |m.episodes| == |calls| && m.nextId == |calls| + 1
  {
    m := new HierarchicalMemoryLocal(agentName, lex);
    for i := 0 to |calls|
      invariant fresh(m) && m.Valid() && m.lex == lex
      invariant |m.nodes| + |m.episodes| == i && m.nextId == i + 1
    {
      match calls[i]
      case Knowledge(p) => var _ := m.StoreKnowledge(p);
      case Episode(content, sourceLabel) => var _ := m.StoreEpisode(content, sourceLabel);
    }
  }

  /** No id is used twice in a memory, episodes included. */
  lemma {:induction false} IdsUnique(m: HierarchicalMemoryLocal)
    requires m.Valid()
    ensures UniqueIds(m.nodes + m.episodes)
  {
    var all := m.nodes + m.episodes;
    forall i, j | 0 <= i < j < |all| ensures all[i].id != all[j].id {
      if i < |m.nodes| <= j {
        assert IsName(m.nodes[i].id, NodeName, m.nextId);
        assert IsName(m.episodes[j - |m.nodes|].id, EpisodeName, m.nextId);
        assert all[i].id[0] == 'n' && all[j].id[0] == 'e';
      }
    }
  }

  // ----- what the edge list says -----

  /** e links nodes[i] to the older nodes[j] with their similarity. */
  ghost predicate Links(lex: Lexicon, nodes: seq<Node>, e: Edge, i: nat, j: nat) {
    && j < i < |nodes|
    && e == Edge(nodes[i].id, nodes[j].id, "SIMILAR_TO", WordSimilarity(lex, nodes[i].content, nodes[j].content))
    && e.weight >= 0.3
  }

  lemma {:induction false} NewEdgesLink(lex: Lexicon, node: Node, existing: seq<Node>, e: Edge)
    ensures e in NewEdges(lex, node, existing) <==>
            exists j :: 0 <= j < |existing| && Links(lex, existing + [node], e, |existing|, j)
  {
    var all := existing + [node];
    if existing != [] {
      var rest := existing[1..];
      NewEdgesLink(lex, node, rest, e);
      assert forall j :: 0 <= j < |rest| ==> (rest + [node])[j] == all[j + 1];
      if j :| 0 <= j < |rest| && Links(lex, rest + [node], e, |rest|, j) {
        assert Links(lex, all, e, |existing|, j + 1);
      }
      if j :| 0 <= j < |existing| && Links(lex, all, e, |existing|, j) {
        if j == 0 { assert e in NewEdges(lex, node, existing); } else {
          assert Links(lex, rest + [node], e, |rest|, j - 1);
        }
      }
      if Alike(lex, node, existing[0]) >= EDGE_THRESHOLD {
        assert Links(lex, all, NewEdges(lex, node, existing)[0], |existing|, 0);
      }
    }
  }

  /** The edges of a new node come in the order of the older ones. */
  lemma {:induction false} NewEdgesInOrder(lex: Lexicon, node: Node, first: seq<Node>, second: seq<Node>)
    ensures NewEdges(lex, node, first + second) == NewEdges(lex, node, first) + NewEdges(lex, node, second)
  {
    if first == [] {
      assert first + second == second;
    } else {
      assert (first + second)[1..] == first[1..] + second;
      NewEdgesInOrder(lex, node, first[1..], second);
    }
  }

  lemma {:induction false} EdgesLink(lex: Lexicon, nodes: seq<Node>, e: Edge) returns (i: nat, j: nat)
    requires e in IndexEdges(lex, nodes)
    ensures Links(lex, nodes, e, i, j)
  {
    var last := |nodes| - 1;
    assert nodes[..last] + [nodes[last]] == nodes;
    if e in IndexEdges(lex, nodes[..last]) {
      i, j := EdgesLink(lex, nodes[..last], e);
    } else {
      NewEdgesLink(lex, nodes[last], nodes[..last], e);
      i := last;
      j :| 0 <= j < last && Links(lex, nodes, e, last, j);
    }
  }

  lemma {:induction false} LinksHaveEdges(lex: Lexicon, nodes: seq<Node>, e: Edge, i: nat, j: nat)
    requires Links(lex, nodes, e, i, j)
    ensures e in IndexEdges(lex, nodes)
  {
    var last := |nodes| - 1;
    assert nodes[..last] + [nodes[last]] == nodes;
    if i < last {
      LinksHaveEdges(lex, nodes[..last], e, i, j);
    } else {
      NewEdgesLink(lex, nodes[last], nodes[..last], e);
    }
  }

  /** An edge is present exactly when it runs from a newer node to an older one at least as similar as the threshold. */
  lemma {:induction false} EdgesExactly(lex: Lexicon, nodes: seq<Node>, e: Edge)
    ensures e in IndexEdges(lex, nodes) <==> exists i, j :: Links(lex, nodes, e, i, j)
  {
    if e in IndexEdges(lex, nodes) {
      var i, j := EdgesLink(lex, nodes, e);
    }
    if i, j :| Links(lex, nodes, e, i, j) {
      LinksHaveEdges(lex, nodes, e, i, j);
    }
  }

  /** Two edges of the list never join the same pair of nodes, in either direction. */
  ghost predicate OnePerPair(edges: seq<Edge>) {
    forall p, q :: 0 <= p < q < |edges| ==>
      && !(edges[p].source == edges[q].source && edges[p].target == edges[q].target)
      && !(edges[p].source == edges[q].target && edges[p].target == edges[q].source)
  }

  lemma {:induction false} NewEdgesOnePerPair(lex: Lexicon, node: Node, existing: seq<Node>)
    requires UniqueIds(existing + [node])
    ensures OnePerPair(NewEdges(lex, node, existing))
  {
    if existing != [] {
      var all, rest := existing + [node], existing[1..];
      assert forall j :: 0 <= j < |rest + [node]| ==> (rest + [node])[j] == all[j + 1];
      NewEdgesOnePerPair(lex, node, rest);
      forall e | e in NewEdges(lex, node, rest)
        ensures e.source == node.id && e.target != existing[0].id && node.id != existing[0].id
      {
        NewEdgesLink(lex, node, rest, e);
        var j :| 0 <= j < |rest| && Links(lex, rest + [node], e, |rest|, j);
        assert all[j + 1].id != all[0].id && all[|existing|].id != all[0].id;
      }
      var es := NewEdges(lex, node, existing);
      assert forall p :: 0 < p < |es| ==> es[p] in NewEdges(lex, node, rest) || es == NewEdges(lex, node, rest);
    }
  }

  /** At most one edge per pair of nodes. */
  lemma {:induction false} IndexOnePerPair(lex: Lexicon, nodes: seq<Node>)
    requires UniqueIds(nodes)
    ensures OnePerPair(IndexEdges(lex, nodes))
  {
    if nodes != [] {
      var last := |nodes| - 1;
      var old', new' := IndexEdges(lex, nodes[..last]), NewEdges(lex, nodes[last], nodes[..last]);
      assert nodes[..last] + [nodes[last]] == nodes;
      IndexOnePerPair(lex, nodes[..last]);
      NewEdgesOnePerPair(lex, nodes[last], nodes[..last]);
      forall e | e in old' ensures e.source != nodes[last].id && e.target != nodes[last].id {
        var i, j := EdgesLink(lex, nodes[..last], e);
      }
      forall e | e in new' ensures e.source == nodes[last].id {
        NewEdgesLink(lex, nodes[last], nodes[..last], e);
      }
    }
  }
}
