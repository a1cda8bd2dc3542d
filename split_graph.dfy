/**
 * The split graph of a code (app.py, lines 39-54): every word w and every
 * split point 0 < i < |w| give an edge from the prefix w[..i] to the suffix
 * w[i..]; each node carries its length as its layer. The code is circular
 * exactly when this graph has no directed cycle. Acyclicity is decided, and a
 * topological order produced, by removing sources one at a time (Kahn's
 * algorithm), which stands in for networkx's DAG test and topological sort.
 */
module SplitGraph {
  import opened Wrappers
  import opened Strings
  import Words

  type Edge = (string, string)

  /** The attributes add_edge stores on an edge: the word and the split point. */
  datatype EdgeLabel = EdgeLabel(word: string, split: nat)

  /** A directed graph with node attribute `layer` and edge attributes, as the
      networkx DiGraph build_graph fills. */
  datatype Graph = Graph(layer: map<string, nat>, edges: map<Edge, EdgeLabel>) {

    /** Every edge joins two nodes of the graph. */
    ghost predicate Closed() {
      forall e :: e in edges ==> e.0 in layer && e.1 in layer
    }
  }

  // ---------------------------------------------------------------------------
  // The edges of a code
  // ---------------------------------------------------------------------------

  /** The splits (w[..j], w[j..]) of `w` with 0 < j < bound. */
  function WordSplitsBelow(w: string, bound: nat): set<Edge> {
    set j | 0 < j < bound && j < |w| :: (w[..j], w[j..])
  }

  /** All proper splits of one word. */
  function WordSplits(w: string): set<Edge> {
    WordSplitsBelow(w, |w|)
  }

  /** All proper splits of all words of a code. */
  function SplitEdges(words: seq<string>): set<Edge>
    decreases |words|
  {
    if |words| == 0 then {}
    else SplitEdges(words[..|words| - 1]) + WordSplits(words[|words| - 1])
  }

  /** The nodes the edges touch. */
  function Endpoints(edges: set<Edge>): set<string> {
    (set e | e in edges :: e.0) + (set e | e in edges :: e.1)
  }

  /** A pair is a split of `w` exactly when both halves are non-empty and they
      make up `w`. */
  lemma WordSplitIff(w: string, u: string, v: string)
    ensures (u, v) in WordSplits(w) <==> u != "" && v != "" && u + v == w
  {
    if u != "" && v != "" && u + v == w {
      var j := |u|;
      assert w[..j] == u && w[j..] == v;
      assert (w[..j], w[j..]) in WordSplits(w);
    }
  }

  /** The edges of a code are exactly the pairs of non-empty strings whose
      concatenation is one of its words. */
  lemma {:induction false} SplitEdgeIff(words: seq<string>, u: string, v: string)
    ensures (u, v) in SplitEdges(words) <==> u != "" && v != "" && u + v in words
    decreases |words|
  {
    if |words| > 0 {
      var init, last := words[..|words| - 1], words[|words| - 1];
      SplitEdgeIff(init, u, v);
      WordSplitIff(last, u, v);
      assert words == init + [last];
      assert u + v in words <==> u + v in init || u + v == last by {
        assert u + v in words <==> u + v in multiset(words);
      }
    }
  }

  /** Every node's layer is its length. */
  ghost predicate Layered(g: Graph) {
    forall v :: v in g.layer ==> g.layer[v] == |v|
  }

  /** Every edge is labelled with the word its two halves make up, one of
      `words`, and with the length of its first half as split point. */
  ghost predicate LabelledBy(g: Graph, words: seq<string>) {
    forall e :: e in g.edges ==> g.edges[e] == EdgeLabel(e.0 + e.1, |e.0|) && e.0 + e.1 in words
  }

  lemma EndpointsAdd(edges: set<Edge>, e: Edge)
    ensures Endpoints(edges + {e}) == Endpoints(edges) + {e.0, e.1}
  {
  }

  lemma EndpointsClosed(g: Graph)
    requires g.layer.Keys == Endpoints(g.edges.Keys)
    ensures g.Closed()
  {
    forall e | e in g.edges ensures e.0 in g.layer && e.1 in g.layer {
      EndpointsAdd(g.edges.Keys - {e}, e);
      assert g.edges.Keys == (g.edges.Keys - {e}) + {e};
    }
  }

  lemma SplitEdgesPrefix(words: seq<string>, k: nat)
    requires k < |words|
    ensures SplitEdges(words[..k + 1]) == SplitEdges(words[..k]) + WordSplits(words[k])
  {
    assert words[..k + 1][..k] == words[..k];
  }

  lemma WordSplitsStep(w: string, i: nat)
    requires 0 < i < |w|
    ensures WordSplitsBelow(w, i + 1) == WordSplitsBelow(w, i) + {(w[..i], w[i..])}
  {
  }

  lemma LayeredStep(layer: map<string, nat>, w: string, i: nat)
    requires 0 < i < |w|
    requires forall v :: v in layer ==> layer[v] == |v|
    ensures var layer' := layer[w[..i] := i][w[i..] := |w| - i];
      forall v :: v in layer' ==> layer'[v] == |v|
  {
  }

  lemma LabelledStep(g: Graph, words: seq<string>, w: string, i: nat)
    requires 0 < i < |w| && w in words
    requires LabelledBy(g, words)
    ensures LabelledBy(g.(edges := g.edges[(w[..i], w[i..]) := EdgeLabel(w, i)]), words)
  {
    assert w[..i] + w[i..] == w;
  }

  /** One step of the inner loop of build_graph. */
  lemma AddSplit(g: Graph, words: seq<string>, w: string, i: nat, before: set<Edge>)
    requires 0 < i < |w| && w in words
    requires g.edges.Keys == before + WordSplitsBelow(w, i)
    requires g.layer.Keys == Endpoints(g.edges.Keys)
    requires Layered(g) && LabelledBy(g, words)
    ensures var g' := Graph(g.layer[w[..i] := i][w[i..] := |w| - i], g.edges[(w[..i], w[i..]) := EdgeLabel(w, i)]);
      && g'.edges.Keys == before + WordSplitsBelow(w, i + 1)
      && g'.layer.Keys == Endpoints(g'.edges.Keys)
      && Layered(g') && LabelledBy(g', words)
  {
    var e := (w[..i], w[i..]);
    WordSplitsStep(w, i);
    EndpointsAdd(g.edges.Keys, e);
    assert g.edges[e := EdgeLabel(w, i)].Keys == g.edges.Keys + {e};
    LayeredStep(g.layer, w, i);
    LabelledStep(g, words, w, i);
  }

  /** The split graph of `words`: the nodes are the halves of the splits,
      labelled with their length, and each edge is labelled with its word and
      split point. */
  ghost function SplitGraphOf(words: seq<string>): Graph {
    Graph(map v | v in Endpoints(SplitEdges(words)) :: |v|,
          map e | e in SplitEdges(words) :: EdgeLabel(e.0 + e.1, |e.0|))
  }

  /** The four facts build_graph establishes determine the graph. */
  lemma SplitGraphUnique(g: Graph, words: seq<string>)
    requires g.edges.Keys == SplitEdges(words)
    requires g.layer.Keys == Endpoints(SplitEdges(words))
    requires Layered(g)
    requires forall e :: e in g.edges ==> g.edges[e] == EdgeLabel(e.0 + e.1, |e.0|)
    ensures g == SplitGraphOf(words)
  {
    var h := SplitGraphOf(words);
    assert g.layer == h.layer;
    assert g.edges == h.edges;
  }

  /** A code of words of length `n` has split edges exactly when n >= 2. */
  lemma NoSplitsIffShort(words: seq<string>, n: nat)
    requires words != [] && Words.Uniform(words, n)
    ensures SplitEdges(words) == {} <==> n < 2
    ensures Endpoints(SplitEdges(words)) == {} <==> n < 2
  {
    var w := words[0];
    assert w in words;
    forall e | e in SplitEdges(words) ensures n >= 2 {
      SplitEdgeIff(words, e.0, e.1);
      assert e.0 + e.1 in words;
    }
    if n >= 2 {
      SplitEdgeIff(words, w[..1], w[1..]);
      assert w[..1] + w[1..] == w;
      assert (w[..1], w[1..]) in SplitEdges(words);
      assert w[..1] in Endpoints(SplitEdges(words));
    }
  }


  /** build_graph: for each word and each split point 1 <= i < n, record both
      halves as nodes with their length as layer, and the edge between them
      labelled with the word and the split point. */
  method BuildGraph(words: seq<string>) returns (g: Graph)
    requires words != [] && Words.Uniform(words, |words[0]|)
    ensures g.edges.Keys == SplitEdges(words)
    ensures g.layer.Keys == Endpoints(SplitEdges(words))
    ensures forall v :: v in g.layer ==> g.layer[v] == |v|
    ensures forall e :: e in g.edges ==> g.edges[e] == EdgeLabel(e.0 + e.1, |e.0|) && e.0 + e.1 in words
    ensures g.Closed()
    ensures g == SplitGraphOf(words)
  {
    var n := |words[0]|;
    g := Graph(map[], map[]);
    for k := 0 to |words|
      invariant g.edges.Keys == SplitEdges(words[..k])
      invariant g.layer.Keys == Endpoints(g.edges.Keys)
      invariant Layered(g) && LabelledBy(g, words)
    {
      var w := words[k];
      assert w in words;
      var before := g.edges.Keys;
      var i := 1;
      while i < n
        invariant 1 <= i
        invariant g.edges.Keys == before + WordSplitsBelow(w, i)
        invariant g.layer.Keys == Endpoints(g.edges.Keys)
        invariant Layered(g) && LabelledBy(g, words)
      {
        var prefix, suffix := w[..i], w[i..];
        AddSplit(g, words, w, i, before);
        g := g.(layer := g.layer[prefix := |prefix|]);
        g := g.(layer := g.layer[suffix := |suffix|]);
        g := g.(edges := g.edges[(prefix, suffix) := EdgeLabel(w, i)]);
        i := i + 1;
      }
      assert WordSplitsBelow(w, i) == WordSplits(w) by {
        assert |w| == n;
      }
      SplitEdgesPrefix(words, k);
    }
    assert words[..|words|] == words;
    EndpointsClosed(g);
    SplitGraphUnique(g, words);
  }

  // ---------------------------------------------------------------------------
  // Paths, cycles and topological orders
  // ---------------------------------------------------------------------------

  /** A non-empty walk along edges of the graph. */
  ghost predicate IsPath(g: Graph, p: seq<string>) {
    && |p| > 0
    && (forall k :: 0 <= k < |p| ==> p[k] in g.layer)
    && (forall k :: 0 <= k < |p| - 1 ==> (p[k], p[k + 1]) in g.edges)
  }

  /** A walk of at least one edge that returns to where it started (a
      self-loop and a 2-cycle included). */
  ghost predicate IsCycle(g: Graph, p: seq<string>) {
    IsPath(g, p) && |p| > 1 && p[0] == p[|p| - 1]
  }

  ghost predicate Acyclic(g: Graph) {
    forall p :: !IsCycle(g, p)
  }

  /** Every node exactly once, and every edge pointing forward. */
  ghost predicate IsTopologicalOrder(g: Graph, order: seq<string>) {
    && NoDuplicates(order)
    && (forall v :: v in order <==> v in g.layer)
    && Forward(g, order)
  }

  /** Every edge between members of `order` points forward. */
  ghost predicate Forward(g: Graph, order: seq<string>) {
    forall i, j :: 0 <= i < |order| && 0 <= j < |order| && (order[i], order[j]) in g.edges ==> i < j
  }

  function IndexOf(s: seq<string>, x: string): (i: nat)
    requires x in s
    ensures i < |s| && s[i] == x
  {
    if s[0] == x then 0 else 1 + IndexOf(s[1..], x)
  }

  lemma {:induction false} PathGoesForward(g: Graph, order: seq<string>, p: seq<string>, k: nat)
    requires IsTopologicalOrder(g, order) && IsPath(g, p)
    requires 0 < k < |p|
    ensures IndexOf(order, p[0]) < IndexOf(order, p[k])
    decreases k
  {
    var a, b := IndexOf(order, p[k - 1]), IndexOf(order, p[k]);
    assert (order[a], order[b]) in g.edges;
    if k > 1 {
      PathGoesForward(g, order, p, k - 1);
    }
  }

  /** A graph with a topological order has no cycle. */
  lemma TopologicalOrderAcyclic(g: Graph, order: seq<string>)
    requires IsTopologicalOrder(g, order)
    ensures Acyclic(g)
  {
    forall p | IsPath(g, p) && |p| > 1 ensures p[0] != p[|p| - 1] {
      PathGoesForward(g, order, p, |p| - 1);
    }
  }

  /** In a sequence longer than the set it draws from, some element repeats. */
  lemma {:induction false} Pigeonhole(p: seq<string>, r: set<string>) returns (i: nat, j: nat)
    requires forall k :: 0 <= k < |p| ==> p[k] in r
    requires |p| > |r|
    ensures i < j < |p| && p[i] == p[j]
    decreases |p|
  {
    var last := |p| - 1;
    var x := p[last];
    if k :| 0 <= k < last && p[k] == x {
      i, j := k, last;
    } else {
      var q := p[..last];
      assert forall k :: 0 <= k < |q| ==> q[k] in r - {x};
      assert |r - {x}| == |r| - 1;
      i, j := Pigeonhole(q, r - {x});
    }
  }

  /** Some node of `r` has an edge into `v`. */
  ghost predicate HasPredecessorIn(g: Graph, r: set<string>, v: string) {
    exists u :: u in r && (u, v) in g.edges
  }

  /** No node of `r` is free of incoming edges from `r`. */
  ghost predicate Stuck(g: Graph, r: set<string>) {
    forall v {:trigger HasPredecessorIn(g, r, v)} :: v in r ==> HasPredecessorIn(g, r, v)
  }

  /** Walking edges backwards inside a stuck set never ends. */
  lemma {:induction false} WalkBack(g: Graph, r: set<string>, v: string, m: nat) returns (p: seq<string>)
    requires r <= g.layer.Keys && Stuck(g, r) && v in r
    ensures |p| == m + 1 && IsPath(g, p) && p[m] == v
    ensures forall k :: 0 <= k < |p| ==> p[k] in r
    decreases m
  {
    if m == 0 {
      p := [v];
    } else {
      assert HasPredecessorIn(g, r, v);
      var u :| u in r && (u, v) in g.edges;
      var q := WalkBack(g, r, u, m - 1);
      p := q + [v];
      assert forall k :: 0 <= k < |q| ==> p[k] == q[k];
    }
  }

  /** A non-empty stuck set contains a cycle. */
  lemma StuckHasCycle(g: Graph, r: set<string>) returns (c: seq<string>)
    requires r <= g.layer.Keys && Stuck(g, r) && r != {}
    ensures IsCycle(g, c)
  {
    var v :| v in r;
    var p := WalkBack(g, r, v, |r|);
    var i, j := Pigeonhole(p, r);
    c := p[i..j + 1];
    assert forall k :: 0 <= k < |c| ==> c[k] == p[i + k];
  }

  /** Every edge into a member of `order` comes from a member of `order`. */
  ghost predicate PredecessorsIn(g: Graph, order: seq<string>) {
    forall u, v :: (u, v) in g.edges && v in order ==> u in order
  }

  /** The loop invariant of Kahn's algorithm: `order` holds, once each, the
      nodes already moved out of `remaining`, closed under predecessors. */
  ghost predicate KahnState(g: Graph, order: seq<string>, remaining: set<string>) {
    && remaining <= g.layer.Keys
    && NoDuplicates(order)
    && (forall x :: x in order <==> x in g.layer && x !in remaining)
    && Forward(g, order)
    && PredecessorsIn(g, order)
  }

  /** Appending a node none of the remaining nodes points to keeps the state. */
  lemma AppendSource(g: Graph, order: seq<string>, remaining: set<string>, v: string)
    requires g.Closed() && KahnState(g, order, remaining)
    requires v in remaining && forall u :: u in remaining ==> (u, v) !in g.edges
    ensures KahnState(g, order + [v], remaining - {v})
  {
    var o := order + [v];
    assert v !in order;
    forall i, j | 0 <= i < |o| && 0 <= j < |o| && (o[i], o[j]) in g.edges ensures i < j {
      if j < |order| {
        assert o[j] == order[j];
        assert o[i] in order;
      }
    }
    forall u, w | (u, w) in g.edges && w in o ensures u in o {
      if w == v {
        assert u in g.layer;
      } else {
        assert w in order;
      }
    }
    forall i, j | 0 <= i < j < |o| ensures o[i] != o[j] {
      if j < |order| {
        assert o[i] == order[i] && o[j] == order[j];
      } else {
        assert o[i] in order;
      }
    }
  }

  /** Kahn's algorithm: repeatedly move a node with no incoming edge from the
      remaining nodes to the end of the order. It finishes exactly when the
      graph has no cycle, and then the order is topological. */
  method TopologicalSort(g: Graph) returns (r: Option<seq<string>>)
    requires g.Closed()
    ensures r.Some? <==> Acyclic(g)
    ensures r.Some? ==> IsTopologicalOrder(g, r.value)
  {
    var order: seq<string> := [];
    var remaining := g.layer.Keys;
    while remaining != {}
      invariant KahnState(g, order, remaining)
      decreases |remaining|
    {
      var sources := set v | v in remaining && forall u :: u in remaining ==> (u, v) !in g.edges;
      if sources != {} {
        var v :| v in sources;
        AppendSource(g, order, remaining, v);
        order := order + [v];
        remaining := remaining - {v};
      } else {
        forall v | v in remaining ensures HasPredecessorIn(g, remaining, v) {
          assert v !in sources;
        }
        var c := StuckHasCycle(g, remaining);
        return None;
      }
    }
    TopologicalOrderAcyclic(g, order);
    return Some(order);
  }

  /** is_circular: the code is circular exactly when its graph is acyclic. */
  method IsCircular(g: Graph) returns (circular: bool)
    requires g.Closed()
    ensures circular <==> Acyclic(g)
  {
    var order := TopologicalSort(g);
    circular := order.Some?;
  }
}
