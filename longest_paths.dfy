/**
 * The longest paths of an acyclic split graph: a dynamic programme over a
 * topological order computes, for every node, the length `dist` of the
 * longest path ending there and the predecessors `parents` through which it
 * is reached; backtracking from the nodes of greatest `dist` along `parents`
 * then lists up to `maxPaths` longest paths.
 */
module LongestPaths {
  import opened Strings
  import opened SplitGraph

  /** What longest_paths_in_dag gives back: `(None, [])` for a cyclic graph,
      the error `max()` raises when the graph has no node, or the length `L`
      of the longest paths with the paths found. */
  datatype Outcome = NotAcyclic | EmptyMax | Found(length: nat, paths: seq<seq<string>>)

  /** No edge enters `v`. */
  ghost predicate NoIncoming(g: Graph, v: string) {
    forall u :: (u, v) !in g.edges
  }

  function Reverse<T>(s: seq<T>): (r: seq<T>)
    ensures |r| == |s|
    ensures forall i :: 0 <= i < |s| ==> r[i] == s[|s| - 1 - i]
  {
    if s == [] then [] else Reverse(s[1..]) + [s[0]]
  }

  lemma ReverseSnoc<T>(s: seq<T>, x: T)
    ensures Reverse(s + [x]) == [x] + Reverse(s)
  {
    var a, b := Reverse(s + [x]), [x] + Reverse(s);
    assert |a| == |b|;
    forall i | 0 <= i < |a| ensures a[i] == b[i] {
      if i > 0 {
        assert (s + [x])[|s| - i] == s[|s| - 1 - (i - 1)];
      }
    }
  }

  /** The nodes `u` has an edge to. */
  function Successors(g: Graph, u: string): (s: set<string>)
    ensures forall v :: v in s <==> v in g.layer && (u, v) in g.edges
  {
    set v | v in g.layer && (u, v) in g.edges
  }

  // ---------------------------------------------------------------------------
  // The dynamic programme
  // ---------------------------------------------------------------------------

  /** No handled edge leaves `v`. */
  ghost predicate Untouched(done: set<Edge>, v: string) {
    forall e :: e in done ==> e.0 != v
  }

  /** Every handled edge raises `dist` by at least one. */
  ghost predicate Raises(done: set<Edge>, dist: map<string, nat>) {
    forall e :: e in done ==> e.0 in dist && e.1 in dist && dist[e.0] + 1 <= dist[e.1]
  }

  /** A node has parents exactly when its `dist` is positive. */
  ghost predicate ParentedIffPositive(dist: map<string, nat>, parents: map<string, set<string>>)
    requires dist.Keys == parents.Keys
  {
    forall v {:trigger parents[v]} :: v in dist ==> (dist[v] == 0 <==> parents[v] == {})
  }

  /** Every parent reaches its child by a handled edge raising `dist` by
      exactly one. */
  ghost predicate ParentsSound(done: set<Edge>, dist: map<string, nat>, parents: map<string, set<string>>) {
    forall v, u :: v in parents && u in parents[v] ==> (u, v) in done && u in dist && v in dist && dist[u] + 1 == dist[v]
  }

  /** Every handled edge raising `dist` by exactly one is a parent link. */
  ghost predicate ParentsComplete(done: set<Edge>, dist: map<string, nat>, parents: map<string, set<string>>)
    requires dist.Keys == parents.Keys
  {
    forall u, v {:trigger (u, v) in done} :: (u, v) in done && u in dist && v in dist && dist[u] + 1 == dist[v] ==> u in parents[v]
  }

  /** The labelling the programme keeps for the edges `done` handled so far. */
  ghost predicate DPState(g: Graph, done: set<Edge>, dist: map<string, nat>, parents: map<string, set<string>>) {
    && dist.Keys == g.layer.Keys
    && parents.Keys == g.layer.Keys
    && done <= g.edges.Keys
    && Raises(done, dist)
    && ParentedIffPositive(dist, parents)
    && ParentsSound(done, dist, parents)
    && ParentsComplete(done, dist, parents)
  }

  /** The labelling once every edge has been handled. */
  ghost predicate IsLongestLabelling(g: Graph, dist: map<string, nat>, parents: map<string, set<string>>) {
    DPState(g, g.edges.Keys, dist, parents)
  }

  lemma RaisesLonger(done: set<Edge>, dist: map<string, nat>, u: string, v: string)
    requires Raises(done, dist) && u in dist && v in dist && u != v
    requires forall e :: e in done ==> e.0 != v
    requires dist[u] + 1 > dist[v]
    ensures Raises(done + {(u, v)}, dist[v := dist[u] + 1])
  {
    var dist' := dist[v := dist[u] + 1];
    forall e | e in done + {(u, v)} ensures e.0 in dist' && e.1 in dist' && dist'[e.0] + 1 <= dist'[e.1] {
      if e != (u, v) {
        assert e.0 != v;
      }
    }
  }

  lemma SoundLonger(done: set<Edge>, dist: map<string, nat>, parents: map<string, set<string>>, u: string, v: string)
    requires ParentsSound(done, dist, parents) && u in dist && v in dist && u != v
    requires forall e :: e in done ==> e.0 != v
    ensures ParentsSound(done + {(u, v)}, dist[v := dist[u] + 1], parents[v := {u}])
  {
    var dist', parents' := dist[v := dist[u] + 1], parents[v := {u}];
    forall y, x | y in parents' && x in parents'[y] ensures (x, y) in done + {(u, v)} && x in dist' && y in dist' && dist'[x] + 1 == dist'[y] {
      if y == v {
        assert x == u && (x, y) == (u, v);
        assert dist'[x] == dist[u] && dist'[y] == dist[u] + 1;
      } else {
        assert x in parents[y];
        assert (x, y) in done;
        assert x != v;
        assert dist'[x] == dist[x] && dist'[y] == dist[y];
      }
    }
  }

  lemma CompleteLonger(done: set<Edge>, dist: map<string, nat>, parents: map<string, set<string>>, u: string, v: string)
    requires dist.Keys == parents.Keys && ParentsComplete(done, dist, parents) && Raises(done, dist)
    requires u in dist && v in dist && u != v
    requires forall e :: e in done ==> e.0 != v
    requires dist[u] + 1 > dist[v]
    ensures ParentsComplete(done + {(u, v)}, dist[v := dist[u] + 1], parents[v := {u}])
  {
    assert forall x :: (x, v) in done ==> dist[x] + 1 < dist[u] + 1;
  }

  /** Handling edge `(u, v)` with a candidate longer than `dist[v]`: the
      candidate replaces `dist[v]` and `u` becomes its only parent. This keeps
      the labelling as long as no handled edge leaves `v`. */
  lemma RelaxLonger(g: Graph, done: set<Edge>, dist: map<string, nat>, parents: map<string, set<string>>, u: string, v: string)
    requires g.Closed() && DPState(g, done, dist, parents)
    requires (u, v) in g.edges && (u, v) !in done && u != v
    requires Untouched(done, v)
    requires dist[u] + 1 > dist[v]
    ensures DPState(g, done + {(u, v)}, dist[v := dist[u] + 1], parents[v := {u}])
  {
    RaisesLonger(done, dist, u, v);
    SoundLonger(done, dist, parents, u, v);
    CompleteLonger(done, dist, parents, u, v);
  }

  /** Handling edge `(u, v)` with a candidate equal to `dist[v]`: `u` joins
      the parents of `v`. */
  lemma RelaxEqual(g: Graph, done: set<Edge>, dist: map<string, nat>, parents: map<string, set<string>>, u: string, v: string)
    requires g.Closed() && DPState(g, done, dist, parents)
    requires (u, v) in g.edges && (u, v) !in done
    requires dist[u] + 1 == dist[v]
    ensures DPState(g, done + {(u, v)}, dist, parents[v := parents[v] + {u}])
  {
  }

  /** Handling edge `(u, v)` with a candidate shorter than `dist[v]` changes
      nothing. */
  lemma RelaxShorter(g: Graph, done: set<Edge>, dist: map<string, nat>, parents: map<string, set<string>>, u: string, v: string)
    requires g.Closed() && DPState(g, done, dist, parents)
    requires (u, v) in g.edges && (u, v) !in done
    requires dist[u] + 1 < dist[v]
    ensures DPState(g, done + {(u, v)}, dist, parents)
  {
  }

  /** Handling edge `(u, v)` keeps the labelling, whichever way the
      candidate `dist[u] + 1` compares with `dist[v]`. */
  lemma Relax(g: Graph, done: set<Edge>, dist: map<string, nat>, parents: map<string, set<string>>, u: string, v: string,
              dist': map<string, nat>, parents': map<string, set<string>>)
    requires g.Closed() && DPState(g, done, dist, parents)
    requires (u, v) in g.edges && (u, v) !in done && u != v
    requires Untouched(done, v)
    requires dist[u] + 1 > dist[v] ==> dist' == dist[v := dist[u] + 1] && parents' == parents[v := {u}]
    requires dist[u] + 1 == dist[v] ==> dist' == dist && parents' == parents[v := parents[v] + {u}]
    requires dist[u] + 1 < dist[v] ==> dist' == dist && parents' == parents
    ensures DPState(g, done + {(u, v)}, dist', parents')
  {
    if dist[u] + 1 > dist[v] {
      RelaxLonger(g, done, dist, parents, u, v);
    } else if dist[u] + 1 == dist[v] {
      RelaxEqual(g, done, dist, parents, u, v);
    } else {
      RelaxShorter(g, done, dist, parents, u, v);
    }
  }

  /** The edges leaving the first `k` nodes of `order`: those the dynamic
      programme has relaxed when it reaches `order[k]`. */
  ghost function EdgesFromPrefix(g: Graph, order: seq<string>, k: nat): set<Edge>
    requires k <= |order|
  {
    set e | e in g.edges && e.0 in order[..k]
  }

  /** When the dynamic programme reaches `order[k]`, no relaxed edge leaves
      it or any of its successors, which all come later in the order. */
  lemma ReadyAt(g: Graph, order: seq<string>, k: nat)
    requires g.Closed() && IsTopologicalOrder(g, order) && k < |order|
    ensures Untouched(EdgesFromPrefix(g, order, k), order[k])
    ensures forall v :: v in Successors(g, order[k]) ==>
              order[k] != v && Untouched(EdgesFromPrefix(g, order, k), v)
  {
    var done := EdgesFromPrefix(g, order, k);
    forall e | e in done ensures e.0 != order[k] {
      var i :| 0 <= i < k && order[i] == e.0;
    }
    forall v | v in Successors(g, order[k]) ensures order[k] != v && Untouched(done, v) {
      var j := IndexOf(order, v);
      assert (order[k], order[j]) in g.edges;
      forall e | e in done ensures e.0 != v {
        var i :| 0 <= i < k && order[i] == e.0;
      }
    }
  }

  lemma NextPrefix(g: Graph, order: seq<string>, k: nat)
    requires k < |order|
    ensures EdgesFromPrefix(g, order, k) + OutEdges(g, order[k]) == EdgesFromPrefix(g, order, k + 1)
  {
    assert order[..k + 1] == order[..k] + [order[k]];
  }

  lemma WholeOrder(g: Graph, order: seq<string>)
    requires g.Closed() && IsTopologicalOrder(g, order)
    ensures EdgesFromPrefix(g, order, |order|) == g.edges.Keys
  {
    assert order[..|order|] == order;
  }

  lemma InitialState(g: Graph, order: seq<string>, dist: map<string, nat>, parents: map<string, set<string>>)
    requires IsTopologicalOrder(g, order)
    requires dist == map v | v in order :: 0
    requires parents == map v | v in order :: {}
    ensures DPState(g, EdgesFromPrefix(g, order, 0), dist, parents)
  {
    assert EdgesFromPrefix(g, order, 0) == {};
  }

  /** The edges leaving `u`. */
  function OutEdges(g: Graph, u: string): (r: set<Edge>)
    ensures forall e :: e in r <==> e in g.edges && e.0 == u
  {
    set e | e in g.edges && e.0 == u
  }

  /** The edges from `u` into `vs`. */
  ghost function EdgesInto(g: Graph, u: string, vs: set<string>): set<Edge> {
    set e | e in g.edges && e.0 == u && e.1 in vs
  }

  /** The edges relaxed while the inner loop for `u` still has `pending`
      successors to visit. */
  ghost function Relaxed(g: Graph, done: set<Edge>, u: string, pending: set<string>): set<Edge> {
    done + EdgesInto(g, u, Successors(g, u) - pending)
  }

  lemma NoneRelaxed(g: Graph, done: set<Edge>, u: string)
    ensures Relaxed(g, done, u, Successors(g, u)) == done
  {
    assert EdgesInto(g, u, {}) == {};
  }

  lemma AllRelaxed(g: Graph, done: set<Edge>, u: string)
    requires g.Closed()
    ensures Relaxed(g, done, u, {}) == done + OutEdges(g, u)
  {
    forall e | e in OutEdges(g, u) ensures e in EdgesInto(g, u, Successors(g, u)) {
      assert e.1 in Successors(g, u);
    }
  }

  /** Visiting the pending successor `v` relaxes the edge `(u, v)`, which
      neither is relaxed yet nor has a relaxed edge leaving its target. */
  lemma VisitSuccessor(g: Graph, done: set<Edge>, u: string, pending: set<string>, v: string)
    requires pending <= Successors(g, u) && v in pending
    requires Untouched(done, u) && u != v && Untouched(done, v)
    ensures (u, v) in g.edges
    ensures Untouched(Relaxed(g, done, u, pending), v)
    ensures (u, v) !in Relaxed(g, done, u, pending)
    ensures Relaxed(g, done, u, pending - {v}) == Relaxed(g, done, u, pending) + {(u, v)}
  {
    assert Successors(g, u) - (pending - {v}) == (Successors(g, u) - pending) + {v};
    assert EdgesInto(g, u, (Successors(g, u) - pending) + {v}) == EdgesInto(g, u, Successors(g, u) - pending) + {(u, v)};
  }

  /** One step of the inner loop: offer `dist[u] + 1` to `v`, taking over
      the parents on a strict improvement and adding `u` on a tie. */
  method RelaxEdge(g: Graph, ghost done: set<Edge>, dist: map<string, nat>, parents: map<string, set<string>>,
                   u: string, v: string)
    returns (dist': map<string, nat>, parents': map<string, set<string>>)
    requires g.Closed() && DPState(g, done, dist, parents)
    requires (u, v) in g.edges && (u, v) !in done && u != v
    requires Untouched(done, v)
    ensures DPState(g, done + {(u, v)}, dist', parents')
  {
    dist', parents' := dist, parents;
    var cand := dist[u] + 1;
    if cand > dist[v] {
      dist' := dist[v := cand];
      parents' := parents[v := {u}];
    } else if cand == dist[v] {
      parents' := parents[v := parents[v] + {u}];
    }
    Relax(g, done, dist, parents, u, v, dist', parents');
  }

  /** The inner loop of the dynamic programme: relax every edge leaving `u`,
      none of whose targets any handled edge leaves. */
  method RelaxEdgesFrom(g: Graph, u: string, ghost done: set<Edge>, dist: map<string, nat>, parents: map<string, set<string>>)
    returns (dist': map<string, nat>, parents': map<string, set<string>>)
    requires g.Closed() && DPState(g, done, dist, parents)
    requires Untouched(done, u)
    requires forall v :: v in Successors(g, u) ==> u != v && Untouched(done, v)
    ensures DPState(g, done + OutEdges(g, u), dist', parents')
  {
    dist', parents' := dist, parents;
    var pending := Successors(g, u);
    NoneRelaxed(g, done, u);
    while pending != {}
      invariant pending <= Successors(g, u)
      invariant DPState(g, Relaxed(g, done, u, pending), dist', parents')
      decreases pending
    {
      var v :| v in pending;
      VisitSuccessor(g, done, u, pending, v);
      dist', parents' := RelaxEdge(g, Relaxed(g, done, u, pending), dist', parents', u, v);
      pending := pending - {v};
    }
    AllRelaxed(g, done, u);
  }


  /** The dynamic programme of longest_paths_in_dag: every node starts at
      `dist` 0 with no parents, then the edges leaving each node are relaxed
      in topological order. The result is the labelling whose `dist` is the
      length of the longest path ending at each node. */
  method LongestDistances(g: Graph, order: seq<string>) returns (dist: map<string, nat>, parents: map<string, set<string>>)
    requires g.Closed() && IsTopologicalOrder(g, order)
    ensures IsLongestLabelling(g, dist, parents)
  {
    dist := map v | v in order :: 0;
    parents := map v | v in order :: {};
    InitialState(g, order, dist, parents);
    for k := 0 to |order|
      invariant DPState(g, EdgesFromPrefix(g, order, k), dist, parents)
    {
      ReadyAt(g, order, k);
      dist, parents := RelaxEdgesFrom(g, order[k], EdgesFromPrefix(g, order, k), dist, parents);
      NextPrefix(g, order, k);
    }
    WholeOrder(g, order);
  }


  // ---------------------------------------------------------------------------
  // What the labelling means
  // ---------------------------------------------------------------------------

  lemma PathPrefix(g: Graph, p: seq<string>, n: nat)
    requires IsPath(g, p) && 0 < n <= |p|
    ensures IsPath(g, p[..n])
  {
  }

  /** Along a path, `dist` grows by at least one per edge. */
  lemma {:induction false} PathBoundedByDist(g: Graph, dist: map<string, nat>, parents: map<string, set<string>>, p: seq<string>)
    requires IsLongestLabelling(g, dist, parents) && IsPath(g, p)
    ensures p[0] in dist && p[|p| - 1] in dist
    ensures dist[p[0]] + |p| - 1 <= dist[p[|p| - 1]]
    decreases |p|
  {
    if |p| > 1 {
      PathPrefix(g, p, |p| - 1);
      PathBoundedByDist(g, dist, parents, p[..|p| - 1]);
      assert (p[|p| - 2], p[|p| - 1]) in g.edges;
    }
  }

  /** Following parents back from `v` gives a path of exactly `dist[v]` edges
      that starts at a node of `dist` 0. */
  lemma {:induction false} DistAttained(g: Graph, dist: map<string, nat>, parents: map<string, set<string>>, v: string) returns (p: seq<string>)
    requires IsLongestLabelling(g, dist, parents) && v in dist
    ensures IsPath(g, p) && |p| == dist[v] + 1 && p[|p| - 1] == v
    ensures p[0] in dist && dist[p[0]] == 0
    decreases dist[v]
  {
    if dist[v] == 0 {
      p := [v];
    } else {
      var u :| u in parents[v];
      var q := DistAttained(g, dist, parents, u);
      assert (u, v) in g.edges;
      PathSnoc(g, q, v);
      p := q + [v];
    }
  }

  lemma PathSnoc(g: Graph, q: seq<string>, v: string)
    requires IsPath(g, q) && v in g.layer && (q[|q| - 1], v) in g.edges
    ensures IsPath(g, q + [v]) && (q + [v])[0] == q[0]
  {
    var p := q + [v];
    assert forall k :: 0 <= k < |q| ==> p[k] == q[k];
  }

  /** `dist[v]` is the length of the longest path ending at `v`. */
  lemma DistIsLongestEndingAt(g: Graph, dist: map<string, nat>, parents: map<string, set<string>>, v: string)
    requires IsLongestLabelling(g, dist, parents) && v in dist
    ensures forall p :: IsPath(g, p) && p[|p| - 1] == v ==> |p| - 1 <= dist[v]
    ensures exists p :: IsPath(g, p) && p[|p| - 1] == v && |p| - 1 == dist[v]
  {
    forall p | IsPath(g, p) && p[|p| - 1] == v ensures |p| - 1 <= dist[v] {
      PathBoundedByDist(g, dist, parents, p);
    }
    var p := DistAttained(g, dist, parents, v);
  }

  /** `dist[v]` is 0 exactly at the nodes no edge enters. */
  lemma ZeroIffNoIncoming(g: Graph, dist: map<string, nat>, parents: map<string, set<string>>, v: string)
    requires IsLongestLabelling(g, dist, parents) && v in dist
    ensures dist[v] == 0 <==> NoIncoming(g, v)
  {
    if dist[v] != 0 {
      var u :| u in parents[v];
      assert (u, v) in g.edges;
    }
  }

  // ---------------------------------------------------------------------------
  // Backtracking
  // ---------------------------------------------------------------------------

  /** A path found by backtracking from `v` with `acc` the nodes already
      walked back from: it starts at a node of `dist` 0 and ends with `v`
      followed by `acc` reversed. */
  ghost predicate GoodPath(g: Graph, dist: map<string, nat>, q: seq<string>, acc: seq<string>, v: string)
    requires v in dist
  {
    && IsPath(g, q)
    && q[0] in dist && dist[q[0]] == 0
    && |q| == |acc| + 1 + dist[v]
    && q[dist[v]..] == Reverse(acc + [v])
  }

  lemma GoodPathUp(g: Graph, dist: map<string, nat>, q: seq<string>, acc: seq<string>, v: string, p: string)
    requires v in dist && p in dist && dist[p] + 1 == dist[v]
    requires GoodPath(g, dist, q, acc + [v], p)
    ensures GoodPath(g, dist, q, acc, v)
  {
    ReverseSnoc(acc + [v], p);
    assert q[dist[v]..] == q[dist[p]..][1..];
  }

  lemma PathCons(g: Graph, u: string, p: seq<string>)
    requires IsPath(g, p) && u in g.layer && (u, p[0]) in g.edges
    ensures IsPath(g, [u] + p)
  {
    var q := [u] + p;
    assert forall k :: 0 < k < |q| ==> q[k] == p[k - 1];
  }

  /** The node before `v` on a good path for `v` is one of `v`'s parents. */
  lemma GoodPathParent(g: Graph, dist: map<string, nat>, parents: map<string, set<string>>,
                       q: seq<string>, acc: seq<string>, v: string)
    requires IsLongestLabelling(g, dist, parents) && v in dist && dist[v] > 0
    requires GoodPath(g, dist, q, acc, v)
    ensures q[dist[v] - 1] in parents[v]
  {
    var n := dist[v];
    var x := q[n - 1];
    assert q[n] == q[n..][0] == v;
    assert (x, v) in g.edges;
    PathPrefix(g, q, n);
    PathBoundedByDist(g, dist, parents, q[..n]);
    assert dist[x] + 1 <= dist[v];
  }

  /** A good path for `v` through the parent `p` is a good path for `p`
      once `v` is walked. */
  lemma GoodPathDown(g: Graph, dist: map<string, nat>, q: seq<string>, acc: seq<string>, v: string, p: string)
    requires v in dist && p in dist && dist[p] + 1 == dist[v]
    requires GoodPath(g, dist, q, acc, v) && q[dist[p]] == p
    ensures GoodPath(g, dist, q, acc + [v], p)
  {
    ReverseSnoc(acc + [v], p);
    assert q[dist[p]..] == [q[dist[p]]] + q[dist[v]..];
  }

  /** Distinct lists whose members differ at position `k` join into a
      distinct list. */
  lemma JoinDistinct(s: seq<seq<string>>, t: seq<seq<string>>, k: nat, p: string)
    requires NoDuplicates(s) && NoDuplicates(t)
    requires forall j :: 0 <= j < |s| ==> |s[j]| > k && s[j][k] != p
    requires forall j :: 0 <= j < |t| ==> |t[j]| > k && t[j][k] == p
    ensures NoDuplicates(s + t)
  {
    var u := s + t;
    forall i, j | 0 <= i < j < |u| ensures u[i] != u[j] {
      if i < |s| && |s| <= j {
        assert u[i][k] != u[j][k];
      }
    }
  }

  /** The paths the call for the parent `p` appends are good for `v` and
      have `p` just before `v`. */
  lemma GoodPathsUp(g: Graph, dist: map<string, nat>, out: seq<seq<string>>, lo: nat,
                    acc: seq<string>, v: string, p: string)
    requires v in dist && p in dist && dist[p] + 1 == dist[v] && lo <= |out|
    requires forall j :: lo <= j < |out| ==> GoodPath(g, dist, out[j], acc + [v], p)
    ensures forall j :: lo <= j < |out| ==> GoodPath(g, dist, out[j], acc, v) && out[j][dist[p]] == p
  {
    forall j | lo <= j < |out| ensures GoodPath(g, dist, out[j], acc, v) && out[j][dist[p]] == p {
      GoodPathUp(g, dist, out[j], acc, v, p);
      assert out[j][dist[p]..][0] == p;
    }
  }

  /** One turn of backtrack's loop over the sorted parents `ps`: the call
      for the parent `ps[i]` appended to `out`, giving `out'`, paths that
      are good for `v` and pass through `ps[i]`, so the paths added so far
      stay good and distinct. */
  lemma BacktrackStepDistinct(g: Graph, dist: map<string, nat>, parents: map<string, set<string>>,
                              v: string, acc: seq<string>, from: nat, ps: seq<string>, i: nat,
                              out: seq<seq<string>>, out': seq<seq<string>>)
    requires IsLongestLabelling(g, dist, parents) && v in dist && dist[v] > 0
    requires NoDuplicates(ps) && i < |ps| && ps[i] in parents[v]
    requires from <= |out| <= |out'| && out'[..|out|] == out
    requires forall j :: from <= j < |out| ==> GoodPath(g, dist, out[j], acc, v) && out[j][dist[v] - 1] in ps[..i]
    requires NoDuplicates(out[from..])
    requires ps[i] in dist && forall j :: |out| <= j < |out'| ==> GoodPath(g, dist, out'[j], acc + [v], ps[i])
    requires NoDuplicates(out'[|out|..])
    ensures forall j :: from <= j < |out'| ==> GoodPath(g, dist, out'[j], acc, v) && out'[j][dist[v] - 1] in ps[..i + 1]
    ensures NoDuplicates(out'[from..])
  {
    var p := ps[i];
    assert ps[..i + 1] == ps[..i] + [p];
    assert p !in ps[..i];
    GoodPathsUp(g, dist, out', |out|, acc, v, p);
    assert forall j :: from <= j < |out| ==> out'[j] == out[j];
    assert out'[from..] == out[from..] + out'[|out|..];
    JoinDistinct(out[from..], out'[|out|..], dist[v] - 1, p);
  }

  /** The same turn, for completeness: while there is room, every good path
      for `v` through a parent handled so far is among the added paths. */
  lemma BacktrackStepComplete(g: Graph, dist: map<string, nat>, parents: map<string, set<string>>, maxPaths: nat,
                              v: string, acc: seq<string>, from: nat, ps: seq<string>, i: nat,
                              out: seq<seq<string>>, out': seq<seq<string>>)
    requires IsLongestLabelling(g, dist, parents) && v in dist && dist[v] > 0
    requires i < |ps| && ps[i] in parents[v]
    requires from <= |out| <= |out'| && out'[..|out|] == out
    requires |out| < maxPaths ==>
      forall q :: GoodPath(g, dist, q, acc, v) && q[dist[v] - 1] in ps[..i] ==> q in out[from..]
    requires ps[i] in dist
    requires |out'| < maxPaths ==> forall q :: GoodPath(g, dist, q, acc + [v], ps[i]) ==> q in out'[|out|..]
    ensures |out'| < maxPaths ==>
      forall q :: GoodPath(g, dist, q, acc, v) && q[dist[v] - 1] in ps[..i + 1] ==> q in out'[from..]
  {
    var p := ps[i];
    assert ps[..i + 1] == ps[..i] + [p];
    assert out'[from..] == out[from..] + out'[|out|..];
    if |out'| < maxPaths {
      forall q | GoodPath(g, dist, q, acc, v) && q[dist[v] - 1] in ps[..i + 1] ensures q in out'[from..] {
        if q[dist[v] - 1] == p {
          assert dist[p] + 1 == dist[v];
          GoodPathDown(g, dist, q, acc, v, p);
        }
      }
    }
  }

  /** backtrack: stop once `maxPaths` paths are known; at a node of `dist` 0
      record the walked path in forward order; otherwise continue from every
      parent in sorted order. Only appends to `paths`, never beyond
      `maxPaths`, always adds a path when there is room; the paths it adds
      are distinct good ones for `v` and `acc`, and while room is left they
      are all of them. */
  method Backtrack(g: Graph, dist: map<string, nat>, parents: map<string, set<string>>, maxPaths: nat,
                   v: string, acc: seq<string>, paths: seq<seq<string>>)
    returns (out: seq<seq<string>>)
    requires IsLongestLabelling(g, dist, parents) && v in dist
    requires IsPath(g, Reverse(acc + [v]))
    ensures |paths| <= |out| && out[..|paths|] == paths
    ensures |paths| >= maxPaths ==> out == paths
    ensures |paths| <= maxPaths ==> |out| <= maxPaths
    ensures |paths| < maxPaths ==> |out| > |paths|
    ensures forall j :: |paths| <= j < |out| ==> GoodPath(g, dist, out[j], acc, v)
    ensures NoDuplicates(out[|paths|..])
    ensures |out| < maxPaths ==> forall q :: GoodPath(g, dist, q, acc, v) ==> q in out[|paths|..]
    decreases dist[v]
  {
    if |paths| >= maxPaths {
      return paths;
    }
    if dist[v] == 0 {
      out := paths + [Reverse(acc + [v])];
      assert out[|paths|..] == [Reverse(acc + [v])];
      return;
    }
    var ps := SortedStrings(parents[v]);
    assert ps != [] by {
      var u :| u in parents[v];
      assert u in ps;
    }
    out := paths;
    var i := 0;
    while i < |ps|
      invariant 0 <= i <= |ps|
      invariant |paths| <= |out| <= maxPaths && out[..|paths|] == paths
      invariant i > 0 ==> |out| > |paths|
      invariant forall j :: |paths| <= j < |out| ==> GoodPath(g, dist, out[j], acc, v) && out[j][dist[v] - 1] in ps[..i]
      invariant NoDuplicates(out[|paths|..])
      invariant |out| < maxPaths ==>
        forall q :: GoodPath(g, dist, q, acc, v) && q[dist[v] - 1] in ps[..i] ==> q in out[|paths|..]
    {
      var p := ps[i];
      assert p in parents[v];
      ReverseSnoc(acc + [v], p);
      PathCons(g, p, Reverse(acc + [v]));
      var out' := Backtrack(g, dist, parents, maxPaths, p, acc + [v], out);
      BacktrackStepDistinct(g, dist, parents, v, acc, |paths|, ps, i, out, out');
      BacktrackStepComplete(g, dist, parents, maxPaths, v, acc, |paths|, ps, i, out, out');
      assert out'[..|paths|] == out'[..|out|][..|paths|];
      out := out';
      i := i + 1;
    }
    if |out| < maxPaths {
      forall q | GoodPath(g, dist, q, acc, v) ensures q in out[|paths|..] {
        GoodPathParent(g, dist, parents, q, acc, v);
        assert ps[..|ps|] == ps;
      }
    }
  }

  // ---------------------------------------------------------------------------
  // longest_paths_in_dag
  // ---------------------------------------------------------------------------

  /** The position in `order` of a largest `dist` value: `max(dist.values())`
      is `dist[order[MaxIndex(order, dist)]]`. */
  function MaxIndex(order: seq<string>, dist: map<string, nat>): (k: nat)
    requires |order| > 0 && forall v :: v in order ==> v in dist
    ensures k < |order|
    ensures forall i :: 0 <= i < |order| ==> dist[order[i]] <= dist[order[k]]
  {
    if |order| == 1 then 0
    else
      assert forall v :: v in order[1..] ==> v in order;
      var k := 1 + MaxIndex(order[1..], dist);
      assert forall i :: 1 <= i < |order| ==> order[i] == order[1..][i - 1];
      if dist[order[0]] >= dist[order[k]] then 0 else k
  }

  /** Every path in `paths` is a path of `length + 1` nodes whose first node
      has `dist` 0. */
  ghost predicate FoundPaths(g: Graph, dist: map<string, nat>, paths: seq<seq<string>>, length: nat) {
    forall j :: 0 <= j < |paths| ==>
      IsPath(g, paths[j]) && |paths[j]| == length + 1 && paths[j][0] in dist && dist[paths[j][0]] == 0
  }

  lemma BacktrackFound(g: Graph, dist: map<string, nat>, paths: seq<seq<string>>, paths': seq<seq<string>>,
                       e: string, length: nat)
    requires e in dist && dist[e] == length
    requires FoundPaths(g, dist, paths, length)
    requires |paths| <= |paths'| && paths'[..|paths|] == paths
    requires forall j :: |paths| <= j < |paths'| ==> GoodPath(g, dist, paths'[j], [], e)
    ensures FoundPaths(g, dist, paths', length)
  {
    forall j | 0 <= j < |paths'|
      ensures IsPath(g, paths'[j]) && |paths'[j]| == length + 1 && paths'[j][0] in dist && dist[paths'[j][0]] == 0
    {
      if j < |paths| {
        assert paths'[j] == paths[j];
      }
    }
  }

  /** A path of `length + 1` nodes ending at a node of `dist` `length` is a
      good path for that node. */
  lemma LongestPathIsGood(g: Graph, dist: map<string, nat>, parents: map<string, set<string>>,
                          p: seq<string>, length: nat)
    requires IsLongestLabelling(g, dist, parents) && IsPath(g, p) && |p| == length + 1
    requires p[length] in dist && dist[p[length]] == length
    ensures GoodPath(g, dist, p, [], p[length])
  {
    PathBoundedByDist(g, dist, parents, p);
    assert p[length..] == [p[length]] == Reverse([] + [p[length]]);
  }

  /** One turn of the loop over the ends: the paths backtracking from
      `ends[i]` appended end there, so the paths stay distinct, and while
      there is room every longest path ending at an end handled so far is
      listed. */
  lemma CollectStep(g: Graph, dist: map<string, nat>, parents: map<string, set<string>>, maxPaths: nat,
                    ends: seq<string>, length: nat, i: nat, paths: seq<seq<string>>, paths': seq<seq<string>>)
    requires IsLongestLabelling(g, dist, parents)
    requires NoDuplicates(ends) && i < |ends| && ends[i] in dist && dist[ends[i]] == length
    requires |paths| <= |paths'| && paths'[..|paths|] == paths
    requires forall j :: 0 <= j < |paths| ==> |paths[j]| == length + 1 && paths[j][length] in ends[..i]
    requires NoDuplicates(paths)
    requires |paths| < maxPaths ==>
      forall p :: IsPath(g, p) && |p| == length + 1 && p[length] in ends[..i] ==> p in paths
    requires forall j :: |paths| <= j < |paths'| ==> GoodPath(g, dist, paths'[j], [], ends[i])
    requires NoDuplicates(paths'[|paths|..])
    requires |paths'| < maxPaths ==> forall q :: GoodPath(g, dist, q, [], ends[i]) ==> q in paths'[|paths|..]
    ensures forall j :: 0 <= j < |paths'| ==> |paths'[j]| == length + 1 && paths'[j][length] in ends[..i + 1]
    ensures NoDuplicates(paths')
    ensures |paths'| < maxPaths ==>
      forall p :: IsPath(g, p) && |p| == length + 1 && p[length] in ends[..i + 1] ==> p in paths'
  {
    var e := ends[i];
    assert ends[..i + 1] == ends[..i] + [e];
    assert e !in ends[..i];
    assert paths' == paths + paths'[|paths|..];
    forall j | |paths| <= j < |paths'| ensures |paths'[j]| == length + 1 && paths'[j][length] == e {
      assert paths'[j][length..] == [e];
    }
    JoinDistinct(paths, paths'[|paths|..], length, e);
    if |paths'| < maxPaths {
      forall p | IsPath(g, p) && |p| == length + 1 && p[length] in ends[..i + 1] ensures p in paths' {
        if p[length] == e {
          LongestPathIsGood(g, dist, parents, p, length);
        }
      }
    }
  }

  /** Every path of `length + 1` nodes ends at one of the ends when `length`
      is the greatest `dist`. */
  lemma LongestPathsEndAtEnds(g: Graph, dist: map<string, nat>, parents: map<string, set<string>>,
                              ends: seq<string>, length: nat)
    requires IsLongestLabelling(g, dist, parents)
    requires forall v :: v in dist ==> dist[v] <= length
    requires forall v :: v in dist && dist[v] == length ==> v in ends
    ensures forall p :: IsPath(g, p) && |p| == length + 1 ==> p[length] in ends
  {
    forall p | IsPath(g, p) && |p| == length + 1 ensures p[length] in ends {
      PathBoundedByDist(g, dist, parents, p);
    }
  }

  /** The loop over the sorted ends: backtrack from each end in turn until
      `maxPaths` paths are known. The paths are distinct and, unless the
      bound was reached, they are every path of `length + 1` nodes. */
  method CollectPaths(g: Graph, dist: map<string, nat>, parents: map<string, set<string>>, maxPaths: nat,
                      ends: seq<string>, length: nat)
    returns (paths: seq<seq<string>>)
    requires IsLongestLabelling(g, dist, parents)
    requires NoDuplicates(ends)
    requires forall i :: 0 <= i < |ends| ==> ends[i] in dist && dist[ends[i]] == length
    requires forall v :: v in dist ==> dist[v] <= length
    requires forall v :: v in dist && dist[v] == length ==> v in ends
    ensures |paths| <= maxPaths
    ensures |ends| > 0 && maxPaths > 0 ==> |paths| > 0
    ensures forall q :: q in paths ==> IsPath(g, q) && |q| == length + 1 && NoIncoming(g, q[0])
    ensures NoDuplicates(paths)
    ensures |paths| < maxPaths ==> forall p :: IsPath(g, p) && |p| == length + 1 ==> p in paths
  {
    paths := [];
    var i := 0;
    while i < |ends|
      invariant 0 <= i <= |ends|
      invariant |paths| <= maxPaths
      invariant i > 0 && maxPaths > 0 ==> |paths| > 0
      invariant FoundPaths(g, dist, paths, length)
      invariant forall j :: 0 <= j < |paths| ==> |paths[j]| == length + 1 && paths[j][length] in ends[..i]
      invariant NoDuplicates(paths)
      invariant |paths| < maxPaths ==>
        forall p :: IsPath(g, p) && |p| == length + 1 && p[length] in ends[..i] ==> p in paths
    {
      var e := ends[i];
      assert Reverse([] + [e]) == [e];
      var paths' := Backtrack(g, dist, parents, maxPaths, e, [], paths);
      BacktrackFound(g, dist, paths, paths', e, length);
      CollectStep(g, dist, parents, maxPaths, ends, length, i, paths, paths');
      paths := paths';
      if |paths| >= maxPaths {
        break;
      }
      i := i + 1;
    }
    StartsHaveNoIncoming(g, dist, parents, paths, length);
    if |paths| < maxPaths {
      LongestPathsEndAtEnds(g, dist, parents, ends, length);
      assert ends[..|ends|] == ends;
    }
  }

  lemma StartsHaveNoIncoming(g: Graph, dist: map<string, nat>, parents: map<string, set<string>>,
                             paths: seq<seq<string>>, length: nat)
    requires IsLongestLabelling(g, dist, parents) && FoundPaths(g, dist, paths, length)
    ensures forall q :: q in paths ==> IsPath(g, q) && |q| == length + 1 && NoIncoming(g, q[0])
  {
    forall q | q in paths ensures IsPath(g, q) && |q| == length + 1 && NoIncoming(g, q[0]) {
      var j :| 0 <= j < |paths| && paths[j] == q;
      ZeroIffNoIncoming(g, dist, parents, q[0]);
    }
  }

  /** The greatest `dist` value of a longest-path labelling is the length of
      the longest path of the graph. */
  lemma GreatestDistIsLongest(g: Graph, dist: map<string, nat>, parents: map<string, set<string>>, top: string)
    requires IsLongestLabelling(g, dist, parents) && top in dist
    requires forall v :: v in dist ==> dist[v] <= dist[top]
    ensures forall p :: IsPath(g, p) ==> |p| - 1 <= dist[top]
    ensures exists p :: IsPath(g, p) && |p| - 1 == dist[top]
  {
    forall p | IsPath(g, p) ensures |p| - 1 <= dist[top] {
      PathBoundedByDist(g, dist, parents, p);
    }
    var longest := DistAttained(g, dist, parents, top);
  }

  lemma EmptyOrder(g: Graph, order: seq<string>)
    requires IsTopologicalOrder(g, order) && |order| == 0
    ensures g.layer.Keys == {}
  {
    assert forall v :: v in g.layer ==> v in order;
  }

  /** With a topological order covering the nodes, `MaxIndex` finds the
      greatest `dist` value of the whole labelling. */
  lemma MaxIsGreatest(g: Graph, order: seq<string>, dist: map<string, nat>, parents: map<string, set<string>>)
    requires IsTopologicalOrder(g, order) && IsLongestLabelling(g, dist, parents) && |order| > 0
    ensures forall v :: v in order ==> v in dist
    ensures forall v :: v in dist ==> dist[v] <= dist[order[MaxIndex(order, dist)]]
  {
    forall v | v in dist ensures dist[v] <= dist[order[MaxIndex(order, dist)]] {
      var i := IndexOf(order, v);
    }
  }

  /** `[v for v in topo if dist[v] == L]` as a set. */
  function EndsOf(order: seq<string>, dist: map<string, nat>, length: nat): set<string>
    requires forall v :: v in order ==> v in dist
  {
    set v | v in order && dist[v] == length
  }

  lemma EndsAtLength(order: seq<string>, dist: map<string, nat>, length: nat, ends: seq<string>)
    requires forall v :: v in order ==> v in dist
    requires forall y :: y in ends <==> y in EndsOf(order, dist, length)
    ensures forall i :: 0 <= i < |ends| ==> ends[i] in dist && dist[ends[i]] == length
  {
    forall i | 0 <= i < |ends| ensures ends[i] in dist && dist[ends[i]] == length {
      assert ends[i] in EndsOf(order, dist, length);
    }
  }

  /** longest_paths_in_dag: `NotAcyclic` exactly for a cyclic graph and
      `EmptyMax` exactly for a graph without nodes; otherwise `length` is the
      length of the longest path of the graph and every one of the at most
      `maxPaths` paths found (at least one when `maxPaths` is positive) is a
      path of that length starting at a node no edge enters. The paths are
      distinct, and when fewer than `maxPaths` are found they are all the
      longest paths of the graph. */
  method LongestPathsInDag(g: Graph, maxPaths: nat) returns (r: Outcome)
    requires g.Closed()
    ensures r.NotAcyclic? <==> !Acyclic(g)
    ensures r.EmptyMax? <==> Acyclic(g) && g.layer.Keys == {}
    ensures r.Found? ==> forall p :: IsPath(g, p) ==> |p| - 1 <= r.length
    ensures r.Found? ==> exists p :: IsPath(g, p) && |p| - 1 == r.length
    ensures r.Found? ==> |r.paths| <= maxPaths && (maxPaths > 0 ==> |r.paths| > 0)
    ensures r.Found? ==> forall q :: q in r.paths ==> IsPath(g, q) && |q| == r.length + 1 && NoIncoming(g, q[0])
    ensures r.Found? ==> NoDuplicates(r.paths)
    ensures r.Found? && |r.paths| < maxPaths ==> forall p :: IsPath(g, p) && |p| == r.length + 1 ==> p in r.paths
  {
    var topo := TopologicalSort(g);
    if topo.None? {
      return NotAcyclic;
    }
    var order := topo.value;
    var dist, parents := LongestDistances(g, order);
    if |order| == 0 {
      EmptyOrder(g, order);
      return EmptyMax;
    }
    assert order[0] in g.layer;
    MaxIsGreatest(g, order, dist, parents);
    var top := order[MaxIndex(order, dist)];
    var L := dist[top];
    GreatestDistIsLongest(g, dist, parents, top);
    var ends := SortedStrings(EndsOf(order, dist, L));
    EndsAtLength(order, dist, L, ends);
    assert top in ends;
    forall v | v in dist && dist[v] == L ensures v in ends {
      assert v in order;
    }
    var paths := CollectPaths(g, dist, parents, maxPaths, ends, L);
    return Found(L, paths);
  }
}
