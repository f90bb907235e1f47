/** Directed weighted graphs as a finite adjacency map, walks through them
    and their weights: what `ToposortDAGSolver` computes over. */
module Graphs {

  /** `Edge<V>`: a directed edge with a weight. */
  datatype Edge<V> = Edge(from: V, to: V, weight: real)

  /** Each vertex's outgoing edges, in `neighbors` order. */
  type Graph<V(==,!new)> = map<V, seq<Edge<V>>>

  /** `graph.neighbors(v)`: a vertex with no entry has no outgoing edges. */
  function Neighbors<V(==,!new)>(g: Graph<V>, v: V): seq<Edge<V>>
  {
    if v in g then g[v] else []
  }

  /** Every edge listed under a vertex leaves that vertex. */
  ghost predicate WellFormed<V(!new)>(g: Graph<V>)
  {
    forall v, k :: v in g && 0 <= k < |g[v]| ==> g[v][k].from == v
  }

  /** Every vertex some edge leads to. */
  function Targets<V(==,!new)>(g: Graph<V>): set<V>
  {
    set v, k | v in g && 0 <= k < |g[v]| :: g[v][k].to
  }

  /** Every vertex a search from `root` can meet. */
  function Universe<V(==,!new)>(g: Graph<V>, root: V): set<V>
  {
    {root} + Targets(g)
  }

  lemma TargetIn<V(!new)>(g: Graph<V>, x: V, k: nat)
    requires k < |Neighbors(g, x)|
    ensures Neighbors(g, x)[k].to in Targets(g)
  {
    assert x in g;
  }

  /** The vertices the edges of `es` lead to, in order. */
  function Ends<V>(es: seq<Edge<V>>): (r: seq<V>)
    ensures |r| == |es| && forall j :: 0 <= j < |es| ==> r[j] == es[j].to
  {
    if es == [] then [] else [es[0].to] + Ends(es[1..])
  }

  lemma EndsSnoc<V>(q: seq<V>, es: seq<Edge<V>>, i: nat)
    requires i < |es|
    ensures q + Ends(es[..i + 1]) == q + Ends(es[..i]) + [es[i].to]
  {
    assert Ends(es[..i + 1]) == Ends(es[..i]) + [es[i].to];
  }

  /** Every edge of `p` is listed under the vertex it leaves, and consecutive
      edges meet: `p` leads from `s` to `v`. */
  ghost predicate IsPath<V(!new)>(g: Graph<V>, s: V, v: V, p: seq<Edge<V>>)
    decreases |p|
  {
    if p == [] then s == v
    else
      var e := p[|p| - 1];
      e.to == v && e in Neighbors(g, e.from) && IsPath(g, s, e.from, p[..|p| - 1])
  }

  /** A path from `s` to `v` that leaves only vertices of `S`. */
  ghost predicate WalkIn<V(!new)>(g: Graph<V>, s: V, v: V, p: seq<Edge<V>>, S: set<V>)
    decreases |p|
  {
    if p == [] then s == v
    else
      var e := p[|p| - 1];
      e.to == v && e.from in S && e in Neighbors(g, e.from) && WalkIn(g, s, e.from, p[..|p| - 1], S)
  }

  /** The sum of the edge weights. */
  function Weight<V(!new)>(p: seq<Edge<V>>): real
  {
    if p == [] then 0.0 else Weight(p[..|p| - 1]) + p[|p| - 1].weight
  }

  ghost predicate Reaches<V(!new)>(g: Graph<V>, s: V, v: V)
  {
    exists p :: IsPath(g, s, v, p)
  }

  /** A path with at least one edge. */
  ghost predicate ReachesAfterStep<V(!new)>(g: Graph<V>, s: V, v: V)
  {
    exists p :: p != [] && IsPath(g, s, v, p)
  }

  /** No path with an edge leads from a vertex back to it. */
  ghost predicate Acyclic<V(!new)>(g: Graph<V>)
  {
    forall v, p :: IsPath(g, v, v, p) ==> p == []
  }

  /** An edge out of a path's end extends the path. */
  lemma PathSnoc<V(!new)>(g: Graph<V>, s: V, u: V, p: seq<Edge<V>>, e: Edge<V>)
    requires IsPath(g, s, u, p) && e.from == u && e in Neighbors(g, u)
    ensures IsPath(g, s, e.to, p + [e])
  {
    assert (p + [e])[..|p|] == p;
  }

  lemma WeightSnoc<V(!new)>(p: seq<Edge<V>>, e: Edge<V>)
    ensures Weight(p + [e]) == Weight(p) + e.weight
  {
    assert (p + [e])[..|p|] == p;
  }

  /** An edge into a path's start extends the path at the front. */
  lemma {:induction false} PathCons<V(!new)>(g: Graph<V>, e: Edge<V>, v: V, p: seq<Edge<V>>)
    requires e in Neighbors(g, e.from) && IsPath(g, e.to, v, p)
    ensures IsPath(g, e.from, v, [e] + p)
    decreases |p|
  {
    if p != [] {
      var q := p[..|p| - 1];
      PathCons(g, e, p[|p| - 1].from, q);
      assert ([e] + p)[..|p|] == [e] + q;
    }
  }

  lemma {:induction false} WeightCons<V(!new)>(e: Edge<V>, p: seq<Edge<V>>)
    ensures Weight([e] + p) == e.weight + Weight(p)
    decreases |p|
  {
    if p != [] {
      var q := p[..|p| - 1];
      WeightCons(e, q);
      assert ([e] + p)[..|p|] == [e] + q;
    }
  }

  /** A path that leaves only vertices of `S` is a path. */
  lemma {:induction false} WalkIsPath<V(!new)>(g: Graph<V>, s: V, v: V, p: seq<Edge<V>>, S: set<V>)
    requires WalkIn(g, s, v, p, S)
    ensures IsPath(g, s, v, p)
    decreases |p|
  {
    if p != [] {
      WalkIsPath(g, s, p[|p| - 1].from, p[..|p| - 1], S);
    }
  }

  /** Allowing more vertices keeps a walk a walk. */
  lemma {:induction false} WalkGrow<V(!new)>(g: Graph<V>, s: V, v: V, p: seq<Edge<V>>, S: set<V>, T: set<V>)
    requires WalkIn(g, s, v, p, S) && S <= T
    ensures WalkIn(g, s, v, p, T)
    decreases |p|
  {
    if p != [] {
      WalkGrow(g, s, p[|p| - 1].from, p[..|p| - 1], S, T);
    }
  }

  /** Every edge out of `S` stays in `S`. */
  ghost predicate Closed<V(!new)>(g: Graph<V>, S: set<V>)
  {
    forall x, k :: x in S && 0 <= k < |Neighbors(g, x)| ==> Neighbors(g, x)[k].to in S
  }

  /** A path from a vertex of a closed set stays in the set. */
  lemma {:induction false} ClosedHoldsPaths<V(!new)>(g: Graph<V>, S: set<V>, s: V, v: V, p: seq<Edge<V>>)
    requires Closed(g, S) && s in S && IsPath(g, s, v, p)
    ensures v in S && WalkIn(g, s, v, p, S)
    decreases |p|
  {
    if p != [] {
      var e := p[|p| - 1];
      ClosedHoldsPaths(g, S, s, e.from, p[..|p| - 1]);
      var k :| 0 <= k < |Neighbors(g, e.from)| && Neighbors(g, e.from)[k] == e;
    }
  }
}
