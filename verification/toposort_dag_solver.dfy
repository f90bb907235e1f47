/** `ToposortDAGSolver`: single-source shortest paths in a directed acyclic
    graph by relaxing every vertex's outgoing edges in topological order. */
module ShortestPaths {
  import opened Graphs
  import opened Lists

  /** A `distTo` value: a finite distance or `Double.POSITIVE_INFINITY`. */
  datatype Dist = Fin(value: real) | Inf

  /** `distTo.get(from) + edge.weight`: infinity absorbs any weight. */
  function Add(d: Dist, w: real): Dist
  {
    match d
    case Inf => Inf
    case Fin(x) => Fin(x + w)
  }

  /** `a < b` on doubles: nothing is below infinity and infinity is below nothing. */
  predicate Less(a: Dist, b: Dist)
  {
    a.Fin? && (b.Inf? || a.value < b.value)
  }

  /** `a` is not above `b`. */
  predicate Le(a: Dist, b: Dist)
  {
    !Less(b, a)
  }

  ghost predicate Distinct<V(!new)>(s: seq<V>)
  {
    forall i, j :: 0 <= i < j < |s| ==> s[i] != s[j]
  }

  /** Depth-first post-order: every edge out of a listed vertex ends at a vertex
      listed before it. */
  ghost predicate PostOrdered<V(!new)>(g: Graph<V>, s: seq<V>)
  {
    forall i, k :: 0 <= i < |s| && 0 <= k < |Neighbors(g, s[i])| ==> Neighbors(g, s[i])[k].to in s[..i]
  }

  /** Topological order: every edge out of a listed vertex ends at a vertex
      listed after it. */
  ghost predicate TopoOrdered<V(!new)>(g: Graph<V>, s: seq<V>)
  {
    forall i, k :: 0 <= i < |s| && 0 <= k < |Neighbors(g, s[i])| ==> Neighbors(g, s[i])[k].to in s[i + 1..]
  }

  /** `rank` maps each vertex of `order` to its position. */
  ghost predicate Indexes<V(!new)>(order: seq<V>, rank: map<V, nat>)
  {
    (forall j :: 0 <= j < |order| ==> order[j] in rank && rank[order[j]] == j) &&
    (forall v :: v in rank ==> rank[v] < |order| && order[rank[v]] == v)
  }

  /** Every edge out of a ranked vertex ends at a vertex of higher rank. */
  ghost predicate Ranked<V(!new)>(g: Graph<V>, rank: map<V, nat>)
  {
    forall v, k :: v in rank && 0 <= k < |Neighbors(g, v)| ==>
      Neighbors(g, v)[k].to in rank && rank[v] < rank[Neighbors(g, v)[k].to]
  }

  /** The vertices ranked below `i`: those the relaxation loop has finished. */
  ghost function Below<V(!new)>(rank: map<V, nat>, i: int): set<V>
  {
    set v | v in rank && rank[v] < i
  }

  /** Every finite distance is the weight of a path from `s`. */
  ghost predicate Sound<V(!new)>(g: Graph<V>, s: V, distTo: map<V, Dist>)
  {
    forall v :: v in distTo && distTo[v].Fin? ==> exists p :: IsPath(g, s, v, p) && Weight(p) == distTo[v].value
  }

  /** No path from `s` that leaves only vertices of `S` is lighter than the
      distance recorded for its end. */
  ghost predicate Bounded<V(!new)>(g: Graph<V>, s: V, distTo: map<V, Dist>, S: set<V>)
  {
    forall v, p :: WalkIn(g, s, v, p, S) ==> v in distTo && distTo[v].Fin? && distTo[v].value <= Weight(p)
  }

  /** `e` is the last edge of a recorded shortest path to `v`: it leaves a vertex
      ranked below `i` and `v`, and `v`'s distance is that vertex's plus its weight. */
  ghost predicate TreeEdge<V(!new)>(g: Graph<V>, rank: map<V, nat>, distTo: map<V, Dist>, v: V, e: Edge<V>, i: int)
  {
    e.to == v && e in Neighbors(g, e.from) &&
    e.from in rank && v in rank && rank[e.from] < rank[v] && rank[e.from] < i &&
    e.from in distTo && v in distTo && distTo[e.from].Fin? &&
    distTo[v] == Fin(distTo[e.from].value + e.weight)
  }

  ghost predicate Tree<V(!new)>(g: Graph<V>, rank: map<V, nat>, distTo: map<V, Dist>, edgeTo: map<V, Edge<V>>, i: int)
  {
    forall v :: v in edgeTo ==> TreeEdge(g, rank, distTo, v, edgeTo[v], i)
  }

  /** The start has no `edgeTo` entry and every other vertex at a finite
      distance has one. */
  ghost predicate Covered<V(!new)>(s: V, distTo: map<V, Dist>, edgeTo: map<V, Edge<V>>)
  {
    s !in edgeTo && forall v :: v in distTo && v != s && distTo[v].Fin? ==> v in edgeTo
  }

  /** `distTo'` has the keys of `distTo` and no larger values. */
  ghost predicate NoLarger<V(!new)>(distTo': map<V, Dist>, distTo: map<V, Dist>)
  {
    distTo'.Keys == distTo.Keys && forall v :: v in distTo' ==> Le(distTo'[v], distTo[v])
  }

  /** `relax(edge)`: the new distance through `e` replaces the old one and `e`
      becomes its `edgeTo` entry exactly when it is strictly smaller. */
  ghost predicate Relaxed<V(!new)>(distTo: map<V, Dist>, edgeTo: map<V, Edge<V>>, e: Edge<V>,
                                  distTo': map<V, Dist>, edgeTo': map<V, Edge<V>>)
    requires e.from in distTo && e.to in distTo
  {
    var d := Add(distTo[e.from], e.weight);
    if Less(d, distTo[e.to]) then distTo' == distTo[e.to := d] && edgeTo' == edgeTo[e.to := e]
    else distTo' == distTo && edgeTo' == edgeTo
  }

  /** Reaching `u` and then following an edge out of it reaches the edge's end. */
  lemma ReachOn<V(!new)>(g: Graph<V>, s: V, u: V, e: Edge<V>, v: V)
    requires WellFormed(g) && e in Neighbors(g, s) && e.to == u && Reaches(g, u, v)
    ensures Reaches(g, s, v)
  {
    var p :| IsPath(g, u, v, p);
    var k :| 0 <= k < |Neighbors(g, s)| && Neighbors(g, s)[k] == e;
    PathCons(g, e, v, p);
  }

  /** The breadth-first search's invariant: everything visited or queued is
      reachable from `start`, `start` is one of them, and every edge out of a
      visited vertex ends at a visited or a queued vertex. */
  ghost predicate Frontier<V(!new)>(g: Graph<V>, start: V, universe: set<V>, visited: set<V>, queue: seq<V>)
  {
    visited <= universe && (forall j :: 0 <= j < |queue| ==> queue[j] in universe) &&
    (start in visited || start in queue) &&
    (forall v :: v in visited ==> Reaches(g, start, v)) &&
    (forall j :: 0 <= j < |queue| ==> Reaches(g, start, queue[j])) &&
    (forall v, k :: v in visited && 0 <= k < |Neighbors(g, v)| ==>
      Neighbors(g, v)[k].to in visited || Neighbors(g, v)[k].to in queue)
  }

  /** Polling a vertex already visited keeps the invariant. */
  lemma SkipVisited<V(!new)>(g: Graph<V>, start: V, universe: set<V>, visited: set<V>, queue: seq<V>)
    requires Frontier(g, start, universe, visited, queue) && queue != [] && queue[0] in visited
    ensures Frontier(g, start, universe, visited, queue[1..])
  {
    assert queue == [queue[0]] + queue[1..];
  }

  /** The queue after polling `queue[0]` and queueing the ends of its edges:
      still reachable, and it holds the rest of the old queue and those ends. */
  lemma ExpandQueue<V(!new)>(g: Graph<V>, start: V, queue: seq<V>, queue': seq<V>)
    requires WellFormed(g) && queue != []
    requires forall j :: 0 <= j < |queue| ==> queue[j] in Universe(g, start) && Reaches(g, start, queue[j])
    requires queue' == queue[1..] + Ends(Neighbors(g, queue[0]))
    ensures forall j :: 0 <= j < |queue'| ==> queue'[j] in Universe(g, start) && Reaches(g, start, queue'[j])
    ensures forall x :: x in queue[1..] ==> x in queue'
    ensures forall k :: 0 <= k < |Neighbors(g, queue[0])| ==> Neighbors(g, queue[0])[k].to in queue'
  {
    var u := queue[0];
    var edges := Neighbors(g, u);
    var n := |queue| - 1;
    var p :| IsPath(g, start, u, p);
    forall j | 0 <= j < |queue'|
      ensures queue'[j] in Universe(g, start) && Reaches(g, start, queue'[j])
    {
      if j < n {
        assert queue'[j] == queue[j + 1];
      } else {
        TargetIn(g, u, j - n);
        PathSnoc(g, start, u, p, edges[j - n]);
      }
    }
    forall x | x in queue[1..]
      ensures x in queue'
    {
      var j :| 0 <= j < n && queue[1..][j] == x;
      assert queue'[j] == x;
    }
    forall k | 0 <= k < |edges|
      ensures edges[k].to in queue'
    {
      assert queue'[n + k] == edges[k].to;
    }
  }

  /** Polling a new vertex, marking it visited and queueing the ends of its
      edges keeps the invariant and leaves fewer vertices to visit. */
  lemma Expand<V(!new)>(g: Graph<V>, start: V, visited: set<V>, queue: seq<V>, queue': seq<V>)
    requires WellFormed(g) && Frontier(g, start, Universe(g, start), visited, queue)
    requires queue != [] && queue[0] !in visited
    requires queue' == queue[1..] + Ends(Neighbors(g, queue[0]))
    ensures Frontier(g, start, Universe(g, start), visited + {queue[0]}, queue')
    ensures |Universe(g, start) - (visited + {queue[0]})| < |Universe(g, start) - visited|
  {
    var u := queue[0];
    assert queue == [u] + queue[1..];
    assert Universe(g, start) - (visited + {u}) < Universe(g, start) - visited;
    ExpandQueue(g, start, queue, queue');
  }

  /** `getAllVertices`: breadth-first search from `start`; the result is
      exactly the set of vertices a path from `start` reaches. */
  method GetAllVertices<V(==,!new)>(g: Graph<V>, start: V) returns (visited: set<V>)
    requires WellFormed(g)
    ensures forall v :: v in visited <==> Reaches(g, start, v)
  {
    visited := {};
    var queue := [start];
    ghost var universe := Universe(g, start);
    assert IsPath(g, start, start, []);
    while queue != []
      invariant Frontier(g, start, universe, visited, queue)
      decreases |universe - visited|, |queue|
    {
      var vertex := queue[0];
      ghost var polled := queue;
      queue := queue[1..];
      if vertex !in visited {
        ghost var before, queued := visited, queue;
        visited := visited + {vertex};
        var edges := Neighbors(g, vertex);
        for i := 0 to |edges|
          invariant queue == queued + Ends(edges[..i])
        {
          EndsSnoc(queued, edges, i);
          queue := queue + [edges[i].to];
        }
        assert edges[..|edges|] == edges;
        Expand(g, start, before, polled, queue);
      } else {
        SkipVisited(g, start, universe, visited, polled);
      }
    }
    assert Closed(g, visited);
    forall v | Reaches(g, start, v)
      ensures v in visited
    {
      var p :| IsPath(g, start, v, p);
      ClosedHoldsPaths(g, visited, start, v, p);
    }
  }

  /** What a search from `start` has added so far: `result'` extends
      `result` by vertices reachable from `start`, and `visited'` is what
      was visited before, `start`, and those vertices. */
  ghost predicate Extends<V(!new)>(g: Graph<V>, start: V, visited: set<V>, result: seq<V>, visited': set<V>, result': seq<V>)
  {
    visited <= visited' && start in visited' &&
    |result| <= |result'| && result'[..|result|] == result &&
    (forall v :: v in visited' <==> v in visited || v == start || v in result'[|result|..]) &&
    (forall j :: |result| <= j < |result'| ==>
      result'[j] !in visited && result'[j] != start && Reaches(g, start, result'[j]))
  }

  /** The first `k` edges lead to vertices of `r`. */
  ghost predicate Explored<V(!new)>(edges: seq<Edge<V>>, k: int, r: seq<V>)
  {
    forall j :: 0 <= j < k && j < |edges| ==> edges[j].to in r
  }

  lemma ExploredStep<V(!new)>(edges: seq<Edge<V>>, k: nat, r1: seq<V>, r2: seq<V>)
    requires k < |edges| && Explored(edges, k, r1) && edges[k].to in r2
    requires forall x :: x in r1 ==> x in r2
    ensures Explored(edges, k + 1, r2)
  {
    forall j | 0 <= j < k + 1
      ensures edges[j].to in r2
    {
      if j < k {
        assert edges[j].to in r1;
      }
    }
  }

  /** `dfsPostOrder`: a depth-first search from `start` that skips visited
      vertices and appends each vertex after all vertices its edges lead to.
      `visited` and `result` go in and come out; the vertices on the current
      search path (visited, not yet appended) all lead to `start`. */
  method DfsPostOrder<V(==,!new)>(g: Graph<V>, start: V, visited: set<V>, result: seq<V>, ghost root: V)
    returns (visited': set<V>, result': seq<V>)
    requires WellFormed(g) && Acyclic(g)
    requires start in Universe(g, root) && visited <= Universe(g, root)
    requires forall v :: v in result ==> v in visited
    requires Distinct(result) && PostOrdered(g, result)
    requires forall w :: w in visited && w !in result ==> ReachesAfterStep(g, w, start)
    ensures visited' <= Universe(g, root)
    ensures |result| <= |result'| && result'[..|result|] == result
    ensures forall v :: v in visited' <==> v in visited || v in result'[|result|..]
    ensures forall j :: |result| <= j < |result'| ==> result'[j] !in visited && Reaches(g, start, result'[j])
    ensures Distinct(result') && PostOrdered(g, result')
    ensures start in result'
    ensures start !in visited ==> result'[|result'| - 1] == start
    decreases |Universe(g, root) - visited|
  {
    if start in visited {
      if start !in result {
        assert false;
      }
      assert result[|result|..] == [];
      return visited, result;
    }
    visited' := visited + {start};
    result' := result;
    var edges := Neighbors(g, start);
    for k := 0 to |edges|
      invariant visited' <= Universe(g, root)
      invariant Extends(g, start, visited, result, visited', result')
      invariant forall v :: v in result' ==> v in visited'
      invariant Distinct(result') && PostOrdered(g, result')
      invariant Explored(edges, k, result')
    {
      TargetIn(g, start, k);
      SearchPathExtends(g, start, edges[k], visited, result, visited', result');
      SmallerSet(Universe(g, root) - visited', Universe(g, root) - visited);
      ghost var visitedBefore, resultBefore := visited', result';
      visited', result' := DfsPostOrder(g, edges[k].to, visited', result', root);
      CallKeeps(g, start, edges[k], visited, result, visitedBefore, resultBefore, visited', result');
      ExploredStep(edges, k, resultBefore, result');
    }
    Finish(g, start, visited, result, visited', result');
    result' := result' + [start];
  }

  lemma SmallerSet<T>(a: set<T>, b: set<T>)
    requires a < b
    ensures |a| < |b|
  {
    assert b == a + (b - a) && a * (b - a) == {};
  }

  /** The search path of the recursive call: the caller's, then `start`. */
  lemma SearchPathExtends<V(!new)>(g: Graph<V>, start: V, e: Edge<V>, visited: set<V>, result: seq<V>,
                                   visited': set<V>, result': seq<V>)
    requires WellFormed(g) && e in Neighbors(g, start)
    requires forall w :: w in visited && w !in result ==> ReachesAfterStep(g, w, start)
    requires Extends(g, start, visited, result, visited', result')
    ensures forall w :: w in visited' && w !in result' ==> ReachesAfterStep(g, w, e.to)
  {
    forall w | w in visited' && w !in result'
      ensures ReachesAfterStep(g, w, e.to)
    {
      assert w in visited || w == start;
      if w == start {
        PathSnoc(g, start, start, [], e);
        assert [] + [e] == [e];
      } else {
        assert w !in result;
        var p :| p != [] && IsPath(g, w, start, p);
        PathSnoc(g, w, start, p, e);
      }
    }
  }

  /** What a recursive call of `DfsPostOrder` gives back keeps the loop's invariant. */
  lemma CallKeeps<V(!new)>(g: Graph<V>, start: V, e: Edge<V>, visited: set<V>, result: seq<V>,
                           visited1: set<V>, result1: seq<V>, visited2: set<V>, result2: seq<V>)
    requires WellFormed(g) && e in Neighbors(g, start)
    requires Extends(g, start, visited, result, visited1, result1)
    requires |result1| <= |result2| && result2[..|result1|] == result1
    requires forall v :: v in visited2 <==> v in visited1 || v in result2[|result1|..]
    requires forall j :: |result1| <= j < |result2| ==> result2[j] !in visited1 && Reaches(g, e.to, result2[j])
    ensures Extends(g, start, visited, result, visited2, result2)
    ensures forall x :: x in result1 ==> x in result2
  {
    assert result2[..|result|] == result1[..|result|];
    forall x | x in result1
      ensures x in result2
    {
      var j :| 0 <= j < |result1| && result1[j] == x;
      assert result2[j] == x;
    }
    forall j | |result1| <= j < |result2|
      ensures Reaches(g, start, result2[j])
    {
      ReachOn(g, start, e.to, e, result2[j]);
    }
    forall v
      ensures v in visited2 <==> v in visited || v == start || v in result2[|result|..]
    {
      SliceSplit(result, result1, result2, v);
    }
  }

  /** The entries after `r` in `r2` are those after `r` in `r1` and those after `r1` in `r2`. */
  lemma SliceSplit<T>(r: seq<T>, r1: seq<T>, r2: seq<T>, v: T)
    requires |r| <= |r1| <= |r2| && r2[..|r1|] == r1
    ensures v in r2[|r|..] <==> v in r1[|r|..] || v in r2[|r1|..]
  {
    if v in r1[|r|..] {
      var j :| |r| <= j < |r1| && r1[j] == v;
      assert r2[|r|..][j - |r|] == v;
    }
    if v in r2[|r1|..] {
      var j :| |r1| <= j < |r2| && r2[j] == v;
      assert r2[|r|..][j - |r|] == v;
    }
    if v in r2[|r|..] {
      var j :| |r| <= j < |r2| && r2[j] == v;
      if j < |r1| {
        assert r1[|r|..][j - |r|] == v;
      } else {
        assert r2[|r1|..][j - |r1|] == v;
      }
    }
  }

  /** Appending `start` after its descendants completes the post-order. */
  lemma Finish<V(!new)>(g: Graph<V>, start: V, visited: set<V>, result: seq<V>, visited': set<V>, result': seq<V>)
    requires start !in visited && forall v :: v in result ==> v in visited
    requires Extends(g, start, visited, result, visited', result')
    requires Distinct(result') && PostOrdered(g, result')
    requires Explored(Neighbors(g, start), |Neighbors(g, start)|, result')
    ensures var r := result' + [start];
      (forall v :: v in visited' <==> v in visited || v in r[|result|..]) &&
      (forall j :: |result| <= j < |r| ==> r[j] !in visited && Reaches(g, start, r[j])) &&
      Distinct(r) && PostOrdered(g, r) && r[..|result|] == result
  {
    var r := result' + [start];
    assert IsPath(g, start, start, []);
    assert r[|result|..] == result'[|result|..] + [start];
    assert r[..|result'|] == result';
    NotListed(g, start, visited, result, visited', result');
    forall j | |result| <= j < |r|
      ensures r[j] !in visited && Reaches(g, start, r[j])
    {
      if j < |result'| {
        assert r[j] == result'[j];
      } else {
        assert r[j] == start;
      }
    }
    AppendLast(g, start, result');
  }

  /** A search from an unvisited `start` has not listed `start` yet. */
  lemma NotListed<V(!new)>(g: Graph<V>, start: V, visited: set<V>, result: seq<V>, visited': set<V>, result': seq<V>)
    requires start !in visited && forall v :: v in result ==> v in visited
    requires Extends(g, start, visited, result, visited', result')
    ensures start !in result'
  {
    forall j | 0 <= j < |result'|
      ensures result'[j] != start
    {
      if j < |result| {
        assert result'[j] == result[j];
      }
    }
  }

  /** A vertex not yet listed, whose edges all lead into the list, can follow it. */
  lemma AppendLast<V(!new)>(g: Graph<V>, start: V, s: seq<V>)
    requires Distinct(s) && PostOrdered(g, s) && start !in s
    requires Explored(Neighbors(g, start), |Neighbors(g, start)|, s)
    ensures Distinct(s + [start]) && PostOrdered(g, s + [start])
  {
    assert (s + [start])[..|s|] == s;
  }

  /** Reversing a depth-first post-order gives a topological order. */
  lemma ReversedPostOrderIsTopological<V(!new)>(g: Graph<V>, r: seq<V>)
    requires Distinct(r) && PostOrdered(g, r)
    ensures Distinct(Reverse(r)) && TopoOrdered(g, Reverse(r))
  {
    ReverseDistinct(r);
    var o := Reverse(r);
    var n := |r|;
    forall i, k | 0 <= i < n && 0 <= k < |Neighbors(g, o[i])|
      ensures Neighbors(g, o[i])[k].to in o[i + 1..]
    {
      assert o[i] == r[n - 1 - i];
      ReverseEarlier(r, i, Neighbors(g, o[i])[k].to);
    }
  }

  lemma ReverseDistinct<V(!new)>(r: seq<V>)
    requires Distinct(r)
    ensures Distinct(Reverse(r))
  {
    var o := Reverse(r);
    forall i, j | 0 <= i < j < |o|
      ensures o[i] != o[j]
    {
      assert o[i] == r[|r| - 1 - i] && o[j] == r[|r| - 1 - j];
    }
  }


  /** `dfsPostOrder` from `s`, reversed: every vertex reachable from `s`,
      once each, starting at `s`, every edge leading further on. */
  method TopologicalOrder<V(==,!new)>(g: Graph<V>, s: V) returns (order: seq<V>)
    requires WellFormed(g) && Acyclic(g)
    ensures Distinct(order) && TopoOrdered(g, order) && order != [] && order[0] == s
    ensures forall v :: v in order <==> Reaches(g, s, v)
    ensures Ranked(g, RankMap(order)) && forall v :: v in RankMap(order) <==> Reaches(g, s, v)
  {
    var visited, reverseTopologicalOrder := DfsPostOrder(g, s, {}, [], s);
    OrderFacts(g, s, reverseTopologicalOrder);
    ReversedPostOrderIsTopological(g, reverseTopologicalOrder);
    order := Reverse(reverseTopologicalOrder);
    forall v
      ensures v in order <==> Reaches(g, s, v)
    {
      assert v in order <==> v in RankMap(order);
    }
  }

  /** The positions of a list without duplicates. */
  ghost function RankMap<V(!new)>(order: seq<V>): (rank: map<V, nat>)
    requires Distinct(order)
    ensures Indexes(order, rank)
  {
    map i | 0 <= i < |order| :: order[i] := i
  }

  /** The order the solver relaxes in: a topological order of exactly the
      vertices reachable from `s`, starting with `s`. */
  lemma OrderFacts<V(!new)>(g: Graph<V>, s: V, r: seq<V>)
    requires Distinct(r) && PostOrdered(g, r) && r != [] && r[|r| - 1] == s
    requires forall j :: 0 <= j < |r| ==> Reaches(g, s, r[j])
    ensures var order := Reverse(r);
      Distinct(order) && order[0] == s && Ranked(g, RankMap(order)) &&
      forall v :: v in RankMap(order) <==> Reaches(g, s, v)
  {
    var order := Reverse(r);
    ReversedPostOrderIsTopological(g, r);
    RanksRise(g, order);
    var rank := RankMap(order);
    assert Closed(g, rank.Keys);
    forall v
      ensures v in rank <==> Reaches(g, s, v)
    {
      if v in rank {
        assert order[rank[v]] == r[|r| - 1 - rank[v]];
      }
      if Reaches(g, s, v) {
        var p :| IsPath(g, s, v, p);
        assert order[0] == s;
        ClosedHoldsPaths(g, rank.Keys, s, v, p);
      }
    }
  }

  /** In a topological order without duplicates, positions rise along edges. */
  lemma RanksRise<V(!new)>(g: Graph<V>, order: seq<V>)
    requires Distinct(order) && TopoOrdered(g, order)
    ensures Ranked(g, RankMap(order))
  {
    var rank := RankMap(order);
    forall v, k | v in rank && 0 <= k < |Neighbors(g, v)|
      ensures Neighbors(g, v)[k].to in rank && rank[v] < rank[Neighbors(g, v)[k].to]
    {
      var i := rank[v];
      var j := SuffixIndex(order, i + 1, Neighbors(g, v)[k].to);
    }
  }

  /** A position of an element of a suffix. */
  lemma PrefixIndex<T>(s: seq<T>, a: nat, x: T) returns (j: nat)
    requires a <= |s| && x in s[..a]
    ensures j < a && s[j] == x
  {
    var p := s[..a];
    var k :| 0 <= k < |p| && p[k] == x;
    j := k;
  }

  lemma SuffixIndex<T>(s: seq<T>, a: nat, x: T) returns (j: nat)
    requires a <= |s| && x in s[a..]
    ensures a <= j < |s| && s[j] == x
  {
    var j' :| 0 <= j' < |s| - a && s[a..][j'] == x;
    j := a + j';
  }

  /** The `k`-th edge out of the vertex of rank `i` leaves it for a vertex of
      higher rank, which is not the start. */
  lemma EdgeUp<V(!new)>(g: Graph<V>, s: V, order: seq<V>, rank: map<V, nat>, i: nat, k: nat)
    requires WellFormed(g) && Indexes(order, rank) && Ranked(g, rank) && s in rank && rank[s] == 0
    requires i < |order| && k < |Neighbors(g, order[i])|
    ensures var e := Neighbors(g, order[i])[k];
      e.from == order[i] && e in Neighbors(g, e.from) && e.from in rank && e.to in rank &&
      rank[e.from] == i < rank[e.to] && e.to != s
  {
    assert order[i] in g;
  }

  /** Relaxing an edge out of the vertex of rank `i` keeps every invariant of
      the relaxation loop. */
  lemma RelaxKeeps<V(!new)>(g: Graph<V>, s: V, rank: map<V, nat>, i: nat, e: Edge<V>,
                            d: map<V, Dist>, t: map<V, Edge<V>>, d': map<V, Dist>, t': map<V, Edge<V>>)
    requires e in Neighbors(g, e.from) && e.from in rank && e.to in rank && rank[e.from] == i < rank[e.to] && e.to != s
    requires d.Keys == rank.Keys && Sound(g, s, d) && Covered(s, d, t) && Tree(g, rank, d, t, i + 1)
    requires Relaxed(d, t, e, d', t')
    ensures d'.Keys == rank.Keys && Sound(g, s, d') && Covered(s, d', t') && Tree(g, rank, d', t', i + 1)
  {
    if Less(Add(d[e.from], e.weight), d[e.to]) {
      RelaxSound(g, s, e, d, d');
      RelaxTree(g, rank, i, e, d, t, d', t');
      RelaxCovered(s, e, d, t, d', t');
    }
  }

  /** Relaxing an edge lowers no distance, leaves the distance of the edge's
      start alone and its end no farther than the path through the edge. */
  lemma RelaxLowers<V(!new)>(e: Edge<V>, d: map<V, Dist>, t: map<V, Edge<V>>, d': map<V, Dist>, t': map<V, Edge<V>>)
    requires e.from in d && e.to in d && e.from != e.to && Relaxed(d, t, e, d', t')
    ensures NoLarger(d', d) && d'[e.from] == d[e.from] && Le(d'[e.to], Add(d[e.from], e.weight))
  {
  }

  /** A distance lowered through an edge is the weight of a path. */
  lemma RelaxSound<V(!new)>(g: Graph<V>, s: V, e: Edge<V>, d: map<V, Dist>, d': map<V, Dist>)
    requires Sound(g, s, d) && e.from in d && d[e.from].Fin? && e in Neighbors(g, e.from)
    requires d' == d[e.to := Fin(d[e.from].value + e.weight)]
    ensures Sound(g, s, d')
  {
    var p :| IsPath(g, s, e.from, p) && Weight(p) == d[e.from].value;
    PathSnoc(g, s, e.from, p, e);
    WeightSnoc(p, e);
  }

  /** An edge out of the vertex of rank `i` to a vertex of higher rank may
      replace the tree edge into its end. */
  lemma RelaxTree<V(!new)>(g: Graph<V>, rank: map<V, nat>, i: nat, e: Edge<V>,
                           d: map<V, Dist>, t: map<V, Edge<V>>, d': map<V, Dist>, t': map<V, Edge<V>>)
    requires Tree(g, rank, d, t, i + 1) && e in Neighbors(g, e.from)
    requires e.from in rank && e.to in rank && rank[e.from] == i && i < rank[e.to]
    requires e.from in d && e.to in d && d[e.from].Fin?
    requires d' == d[e.to := Fin(d[e.from].value + e.weight)] && t' == t[e.to := e]
    ensures Tree(g, rank, d', t', i + 1)
  {
    forall x | x in t'
      ensures TreeEdge(g, rank, d', x, t'[x], i + 1)
    {
      if x != e.to {
        assert TreeEdge(g, rank, d, x, t[x], i + 1);
      }
    }
  }

  /** Giving a vertex other than the start a tree edge keeps every vertex at a
      finite distance covered. */
  lemma RelaxCovered<V(!new)>(s: V, e: Edge<V>, d: map<V, Dist>, t: map<V, Edge<V>>, d': map<V, Dist>, t': map<V, Edge<V>>)
    requires Covered(s, d, t) && e.to != s && e.to in d
    requires d'.Keys == d.Keys && (forall v :: v in d && v != e.to ==> d'[v] == d[v]) && t' == t[e.to := e]
    ensures Covered(s, d', t')
  {
  }

  /** The first `k` edges of `edges` lead no farther than through a vertex at
      distance `du`. */
  ghost predicate NoFarther<V(!new)>(distTo: map<V, Dist>, edges: seq<Edge<V>>, k: int, du: Dist)
    requires 0 <= k <= |edges|
  {
    forall j :: 0 <= j < k ==> edges[j].to in distTo && Le(distTo[edges[j].to], Add(du, edges[j].weight))
  }

  /** Lowering distances keeps them no farther, and one more edge that leads
      no farther extends the range. */
  lemma NoFartherStep<V(!new)>(d: map<V, Dist>, d': map<V, Dist>, edges: seq<Edge<V>>, k: nat, du: Dist)
    requires k < |edges| && NoFarther(d, edges, k, du) && NoLarger(d', d)
    requires edges[k].to in d' && Le(d'[edges[k].to], Add(du, edges[k].weight))
    ensures NoFarther(d', edges, k + 1, du)
  {
    forall j | 0 <= j < k
      ensures Le(d'[edges[j].to], Add(du, edges[j].weight))
    {
      var x := edges[j].to;
      assert Le(d'[x], d[x]) && Le(d[x], Add(du, edges[j].weight));
    }
  }

  /** Lowering distances keeps every bound. */
  lemma BoundedLower<V(!new)>(g: Graph<V>, s: V, d: map<V, Dist>, d': map<V, Dist>, S: set<V>)
    requires Bounded(g, s, d, S) && NoLarger(d', d)
    ensures Bounded(g, s, d', S)
  {
  }

  /** A path whose edges all lead upwards in rank leaves only vertices ranked
      below its end. */
  lemma {:induction false} WalkStaysBelow<V(!new)>(g: Graph<V>, rank: map<V, nat>, s: V, v: V, p: seq<Edge<V>>, S: set<V>)
    requires Ranked(g, rank) && WalkIn(g, s, v, p, S) && S <= rank.Keys && v in rank
    ensures WalkIn(g, s, v, p, Below(rank, rank[v]))
    decreases |p|
  {
    if p != [] {
      var e := p[|p| - 1];
      var x := e.from;
      var q := p[..|p| - 1];
      var k :| 0 <= k < |Neighbors(g, x)| && Neighbors(g, x)[k] == e;
      assert rank[x] < rank[v];
      WalkStaysBelow(g, rank, s, x, q, S);
      WalkGrow(g, s, x, q, Below(rank, rank[x]), Below(rank, rank[v]));
    }
  }

  /** Once every edge out of the vertex of rank `i` is relaxed, the bound holds
      for paths that also leave that vertex. */
  lemma BoundStep<V(!new)>(g: Graph<V>, s: V, order: seq<V>, rank: map<V, nat>, i: nat, d: map<V, Dist>)
    requires WellFormed(g) && Indexes(order, rank) && Ranked(g, rank) && i < |order|
    requires order[i] in d && Bounded(g, s, d, Below(rank, i))
    requires NoFarther(d, Neighbors(g, order[i]), |Neighbors(g, order[i])|, d[order[i]])
    ensures Bounded(g, s, d, Below(rank, i + 1))
  {
    var S := Below(rank, i + 1);
    forall v, p | WalkIn(g, s, v, p, S)
      ensures v in d && d[v].Fin? && d[v].value <= Weight(p)
    {
      BoundOne(g, s, order, rank, i, d, v, p);
    }
    assert Bounded(g, s, d, S);
  }

  lemma BoundOne<V(!new)>(g: Graph<V>, s: V, order: seq<V>, rank: map<V, nat>, i: nat, d: map<V, Dist>, v: V, p: seq<Edge<V>>)
    requires WellFormed(g) && Indexes(order, rank) && Ranked(g, rank) && i < |order|
    requires order[i] in d && Bounded(g, s, d, Below(rank, i))
    requires NoFarther(d, Neighbors(g, order[i]), |Neighbors(g, order[i])|, d[order[i]])
    requires WalkIn(g, s, v, p, Below(rank, i + 1))
    ensures v in d && d[v].Fin? && d[v].value <= Weight(p)
  {
    if p == [] {
      assert WalkIn(g, s, v, p, Below(rank, i));
    } else {
      var x := p[|p| - 1].from;
      assert x in rank && rank[x] < i + 1;
      if rank[x] == i {
        assert order[rank[x]] == x;
        BoundThrough(g, s, rank, i, d, v, p);
      } else {
        BoundBefore(g, s, rank, i, d, v, p);
      }
    }
  }

  /** A path whose last edge leaves the vertex of rank `i`. */
  lemma BoundThrough<V(!new)>(g: Graph<V>, s: V, rank: map<V, nat>, i: nat, d: map<V, Dist>, v: V, p: seq<Edge<V>>)
    requires Ranked(g, rank) && WalkIn(g, s, v, p, Below(rank, i + 1)) && p != []
    requires var u := p[|p| - 1].from;
      u in rank && rank[u] == i && u in d && NoFarther(d, Neighbors(g, u), |Neighbors(g, u)|, d[u])
    requires Bounded(g, s, d, Below(rank, i))
    ensures v in d && d[v].Fin? && d[v].value <= Weight(p)
  {
    var e := p[|p| - 1];
    var q := p[..|p| - 1];
    WalkStaysBelow(g, rank, s, e.from, q, Below(rank, i + 1));
    var j :| 0 <= j < |Neighbors(g, e.from)| && Neighbors(g, e.from)[j] == e;
  }

  /** A path whose last edge leaves a vertex ranked below `i`. */
  lemma BoundBefore<V(!new)>(g: Graph<V>, s: V, rank: map<V, nat>, i: nat, d: map<V, Dist>, v: V, p: seq<Edge<V>>)
    requires Ranked(g, rank) && WalkIn(g, s, v, p, Below(rank, i + 1)) && p != []
    requires var x := p[|p| - 1].from; x in rank && rank[x] < i
    requires Bounded(g, s, d, Below(rank, i))
    ensures v in d && d[v].Fin? && d[v].value <= Weight(p)
  {
    var e := p[|p| - 1];
    var q := p[..|p| - 1];
    WalkStaysBelow(g, rank, s, e.from, q, Below(rank, i + 1));
    WalkGrow(g, s, e.from, q, Below(rank, rank[e.from]), Below(rank, i));
    assert WalkIn(g, s, v, p, Below(rank, i));
  }

  /** After the last vertex, the bound covers every path from `s`. */
  lemma AllBounded<V(!new)>(g: Graph<V>, s: V, order: seq<V>, rank: map<V, nat>, d: map<V, Dist>)
    requires Indexes(order, rank) && Ranked(g, rank) && s in rank
    requires Bounded(g, s, d, Below(rank, |order|))
    ensures forall v, p :: IsPath(g, s, v, p) ==> v in d && d[v].Fin? && d[v].value <= Weight(p)
  {
    assert Below(rank, |order|) == rank.Keys;
    assert Closed(g, rank.Keys);
    forall v, p | IsPath(g, s, v, p)
      ensures v in d && d[v].Fin? && d[v].value <= Weight(p)
    {
      ClosedHoldsPaths(g, rank.Keys, s, v, p);
    }
  }

  /** Each vertex of `path` after the first has an `edgeTo` entry leaving the
      vertex before it. */
  ghost predicate Linked<V(!new)>(edgeTo: map<V, Edge<V>>, path: seq<V>)
  {
    forall j :: 1 <= j < |path| ==> path[j] in edgeTo && edgeTo[path[j]].from == path[j - 1]
  }

  /** The edges `edgeTo` records along a linked `path`, in order. */
  ghost function ChainEdges<V(!new)>(edgeTo: map<V, Edge<V>>, path: seq<V>): seq<Edge<V>>
    requires Linked(edgeTo, path)
  {
    if |path| <= 1 then []
    else
      assert Linked(edgeTo, path[1..]) by {
        forall j | 1 <= j < |path| - 1
          ensures path[1..][j] in edgeTo && edgeTo[path[1..][j]].from == path[1..][j - 1]
        {
          assert path[1..][j] == path[j + 1] && path[1..][j - 1] == path[j];
        }
      }
      [edgeTo[path[1]]] + ChainEdges(edgeTo, path[1..])
  }

  /** Prepending the vertex an `edgeTo` entry leaves keeps a path linked and
      prepends that entry to its edges. */
  lemma ChainCons<V(!new)>(edgeTo: map<V, Edge<V>>, x: V, path: seq<V>)
    requires Linked(edgeTo, path) && path != [] && path[0] in edgeTo && edgeTo[path[0]].from == x
    ensures Linked(edgeTo, [x] + path)
    ensures ChainEdges(edgeTo, [x] + path) == [edgeTo[path[0]]] + ChainEdges(edgeTo, path)
  {
    var path' := [x] + path;
    assert path'[1..] == path;
    forall j | 1 <= j < |path'|
      ensures path'[j] in edgeTo && edgeTo[path'[j]].from == path'[j - 1]
    {
      if j > 1 {
        assert path'[j] == path[j - 1] && path'[j - 1] == path[j - 2];
      }
    }
  }

  /** The start lies at distance zero: no path from it returns to it. */
  lemma StartAtZero<V(!new)>(g: Graph<V>, s: V, d: map<V, Dist>)
    requires Acyclic(g) && Sound(g, s, d) && s in d && d[s].Fin?
    ensures d[s] == Fin(0.0)
  {
    var p :| IsPath(g, s, s, p) && Weight(p) == d[s].value;
  }

  class ToposortDAGSolver<V(==,!new)> {
    var edgeTo: map<V, Edge<V>>
    var distTo: map<V, Dist>
    ghost const graph: Graph<V>
    ghost const start: V
    /** The topological order the constructor relaxes in, and each vertex's position in it. */
    ghost const order: seq<V>
    ghost const rank: map<V, nat>

    /** `distTo` holds exactly the vertices reachable from `start`, each at the
        weight of a lightest path to it, and following `edgeTo` back from a
        vertex retraces such a path. */
    ghost predicate Valid()
      reads this
    {
      WellFormed(graph) && Acyclic(graph) && Indexes(order, rank) && Ranked(graph, rank) && start in rank && rank[start] == 0 &&
      (forall v :: v in rank <==> Reaches(graph, start, v)) &&
      distTo.Keys == rank.Keys &&
      Sound(graph, start, distTo) && Covered(start, distTo, edgeTo) && Tree(graph, rank, distTo, edgeTo, |order|) &&
      (forall v, p :: IsPath(graph, start, v, p) ==> v in distTo && distTo[v].Fin? && distTo[v].value <= Weight(p))
    }

    /** Runs the algorithm on `g` from `s`: every vertex reachable from `s`
        at +infinity, `s` at 0, then a depth-first post-order, reversed, and
        every edge relaxed in that order. */
    constructor (g: Graph<V>, s: V)
      requires WellFormed(g) && Acyclic(g)
      ensures graph == g && start == s && Valid()
    {
      graph := g;
      start := s;
      edgeTo := map[];
      var vertices := GetAllVertices(g, s);
      var infinite: map<V, Dist> := map[];
      var rest := vertices;
      while rest != {}
        invariant rest <= vertices && infinite.Keys == vertices - rest
        invariant forall v :: v in infinite ==> infinite[v] == Inf
        decreases |rest|
      {
        var vertex :| vertex in rest;
        infinite := infinite[vertex := Inf];
        rest := rest - {vertex};
      }
      distTo := infinite[s := Fin(0.0)];
      var topologicalOrder := TopologicalOrder(g, s);
      order := topologicalOrder;
      rank := RankMap(topologicalOrder);
      new;
      RelaxInOrder(g, topologicalOrder);
    }

    /** `relax(edge)`. */
    method Relax(edge: Edge<V>)
      requires edge.from in distTo && edge.to in distTo
      modifies this
      ensures Relaxed(old(distTo), old(edgeTo), edge, distTo, edgeTo)
    {
      var newDist := Add(distTo[edge.from], edge.weight);
      if Less(newDist, distTo[edge.to]) {
        distTo := distTo[edge.to := newDist];
        edgeTo := edgeTo[edge.to := edge];
      }
    }

    /** The constructor's final loop: relaxing the edges out of each vertex of
        the topological order in turn yields the shortest distances. */
    method RelaxInOrder(g: Graph<V>, topologicalOrder: seq<V>)
      requires g == graph && topologicalOrder == order
      requires WellFormed(graph) && Acyclic(graph) && Indexes(order, rank) && Ranked(graph, rank) && start in rank && rank[start] == 0
      requires forall v :: v in rank <==> Reaches(graph, start, v)
      requires distTo.Keys == rank.Keys && edgeTo == map[]
      requires distTo[start] == Fin(0.0) && forall v :: v in distTo && v != start ==> distTo[v] == Inf
      modifies this
      ensures Valid()
    {
      assert Sound(graph, start, distTo) by {
        assert IsPath(graph, start, start, []);
      }
      assert Bounded(graph, start, distTo, Below(rank, 0)) by {
        forall v, p | WalkIn(graph, start, v, p, Below(rank, 0))
          ensures p == []
        {
        }
      }
      for i := 0 to |topologicalOrder|
        invariant distTo.Keys == rank.Keys && Sound(graph, start, distTo) && Covered(start, distTo, edgeTo)
        invariant Tree(graph, rank, distTo, edgeTo, i) && Bounded(graph, start, distTo, Below(rank, i))
      {
        var vertex := topologicalOrder[i];
        var edges := Neighbors(g, vertex);
        ghost var du := distTo[vertex];
        for k := 0 to |edges|
          invariant distTo.Keys == rank.Keys && Sound(graph, start, distTo) && Covered(start, distTo, edgeTo)
          invariant Tree(graph, rank, distTo, edgeTo, i + 1) && Bounded(graph, start, distTo, Below(rank, i))
          invariant distTo[vertex] == du
          invariant NoFarther(distTo, edges, k, du)
        {
          ghost var d, t := distTo, edgeTo;
          EdgeUp(g, start, order, rank, i, k);
          Relax(edges[k]);
          RelaxKeeps(g, start, rank, i, edges[k], d, t, distTo, edgeTo);
          RelaxLowers(edges[k], d, t, distTo, edgeTo);
          NoFartherStep(d, distTo, edges, k, du);
          BoundedLower(graph, start, d, distTo, Below(rank, i));
        }
        BoundStep(graph, start, order, rank, i, distTo);
      }
      AllBounded(graph, start, order, rank, distTo);
    }

    /** Following `edgeTo` back from `goal` has reached `curr` along the
        vertices `forward` and the edges `tail`; for a reachable goal, `tail`
        is a path from `curr` and makes up the rest of `goal`'s distance. */
    ghost predicate Traced(goal: V, curr: V, forward: seq<V>, tail: seq<Edge<V>>)
      reads this
    {
      forward != [] && forward[0] == curr && forward[|forward| - 1] == goal &&
      Linked(edgeTo, forward) && tail == ChainEdges(edgeTo, forward) &&
      (goal in distTo ==>
        curr in distTo && distTo[curr].Fin? && distTo[goal].Fin? && IsPath(graph, curr, goal, tail) &&
        distTo[curr].value + Weight(tail) == distTo[goal].value)
    }

    /** One step back along `edgeTo` keeps the trace and lowers the rank. */
    lemma StepBack(goal: V, curr: V, forward: seq<V>, tail: seq<Edge<V>>)
      requires Valid() && Traced(goal, curr, forward, tail) && curr in edgeTo
      ensures var e := edgeTo[curr];
        Traced(goal, e.from, [e.from] + forward, [e] + tail) &&
        curr in rank && e.from in rank && rank[e.from] < rank[curr]
    {
      var e := edgeTo[curr];
      assert TreeEdge(graph, rank, distTo, curr, e, |order|);
      ChainCons(edgeTo, e.from, forward);
      var forward' := [e.from] + forward;
      assert forward'[|forward'| - 1] == forward[|forward| - 1];
      if goal in distTo {
        PathCons(graph, e, goal, tail);
        WeightCons(e, tail);
      }
    }

    /** A trace that has stopped at a vertex without an `edgeTo` entry from a
        reachable goal began at the start and is a lightest path. */
    lemma TraceDone(goal: V, curr: V, forward: seq<V>, tail: seq<Edge<V>>)
      requires Valid() && Traced(goal, curr, forward, tail) && curr !in edgeTo && goal in distTo
      ensures forward[0] == start && IsPath(graph, start, goal, tail) && Weight(tail) == distTo[goal].value
      ensures forall q :: IsPath(graph, start, goal, q) ==> Weight(tail) <= Weight(q)
    {
      assert curr == start;
      StartAtZero(graph, start, distTo);
    }

    /** `solution(goal)`: the vertices met following `edgeTo` back from `goal`,
        reversed. For a reachable goal it is a lightest path from the start. */
    method Solution(goal: V) returns (path: seq<V>)
      requires Valid()
      ensures path != [] && path[|path| - 1] == goal && path[0] !in edgeTo
      ensures Linked(edgeTo, path)
      ensures goal !in edgeTo ==> path == [goal]
      ensures goal in distTo ==>
        path[0] == start && IsPath(graph, start, goal, ChainEdges(edgeTo, path)) &&
        Weight(ChainEdges(edgeTo, path)) == distTo[goal].value
      ensures goal in distTo ==> forall q :: IsPath(graph, start, goal, q) ==> Weight(ChainEdges(edgeTo, path)) <= Weight(q)
    {
      var reversed := [goal];
      var curr := goal;
      ghost var forward := [goal];
      ghost var tail: seq<Edge<V>> := [];
      assert IsPath(graph, goal, goal, []);
      while curr in edgeTo
        invariant forward == Reverse(reversed) && Traced(goal, curr, forward, tail)
        decreases if curr in rank then rank[curr] else 0
      {
        var e := edgeTo[curr];
        StepBack(goal, curr, forward, tail);
        ReverseSnoc(reversed, e.from);
        tail := [e] + tail;
        forward := [e.from] + forward;
        curr := e.from;
        reversed := reversed + [curr];
      }
      path := Reverse(reversed);
      if goal in distTo {
        TraceDone(goal, curr, forward, tail);
      }
    }
  }
}
