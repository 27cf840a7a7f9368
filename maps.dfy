/** The map: the graph together with the per-vertex numbers the preprocessing
    and the search keep (Map and the numeric fields of VertexController).

    The vertex objects of the program are spread over per-vertex sequences of
    the class `Map`, indexed by vertex number: `distanceFromStart[v]`,
    `depth[v]`, `visited[v]` (the vertex's CurrentState is Visited) and the
    search memo `currentBestInterest[v]`, `currentBestTime[v]`. */
module Maps {
  import opened Graphs
  import opened Paths
  import opened Distances

  /** Number of `false` entries: the vertices not yet visited. */
  function CountFalse(s: seq<bool>): (c: nat)
    ensures c <= |s|
  {
    if |s| == 0 then 0 else (if s[0] then 0 else 1) + CountFalse(s[1..])
  }

  /** `b` has every flag of `a` set, and possibly more. */
  ghost predicate Grows(a: seq<bool>, b: seq<bool>)
  {
    |a| == |b| && forall j :: 0 <= j < |a| && a[j] ==> b[j]
  }

  /** Setting more flags never raises the count of unset ones. */
  lemma {:induction false} CountFalseGrows(a: seq<bool>, b: seq<bool>)
    requires Grows(a, b)
    ensures CountFalse(b) <= CountFalse(a)
  {
    if |a| > 0 {
      CountFalseGrows(a[1..], b[1..]);
    }
  }

  /** Setting an unset flag lowers the count by one. */
  lemma {:induction false} CountFalseSet(b: seq<bool>, i: nat)
    requires i < |b| && !b[i]
    ensures CountFalse(b[i := true]) == CountFalse(b) - 1
  {
    if i > 0 {
      assert b[i := true][1..] == b[1..][i - 1 := true];
      CountFalseSet(b[1..], i - 1);
    } else {
      assert b[i := true][1..] == b[1..];
    }
  }

  /** Every neighbour of `w` is marked visited. */
  ghost predicate Spread(g: Graph, visited: seq<bool>, w: nat)
    requires Indexed(g) && w < |g.interest|
  {
    forall i :: 0 <= i < |GetAdjacentVertices(g, w)| ==>
      GetAdjacentVertices(g, w)[i] < |visited| && visited[GetAdjacentVertices(g, w)[i]]
  }

  /** `vs` is a walk along adjacency lists that starts at `cur` and, after
      `cur`, only passes through vertices that were unvisited in `before`. */
  ghost predicate UnvisitedWalk(g: Graph, before: seq<bool>, cur: nat, vs: seq<nat>)
    requires Indexed(g)
  {
    |vs| > 0 && vs[0] == cur && Below(vs, |g.interest|) && |before| == |g.interest| &&
    (forall i :: 0 < i < |vs| ==> !before[vs[i]]) &&
    forall i :: 0 < i < |vs| ==> vs[i] in GetAdjacentVertices(g, vs[i - 1])
  }

  /** What SpreadDepth(cur) leaves behind reaches every vertex that can be
      reached from `cur` through vertices that were unvisited before. */
  lemma {:induction false} SpreadReaches(g: Graph, before: seq<bool>, after: seq<bool>, cur: nat, vs: seq<nat>)
    requires Indexed(g) && cur < |g.interest| && Grows(before, after) && UnvisitedWalk(g, before, cur, vs)
    requires after[cur]
    requires forall w :: 0 <= w < |after| && (w == cur || (!before[w] && after[w])) ==> Spread(g, after, w)
    ensures forall i :: 0 <= i < |vs| ==> after[vs[i]]
  {
    if |vs| > 1 {
      var prefix := vs[..|vs| - 1];
      assert UnvisitedWalk(g, before, cur, prefix);
      SpreadReaches(g, before, after, cur, prefix);
      var w, x := vs[|vs| - 2], vs[|vs| - 1];
      assert after[w] && prefix[|prefix| - 1] == w;
      assert Spread(g, after, w);
      var adj := GetAdjacentVertices(g, w);
      var j :| 0 <= j < |adj| && adj[j] == x;
      assert after[x];
      assert forall i :: 0 <= i < |vs| - 1 ==> vs[i] == prefix[i];
    }
  }

  /** Every vertex newly visited since `before`, other than `cur`, has all its neighbours visited. */
  ghost predicate SpreadOutside(g: Graph, before: seq<bool>, visited: seq<bool>, cur: nat)
    requires Indexed(g) && |before| == |visited|
  {
    forall w :: 0 <= w < |visited| && w != cur && !before[w] && visited[w] ==>
      w < |g.interest| && Spread(g, visited, w)
  }

  /** Neighbours already spread into cannot be unmarked, so they stay spread. */
  lemma SpreadAfterCall(g: Graph, before: seq<bool>, v1: seq<bool>, v2: seq<bool>, cur: nat)
    requires Indexed(g) && |before| == |v1| == |g.interest| && Grows(v1, v2)
    requires SpreadOutside(g, before, v1, cur)
    requires forall w :: 0 <= w < |v2| && !v1[w] && v2[w] ==> Spread(g, v2, w)
    ensures SpreadOutside(g, before, v2, cur)
  {
    forall w | 0 <= w < |v2| && w != cur && !before[w] && v2[w]
      ensures Spread(g, v2, w)
    {
      if v1[w] {
        assert Spread(g, v1, w);
      }
    }
  }

  /** The first `i` neighbours are visited with depth at most `bound`. */
  ghost predicate Explored(visited: seq<bool>, depth: seq<int>, adj: seq<nat>, i: nat, bound: int)
    requires i <= |adj| && Below(adj, |visited|) && |depth| == |visited|
  {
    forall j :: 0 <= j < i ==> visited[adj[j]] && depth[adj[j]] <= bound
  }

  /** Marking more vertices and lowering depths keeps explored neighbours explored. */
  lemma ExploredAfterCall(v1: seq<bool>, d1: seq<int>, v2: seq<bool>, d2: seq<int>, adj: seq<nat>, i: nat, bound: int)
    requires i <= |adj| && Below(adj, |v1|) && |d1| == |v1| && Grows(v1, v2) && AtMost(d2, d1)
    requires Explored(v1, d1, adj, i, bound)
    ensures Explored(v2, d2, adj, i, bound)
  {
  }

  /** Every entry of `d` is at most the corresponding entry of `b`. */
  ghost predicate AtMost(d: seq<int>, b: seq<int>)
  {
    |d| == |b| && forall v :: 0 <= v < |d| ==> d[v] <= b[v]
  }

  /** With non-negative weights the shortest distances are below the initial
      labels and no edge can lower them. */
  lemma ShortestIsFloor(n: nat, edges: seq<Edge>)
    requires EndpointsBelow(edges, n) && NonNegativeWeights(edges) && n > 0
    ensures AtMost(Shortest(n, edges), Initial(n))
    ensures RelaxedUpTo(Shortest(n, edges), Shortest(n, edges), edges, |edges|)
  {
    ShortestIsRelaxed(n, edges);
    BoundDecreasing(n, edges, n - 1);
  }

  /** Labellings below each other are equal. */
  lemma AtMostBothWays(a: seq<int>, b: seq<int>)
    requires AtMost(a, b) && AtMost(b, a)
    ensures a == b
  {
  }

  /** The first `k` edges cannot lower `d` below `b`'s values plus their weights. */
  ghost predicate RelaxedUpTo(d: seq<int>, b: seq<int>, edges: seq<Edge>, k: nat)
    requires k <= |edges| && EndpointsBelow(edges, |d|) && |b| == |d|
  {
    forall j :: 0 <= j < k ==>
      d[edges[j].second] <= b[edges[j].first] + edges[j].weight &&
      d[edges[j].first] <= b[edges[j].second] + edges[j].weight
  }

  class Map {
    /** The sum of all interests once prepared; -1 before. */
    var maxInterest: int
    var graph: Graph
    var distanceFromStart: seq<int>
    var depth: seq<int>
    var visited: seq<bool>
    var currentBestInterest: seq<int>
    var currentBestTime: seq<int>

    ghost predicate Valid()
      reads this
    {
      WellFormed(graph) &&
      |distanceFromStart| == |graph.interest| && |depth| == |graph.interest| &&
      |visited| == |graph.interest| &&
      |currentBestInterest| == |graph.interest| && |currentBestTime| == |graph.interest|
    }

    /** A map with no vertices, no edges and no maximum interest yet. */
    constructor ()
      ensures Valid() && IsEmpty() && graph.edges == [] && maxInterest == -1
    {
      maxInterest := -1;
      graph := Graph([], [], []);
      distanceFromStart, depth, visited := [], [], [];
      currentBestInterest, currentBestTime := [], [];
    }

    /** The map has no vertices. */
    predicate IsEmpty()
      reads this
    {
      |graph.interest| == 0
    }

    /** The start vertex: the first one. */
    function StartVertex(): (r: nat)
      reads this
      requires !IsEmpty()
      ensures r < |graph.interest| && r == Start
    {
      0
    }

    /** Forgets every vertex and edge and the maximum interest. */
    method Clear()
      modifies this
      ensures Valid() && IsEmpty() && graph.edges == [] && maxInterest == -1
    {
      maxInterest := -1;
      graph := Graph([], [], []);
      distanceFromStart, depth, visited := [], [], [];
      currentBestInterest, currentBestTime := [], [];
    }

    /** Adds a vertex with the given interest, no edges and all numbers zero. */
    method AddVertex(interest: int) returns (v: nat)
      requires Valid()
      modifies this
      ensures Valid() && v == |old(graph.interest)|
      ensures graph == Graph(old(graph.interest) + [interest], old(graph.conjoinedEdges) + [[]], old(graph.edges))
      ensures distanceFromStart == old(distanceFromStart) + [0] && depth == old(depth) + [0]
      ensures visited == old(visited) + [false]
      ensures currentBestInterest == old(currentBestInterest) + [0] && currentBestTime == old(currentBestTime) + [0]
      ensures maxInterest == old(maxInterest)
    {
      v := |graph.interest|;
      var g := Graph(graph.interest + [interest], graph.conjoinedEdges + [[]], graph.edges);
      forall u | 0 <= u < |g.interest|
        ensures g.conjoinedEdges[u] == IncidentEdges(g.edges, u)
      {
        if u == v {
          IncidentEdgesMembers(g.edges, u);
          NoIncidentEdges(g.edges, u);
        }
      }
      graph := g;
      distanceFromStart := distanceFromStart + [0];
      depth := depth + [0];
      visited := visited + [false];
      currentBestInterest := currentBestInterest + [0];
      currentBestTime := currentBestTime + [0];
    }

    /** Creates an edge from `f` to `s` with weight `w`: the edge is appended to
        the edge list, then to the list of `f`, then to the list of `s`. */
    method AddEdge(f: nat, s: nat, w: int) returns (k: nat)
      requires Valid() && f < |graph.interest| && s < |graph.interest|
      modifies this`graph
      ensures Valid() && k == |old(graph.edges)|
      ensures graph.edges == old(graph.edges) + [Edge(f, s, w)]
      ensures graph.interest == old(graph.interest)
      ensures graph.conjoinedEdges ==
        old(graph.conjoinedEdges)[f := old(graph.conjoinedEdges)[f] + [k]][s := old(graph.conjoinedEdges)[f := old(graph.conjoinedEdges)[f] + [k]][s] + [k]]
    {
      k := |graph.edges|;
      var edges := graph.edges + [Edge(f, s, w)];
      var conj := graph.conjoinedEdges[f := graph.conjoinedEdges[f] + [k]];
      conj := conj[s := conj[s] + [k]];
      var g := Graph(graph.interest, conj, edges);
      assert edges[..k] == graph.edges;
      forall u | 0 <= u < |g.interest|
        ensures g.conjoinedEdges[u] == IncidentEdges(g.edges, u)
      {
      }
      IncidentEdgesBelowAll(g);
      graph := g;
    }

    /** Distances from the start by relaxing every edge both ways, |V| passes over the edge list. */
    method FordBellman()
      requires Valid() && !IsEmpty()
      modifies this`distanceFromStart
      ensures Valid()
      ensures AtMost(distanceFromStart, Bound(|graph.interest|, graph.edges, |graph.interest|))
      ensures NonNegativeWeights(graph.edges) ==>
        distanceFromStart == Shortest(|graph.interest|, graph.edges)
    {
      var n := |graph.interest|;
      ghost var edges := graph.edges;
      InitDistances();
      ghost var nonNegative := NonNegativeWeights(edges);
      ghost var floor := Shortest(n, edges);
      if nonNegative {
        ShortestIsFloor(n, edges);
      }
      var i := 0;
      while i < n
        invariant 0 <= i <= n && |distanceFromStart| == n
        invariant AtMost(distanceFromStart, Bound(n, edges, i))
        invariant nonNegative ==> AtMost(floor, distanceFromStart)
      {
        ghost var b := Bound(n, edges, i);
        ghost var c := distanceFromStart;
        RelaxPass(floor);
        PassBelowRound(b, c, distanceFromStart, edges);
        i := i + 1;
      }
      if nonNegative {
        BoundStable(n, edges);
        AtMostBothWays(distanceFromStart, floor);
      }
    }

    /** Every label set to Infinity, then the start's to 0. */
    method InitDistances()
      requires Valid() && !IsEmpty()
      modifies this`distanceFromStart
      ensures Valid() && distanceFromStart == Initial(|graph.interest|)
    {
      var n := |graph.interest|;
      var v := 0;
      while v < n
        invariant 0 <= v <= n && |distanceFromStart| == n
        invariant forall u :: 0 <= u < v ==> distanceFromStart[u] == Infinity
      {
        distanceFromStart := distanceFromStart[v := Infinity];
        v := v + 1;
      }
      distanceFromStart := distanceFromStart[Start := 0];
    }

    /** One pass of FordBellman: each edge in list order lowers its second
        endpoint through its first, then its first through its second, in place.
        Labels only go down, and a labelling `floor` that no edge can lower stays below them. */
    method RelaxPass(ghost floor: seq<int>)
      requires Valid()
      modifies this`distanceFromStart
      ensures Valid()
      ensures AtMost(distanceFromStart, old(distanceFromStart))
      ensures RelaxedUpTo(distanceFromStart, old(distanceFromStart), graph.edges, |graph.edges|)
      ensures (|floor| == |distanceFromStart| && RelaxedUpTo(floor, floor, graph.edges, |graph.edges|) &&
        AtMost(floor, old(distanceFromStart))) ==> AtMost(floor, distanceFromStart)
    {
      var n := |graph.interest|;
      var edges := graph.edges;
      ghost var c := distanceFromStart;
      ghost var closed := |floor| == n && RelaxedUpTo(floor, floor, edges, |edges|) && AtMost(floor, c);
      var k := 0;
      while k < |edges|
        invariant 0 <= k <= |edges| && |distanceFromStart| == n
        invariant AtMost(distanceFromStart, c)
        invariant RelaxedUpTo(distanceFromStart, c, edges, k)
        invariant closed ==> AtMost(floor, distanceFromStart)
      {
        var e := edges[k];
        if distanceFromStart[e.second] > distanceFromStart[e.first] + e.weight {
          distanceFromStart := distanceFromStart[e.second := distanceFromStart[e.first] + e.weight];
        }
        if distanceFromStart[e.first] > distanceFromStart[e.second] + e.weight {
          distanceFromStart := distanceFromStart[e.first := distanceFromStart[e.second] + e.weight];
        }
        k := k + 1;
      }
    }

    /** Depth labelling by a depth-first walk from `cur`: marks `cur` visited,
        then handles each neighbour in list order. */
    method SpreadDepth(cur: nat)
      requires Valid() && cur < |graph.interest| && NonNegative(depth)
      modifies this`depth, this`visited
      ensures Valid() && NonNegative(depth)
      ensures visited[cur] && Grows(old(visited), visited)
      ensures depth[Start] == 0 && AtMost(depth, old(depth)[Start := 0])
      ensures forall i :: 0 <= i < |GetAdjacentVertices(graph, cur)| ==>
        depth[GetAdjacentVertices(graph, cur)[i]] <= old(depth)[Start := 0][cur] + 1
      ensures forall w :: 0 <= w < |visited| && (w == cur || (!old(visited)[w] && visited[w])) ==>
        Spread(graph, visited, w)
      decreases CountFalse(visited[cur := true]), 1
    {
      ghost var before := visited;
      ghost var d0 := depth[Start := 0][cur];
      depth := depth[Start := 0];
      visited := visited[cur := true];
      ghost var entry := visited;
      ghost var entryDepth := depth;
      var adj := GetAdjacentVertices(graph, cur);
      var i := 0;
      while i < |adj|
        invariant 0 <= i <= |adj| && Valid()
        invariant visited[cur] && Grows(entry, visited)
        invariant depth[Start] == 0 && AtMost(depth, entryDepth) && NonNegative(depth)
        invariant Explored(visited, depth, adj, i, d0 + 1)
        invariant SpreadOutside(graph, before, visited, cur)
      {
        ghost var v1, d1 := visited, depth;
        CountFalseGrows(entry, visited);
        VisitNeighbour(cur, adj[i]);
        SpreadAfterCall(graph, before, v1, visited, cur);
        ExploredAfterCall(v1, d1, visited, depth, adj, i, d0 + 1);
        i := i + 1;
      }
    }

    /** One step of SpreadDepth(cur) for its neighbour `v`: lowers `v`'s depth to
        one more than `cur`'s if that is smaller, then spreads from `v` if it is unvisited. */
    method VisitNeighbour(cur: nat, v: nat)
      requires Valid() && cur < |graph.interest| && v < |graph.interest| && NonNegative(depth)
      requires depth[Start] == 0
      modifies this`depth, this`visited
      ensures Valid() && NonNegative(depth) && depth[Start] == 0
      ensures visited[v] && Grows(old(visited), visited)
      ensures AtMost(depth, old(depth)) && depth[v] <= old(depth)[cur] + 1
      ensures forall w :: 0 <= w < |visited| && !old(visited)[w] && visited[w] ==> Spread(graph, visited, w)
      decreases CountFalse(visited), 0
    {
      if depth[v] > depth[cur] + 1 {
        depth := depth[v := depth[cur] + 1];
      }
      if !visited[v] {
        CountFalseSet(visited, v);
        ghost var d := depth;
        assert d[Start := 0] == d;
        SpreadDepth(v);
      }
    }

    /** Zeroes the search memo of every vertex. */
    method ResetVertices()
      requires Valid()
      modifies this`currentBestInterest, this`currentBestTime
      ensures Valid()
      ensures forall v :: 0 <= v < |currentBestInterest| ==> currentBestInterest[v] == 0 && currentBestTime[v] == 0
    {
      var v := 0;
      while v < |graph.interest|
        invariant 0 <= v <= |graph.interest| && Valid()
        invariant forall u :: 0 <= u < v ==> currentBestInterest[u] == 0 && currentBestTime[u] == 0
      {
        currentBestInterest := currentBestInterest[v := 0];
        currentBestTime := currentBestTime[v := 0];
        v := v + 1;
      }
    }

    /** Distances, depths and the maximum interest, computed once the map is built. */
    method Prepare()
      requires Valid() && !IsEmpty()
      modifies this`distanceFromStart, this`depth, this`visited, this`maxInterest
      ensures Valid()
      ensures AtMost(distanceFromStart, Bound(|graph.interest|, graph.edges, |graph.interest|))
      ensures NonNegativeWeights(graph.edges) ==>
        distanceFromStart == Shortest(|graph.interest|, graph.edges)
      ensures depth[Start] == 0 && forall v :: 0 <= v < |depth| ==> 0 <= depth[v] <= |graph.interest|
      ensures maxInterest == SumInterest(graph.interest)
      ensures forall v :: 0 <= v < |visited| ==> !visited[v]
    {
      FordBellman();
      var v := 0;
      while v < |graph.interest|
        modifies this`depth
        invariant 0 <= v <= |graph.interest| && Valid()
        invariant forall u :: 0 <= u < v ==> depth[u] == |graph.interest|
      {
        depth := depth[v := |graph.interest|];
        v := v + 1;
      }
      ghost var d := depth;
      SpreadDepth(Start);
      assert AtMost(depth, d[Start := 0]);
      maxInterest := SumInterest(graph.interest);
      ResetStates();
    }

    /** Marks every vertex unvisited again, as the heuristic pass after the depth labelling does. */
    method ResetStates()
      requires Valid()
      modifies this`visited
      ensures Valid()
      ensures forall v :: 0 <= v < |visited| ==> !visited[v]
    {
      var v := 0;
      while v < |graph.interest|
        invariant 0 <= v <= |graph.interest| && Valid()
        invariant forall u :: 0 <= u < v ==> !visited[u]
      {
        visited := visited[v := false];
        v := v + 1;
      }
    }
  }

  /** A pass that only lowers labels and respects every edge with respect to its
      starting labels `c`, started from labels below `b`, ends below one round from `b`. */
  lemma PassBelowRound(b: seq<int>, c: seq<int>, d: seq<int>, edges: seq<Edge>)
    requires EndpointsBelow(edges, |b|) && AtMost(c, b) && AtMost(d, c)
    requires RelaxedUpTo(d, c, edges, |edges|)
    ensures AtMost(d, Round(b, edges))
  {
    RoundIsGreatest(b, edges, d);
  }

  /** No edge lists `u` when no edge has it as an endpoint. */
  lemma NoIncidentEdges(edges: seq<Edge>, u: nat)
    requires EndpointsBelow(edges, u)
    ensures IncidentEdges(edges, u) == []
  {
    IncidentEdgesMembers(edges, u);
    NoMembersEmpty(IncidentEdges(edges, u));
  }

  /** A graph whose lists are the registered ones only lists existing edges. */
  lemma IncidentEdgesBelowAll(g: Graph)
    requires |g.conjoinedEdges| == |g.interest|
    requires forall u :: 0 <= u < |g.interest| ==> g.conjoinedEdges[u] == IncidentEdges(g.edges, u)
    ensures Indexed(g)
  {
    forall u | 0 <= u < |g.interest|
      ensures Below(g.conjoinedEdges[u], |g.edges|)
    {
      IncidentEdgesBelow(g.edges, u);
    }
  }
}
