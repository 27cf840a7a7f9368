/** The static graph of a map: vertex interests, each vertex's list of conjoined
    edges, and the undirected weighted edges. Vertices are numbered 0..n-1 and
    vertex 0 is the start vertex; edges are numbered by their position in the
    map's edge list, which is the order in which they were created. */
module Graphs {

  datatype Option<T> = None | Some(value: T)

  /** The start vertex of every walk: the first vertex of the map. */
  const Start: nat := 0

  /** An undirected edge between two vertices, with its weight (travel time). */
  datatype Edge = Edge(first: nat, second: nat, weight: int)

  /** interest[v] is the reward of vertex v, conjoinedEdges[v] the indices of
      the edges registered at v, edges the map's edge list. */
  datatype Graph = Graph(interest: seq<int>, conjoinedEdges: seq<seq<nat>>, edges: seq<Edge>)

  /** Whether edge `e` joins `a` and `b`, in either orientation. */
  function IsConnecting(e: Edge, a: nat, b: nat): (r: bool)
    ensures r ==> (a == e.first || a == e.second) && (b == e.first || b == e.second)
    ensures a == e.first && b == e.second ==> r
    ensures a == e.second && b == e.first ==> r
  {
    (e.first == a && e.second == b) || (e.first == b && e.second == a)
  }

  lemma IsConnectingSymmetric(e: Edge, a: nat, b: nat)
    ensures IsConnecting(e, a, b) == IsConnecting(e, b, a)
  {
  }

  /** The edges registered at `u` by creating `edges` one after the other: each
      new edge is appended to its first endpoint's list and then to its second
      endpoint's list (a loop is therefore listed twice). */
  function IncidentEdges(edges: seq<Edge>, u: nat): seq<nat>
  {
    if |edges| == 0 then []
    else
      var k := |edges| - 1;
      IncidentEdges(edges[..k], u)
        + (if edges[k].first == u then [k] else [])
        + (if edges[k].second == u then [k] else [])
  }

  /** The list built for `u` holds exactly the edges that have `u` as an endpoint. */
  lemma {:induction false} IncidentEdgesMembers(edges: seq<Edge>, u: nat)
    ensures forall k: nat :: k in IncidentEdges(edges, u) <==>
      k < |edges| && (edges[k].first == u || edges[k].second == u)
  {
    if |edges| > 0 {
      var k := |edges| - 1;
      IncidentEdgesMembers(edges[..k], u);
    }
  }

  /** Every entry of `list` is below `m`. */
  ghost predicate Below(list: seq<nat>, m: nat)
  {
    forall i :: 0 <= i < |list| ==> list[i] < m
  }

  /** Every listed edge index is a valid index of the edge list. */
  ghost predicate Indexed(g: Graph)
  {
    |g.conjoinedEdges| == |g.interest| &&
    forall u :: 0 <= u < |g.conjoinedEdges| ==> Below(g.conjoinedEdges[u], |g.edges|)
  }

  /** Every endpoint of every edge is one of the `n` vertices. */
  ghost predicate EndpointsBelow(edges: seq<Edge>, n: nat)
  {
    forall k :: 0 <= k < |edges| ==> edges[k].first < n && edges[k].second < n
  }

  /** A graph as the map builds it: every endpoint is a vertex, and each vertex's
      list is the one that registering the edges in creation order produces. */
  ghost predicate WellFormed(g: Graph)
  {
    Indexed(g) && EndpointsBelow(g.edges, |g.interest|) &&
    forall u :: 0 <= u < |g.interest| ==> g.conjoinedEdges[u] == IncidentEdges(g.edges, u)
  }

  /** List<EdgeController>.Find with the predicate IsConnecting(u, v). */
  function FindConnecting(edges: seq<Edge>, list: seq<nat>, u: nat, v: nat): (r: Option<nat>)
    requires Below(list, |edges|)
    ensures r.Some? ==> r.value in list && r.value < |edges| && IsConnecting(edges[r.value], u, v)
    ensures r.None? <==> forall i :: 0 <= i < |list| ==> !IsConnecting(edges[list[i]], u, v)
  {
    if |list| == 0 then None
    else if IsConnecting(edges[list[0]], u, v) then Some(list[0])
    else FindConnecting(edges, list[1..], u, v)
  }

  /** The edge found is the first entry of the list that joins `u` and `v`. */
  lemma {:induction false} FindConnectingFirst(edges: seq<Edge>, list: seq<nat>, u: nat, v: nat)
    requires Below(list, |edges|)
    ensures FindConnecting(edges, list, u, v).Some? ==>
      exists i :: 0 <= i < |list| && list[i] == FindConnecting(edges, list, u, v).value &&
        forall j :: 0 <= j < i ==> !IsConnecting(edges[list[j]], u, v)
  {
    if |list| > 0 {
      if IsConnecting(edges[list[0]], u, v) {
        assert list[0] == FindConnecting(edges, list, u, v).value;
      } else {
        var tail := list[1..];
        FindConnectingFirst(edges, tail, u, v);
        var r := FindConnecting(edges, tail, u, v);
        if r.Some? {
          var i :| 0 <= i < |tail| && tail[i] == r.value &&
            forall j :: 0 <= j < i ==> !IsConnecting(edges[tail[j]], u, v);
          assert list[i + 1] == r.value;
          forall j | 0 <= j < i + 1
            ensures !IsConnecting(edges[list[j]], u, v)
          {
            if j > 0 {
              assert list[j] == tail[j - 1];
            }
          }
        }
      }
    }
  }

  /** Searching a concatenation finds the first list's answer if it has one. */
  lemma {:induction false} FindConnectingAppend(edges: seq<Edge>, xs: seq<nat>, ys: seq<nat>, u: nat, v: nat)
    requires Below(xs, |edges|) && Below(ys, |edges|)
    ensures Below(xs + ys, |edges|)
    ensures FindConnecting(edges, xs + ys, u, v) ==
      if FindConnecting(edges, xs, u, v).Some? then FindConnecting(edges, xs, u, v)
      else FindConnecting(edges, ys, u, v)
  {
    if |xs| > 0 {
      assert (xs + ys)[1..] == xs[1..] + ys;
      FindConnectingAppend(edges, xs[1..], ys, u, v);
    } else {
      assert xs + ys == ys;
    }
  }

  /** The lowest-numbered edge joining `u` and `v`, if any. */
  function FirstConnecting(edges: seq<Edge>, u: nat, v: nat): (r: Option<nat>)
    ensures r.Some? ==> (r.value < |edges| && IsConnecting(edges[r.value], u, v) &&
      forall k :: 0 <= k < r.value ==> !IsConnecting(edges[k], u, v))
    ensures r.None? ==> forall k :: 0 <= k < |edges| ==> !IsConnecting(edges[k], u, v)
  {
    if |edges| == 0 then None
    else
      var k := |edges| - 1;
      var p := FirstConnecting(edges[..k], u, v);
      if p.Some? then p
      else if IsConnecting(edges[k], u, v) then Some(k)
      else None
  }

  /** The lowest-numbered connecting edge does not depend on the order of the two vertices. */
  lemma FirstConnectingSymmetric(edges: seq<Edge>, u: nat, v: nat)
    ensures FirstConnecting(edges, u, v) == FirstConnecting(edges, v, u)
  {
    var a, b := FirstConnecting(edges, u, v), FirstConnecting(edges, v, u);
    if a.Some? {
      IsConnectingSymmetric(edges[a.value], u, v);
    }
    if b.Some? {
      IsConnectingSymmetric(edges[b.value], v, u);
    }
  }

  /** VertexExtension.GetConnectingEdge: the first edge in u's list joining u and v. */
  function GetConnectingEdge(g: Graph, u: nat, v: nat): (r: Option<nat>)
    requires Indexed(g) && u < |g.interest|
    ensures r.Some? ==> (r.value < |g.edges| && r.value in g.conjoinedEdges[u] &&
      IsConnecting(g.edges[r.value], u, v))
  {
    FindConnecting(g.edges, g.conjoinedEdges[u], u, v)
  }

  /** The list registered at `u` only names edges that exist. */
  lemma {:induction false} IncidentEdgesBelow(edges: seq<Edge>, u: nat)
    ensures Below(IncidentEdges(edges, u), |edges|)
  {
    if |edges| > 0 {
      IncidentEdgesBelow(edges[..|edges| - 1], u);
    }
  }

  /** Searching the list registered at `u` finds the lowest-numbered connecting edge. */
  lemma {:induction false} FindIncidentIsFirst(edges: seq<Edge>, u: nat, v: nat)
    ensures Below(IncidentEdges(edges, u), |edges|)
    ensures FindConnecting(edges, IncidentEdges(edges, u), u, v) == FirstConnecting(edges, u, v)
  {
    IncidentEdgesBelow(edges, u);
    if |edges| > 0 {
      var k := |edges| - 1;
      var prefix := edges[..k];
      var head := IncidentEdges(prefix, u);
      var tail := (if edges[k].first == u then [k] else []) + (if edges[k].second == u then [k] else []);
      FindIncidentIsFirst(prefix, u, v);
      assert IncidentEdges(edges, u) == head + tail;
      FindConnectingSameEdges(prefix, edges, head, u, v);
      FindInNewest(edges, u, v);
      FindConnectingAppend(edges, head, tail, u, v);
    }
  }

  /** Searching the entries the newest edge adds to u's list finds that edge
      exactly when it joins `u` and `v`. */
  lemma FindInNewest(edges: seq<Edge>, u: nat, v: nat)
    requires |edges| > 0
    ensures var k := |edges| - 1;
      var tail := (if edges[k].first == u then [k] else []) + (if edges[k].second == u then [k] else []);
      Below(tail, |edges|) &&
      FindConnecting(edges, tail, u, v) == if IsConnecting(edges[k], u, v) then Some(k) else None
  {
    var k := |edges| - 1;
    var tail := (if edges[k].first == u then [k] else []) + (if edges[k].second == u then [k] else []);
    assert forall i :: 0 <= i < |tail| ==> tail[i] == k;
    if |tail| > 0 {
      assert tail[1..] == [] || tail[1..] == [k];
    }
  }

  /** Find only looks at the listed edges, so extending the edge list does not change its answer. */
  lemma {:induction false} FindConnectingSameEdges(short: seq<Edge>, long: seq<Edge>, list: seq<nat>, u: nat, v: nat)
    requires short <= long
    requires Below(list, |short|)
    ensures FindConnecting(short, list, u, v) == FindConnecting(long, list, u, v)
  {
    if |list| > 0 {
      FindConnectingSameEdges(short, long, list[1..], u, v);
    }
  }

  /** The edge found from u's side is the lowest-numbered edge joining u and v. */
  lemma ConnectingEdgeIsFirst(g: Graph, u: nat, v: nat)
    requires WellFormed(g) && u < |g.interest|
    ensures GetConnectingEdge(g, u, v) == FirstConnecting(g.edges, u, v)
  {
    FindIncidentIsFirst(g.edges, u, v);
  }

  /** Looking the edge up from either endpoint gives the same edge, so the
      weight read at v's side equals the weight read at u's side. */
  lemma ConnectingEdgeSymmetric(g: Graph, u: nat, v: nat)
    requires WellFormed(g) && u < |g.interest| && v < |g.interest|
    ensures GetConnectingEdge(g, u, v) == GetConnectingEdge(g, v, u)
  {
    ConnectingEdgeIsFirst(g, u, v);
    ConnectingEdgeIsFirst(g, v, u);
    FirstConnectingSymmetric(g.edges, u, v);
  }

  /** The endpoint of `e` other than `u` (the second one when the first is `u`). */
  function Other(e: Edge, u: nat): nat
  {
    if e.first != u then e.first else e.second
  }

  /** VertexExtension.GetAdjacentVertices: one neighbour per listed edge, in list order. */
  function GetAdjacentVertices(g: Graph, u: nat): (r: seq<nat>)
    requires Indexed(g) && u < |g.interest|
    ensures |r| == |g.conjoinedEdges[u]|
    ensures WellFormed(g) ==> forall i :: 0 <= i < |r| ==>
      r[i] < |g.interest| && IsConnecting(g.edges[g.conjoinedEdges[u][i]], u, r[i])
  {
    var list := g.conjoinedEdges[u];
    assert forall i :: 0 <= i < |list| ==> list[i] in list;
    IncidentEdgesMembers(g.edges, u);
    seq(|list|, i requires 0 <= i < |list| => Other(g.edges[list[i]], u))
  }

  /** Every neighbour is reachable by a connecting edge, looked up from either side. */
  lemma AdjacentHasConnectingEdge(g: Graph, u: nat, v: nat)
    requires WellFormed(g) && u < |g.interest|
    requires v in GetAdjacentVertices(g, u)
    ensures v < |g.interest|
    ensures GetConnectingEdge(g, u, v).Some? && GetConnectingEdge(g, v, u).Some?
    ensures GetConnectingEdge(g, u, v) == GetConnectingEdge(g, v, u)
  {
    var adj := GetAdjacentVertices(g, u);
    var i :| 0 <= i < |adj| && adj[i] == v;
    var list := g.conjoinedEdges[u];
    assert list[i] in list && IsConnecting(g.edges[list[i]], u, v);
    ConnectingEdgeSymmetric(g, u, v);
  }
}
