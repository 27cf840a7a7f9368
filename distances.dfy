/** Distances from the start vertex as Map.FordBellman computes them.

    The program relaxes the edges in place, pass after pass. Its result is
    specified here through synchronous rounds: Bound(k) is what k rounds of
    relaxation, each reading only the previous round's values, give from the
    initial labelling (0 at the start, Infinity elsewhere). Bound(k)[v] is the
    length of the shortest walk of at most k edges from the start to v, or
    Infinity when there is none shorter. With non-negative weights the rounds
    are stable after |V| - 1 of them, which yields the shortest distances. */
module Distances {
  import opened Graphs
  import opened Paths

  /** The label FordBellman gives every vertex before the first pass. */
  const Infinity: int := 1000000

  function Min(a: int, b: int): int
  {
    if a <= b then a else b
  }

  ghost predicate NonNegativeWeights(edges: seq<Edge>)
  {
    forall k :: 0 <= k < |edges| ==> edges[k].weight >= 0
  }

  /** The labelling before the first pass. */
  function Initial(n: nat): (d: seq<int>)
    ensures |d| == n
    ensures forall v :: 0 <= v < n ==> d[v] == if v == Start then 0 else Infinity
  {
    seq(n, v => if v == Start then 0 else Infinity)
  }

  /** The label of `v` after one synchronous round over `edges`: the least of
      its label in `b` and, for every edge joining `v` to some `u`, the label
      of `u` in `b` plus the weight. */
  function Relaxed(b: seq<int>, edges: seq<Edge>, v: nat): int
    requires EndpointsBelow(edges, |b|) && v < |b|
  {
    if |edges| == 0 then b[v]
    else
      var e := edges[|edges| - 1];
      var r0 := Relaxed(b, edges[..|edges| - 1], v);
      var r1 := if e.second == v then Min(r0, b[e.first] + e.weight) else r0;
      if e.first == v then Min(r1, b[e.second] + e.weight) else r1
  }

  /** The relaxed label is at most the old one and at most the label of every
      neighbour plus the joining edge's weight; it is one of these values. */
  lemma {:induction false} RelaxedBounds(b: seq<int>, edges: seq<Edge>, v: nat)
    requires EndpointsBelow(edges, |b|) && v < |b|
    ensures Relaxed(b, edges, v) <= b[v]
    ensures forall k :: 0 <= k < |edges| && edges[k].second == v ==>
      Relaxed(b, edges, v) <= b[edges[k].first] + edges[k].weight
    ensures forall k :: 0 <= k < |edges| && edges[k].first == v ==>
      Relaxed(b, edges, v) <= b[edges[k].second] + edges[k].weight
    ensures Relaxed(b, edges, v) == b[v] ||
      exists k :: 0 <= k < |edges| && Candidate(b, edges[k], v, Relaxed(b, edges, v))
  {
    if |edges| > 0 {
      var m := |edges| - 1;
      var e := edges[m];
      RelaxedBounds(b, edges[..m], v);
      assert forall k :: 0 <= k < m ==> edges[..m][k] == edges[k];
      var r0 := Relaxed(b, edges[..m], v);
      var r := Relaxed(b, edges, v);
      assert r == r0 || Candidate(b, e, v, r);
    }
  }

  /** `r` is the label in `b` of the other endpoint of `e` plus its weight. */
  ghost predicate Candidate(b: seq<int>, e: Edge, v: nat, r: int)
    requires e.first < |b| && e.second < |b|
  {
    (e.second == v && r == b[e.first] + e.weight) || (e.first == v && r == b[e.second] + e.weight)
  }

  /** One synchronous round: every label relaxed over all edges, reading only `b`. */
  function Round(b: seq<int>, edges: seq<Edge>): (r: seq<int>)
    requires EndpointsBelow(edges, |b|)
    ensures |r| == |b|
  {
    seq(|b|, v requires 0 <= v < |b| => Relaxed(b, edges, v))
  }

  /** Any labelling below `b` that respects every edge with respect to `b` is below the round's result. */
  lemma RoundIsGreatest(b: seq<int>, edges: seq<Edge>, d: seq<int>)
    requires EndpointsBelow(edges, |b|) && |d| == |b|
    requires forall v :: 0 <= v < |b| ==> d[v] <= b[v]
    requires forall k :: 0 <= k < |edges| ==>
      d[edges[k].second] <= b[edges[k].first] + edges[k].weight &&
      d[edges[k].first] <= b[edges[k].second] + edges[k].weight
    ensures forall v :: 0 <= v < |b| ==> d[v] <= Round(b, edges)[v]
  {
    forall v | 0 <= v < |b|
      ensures d[v] <= Relaxed(b, edges, v)
    {
      var r := Relaxed(b, edges, v);
      RelaxedBounds(b, edges, v);
      if r != b[v] {
        var k :| 0 <= k < |edges| && Candidate(b, edges[k], v, r);
      }
    }
  }

  /** The labelling after `k` synchronous rounds. */
  function Bound(n: nat, edges: seq<Edge>, k: nat): (d: seq<int>)
    requires EndpointsBelow(edges, n)
    ensures |d| == n
  {
    if k == 0 then Initial(n) else Round(Bound(n, edges, k - 1), edges)
  }

  /** Rounds only lower labels: every label lies between the next round's and the initial one. */
  lemma {:induction false} BoundDecreasing(n: nat, edges: seq<Edge>, k: nat)
    requires EndpointsBelow(edges, n)
    ensures forall v :: 0 <= v < n ==> Bound(n, edges, k + 1)[v] <= Bound(n, edges, k)[v]
    ensures forall v :: 0 <= v < n ==> Bound(n, edges, k)[v] <= Initial(n)[v]
  {
    if k > 0 {
      BoundDecreasing(n, edges, k - 1);
    }
    var b := Bound(n, edges, k);
    forall v | 0 <= v < n
      ensures Bound(n, edges, k + 1)[v] <= b[v]
    {
      RelaxedBounds(b, edges, v);
    }
  }

  /** A walk from the start: vertices `vs` starting at the start vertex, and
      for each step the index of an edge joining the two vertices. */
  ghost predicate Walk(edges: seq<Edge>, vs: seq<nat>, ks: seq<nat>)
  {
    |vs| == |ks| + 1 && vs[0] == Start && Below(ks, |edges|) &&
    forall i :: 0 <= i < |ks| ==> IsConnecting(edges[ks[i]], vs[i], vs[i + 1])
  }

  /** Cutting the last step off a walk leaves a walk. */
  lemma WalkPrefix(edges: seq<Edge>, vs: seq<nat>, ks: seq<nat>)
    requires Walk(edges, vs, ks) && |ks| > 0
    ensures Walk(edges, vs[..|vs| - 1], ks[..|ks| - 1])
    ensures StepsWeight(edges, ks) ==
      StepsWeight(edges, ks[..|ks| - 1]) + edges[ks[|ks| - 1]].weight
  {
  }

  /** k rounds give every vertex at most the length of any walk of at most k edges to it. */
  lemma {:induction false} WalkUpper(n: nat, edges: seq<Edge>, k: nat, vs: seq<nat>, ks: seq<nat>)
    requires EndpointsBelow(edges, n) && n > 0
    requires Walk(edges, vs, ks) && |ks| <= k && Last(vs) < n
    ensures Bound(n, edges, k)[Last(vs)] <= StepsWeight(edges, ks)
  {
    if |ks| == 0 {
      BoundDecreasing(n, edges, k);
      assert Last(vs) == Start && Initial(n)[Start] == 0 && StepsWeight(edges, ks) == 0;
    } else {
      var u, j := vs[|vs| - 2], ks[|ks| - 1];
      WalkPrefix(edges, vs, ks);
      WalkUpper(n, edges, k - 1, vs[..|vs| - 1], ks[..|ks| - 1]);
      BoundByEdge(n, edges, k, j, u, Last(vs));
      assert StepsWeight(edges, ks) == StepsWeight(edges, ks[..|ks| - 1]) + edges[j].weight;
    }
  }

  /** A round lowers the label of `v` to at most the previous label of a neighbour `u` plus the joining edge's weight. */
  lemma BoundByEdge(n: nat, edges: seq<Edge>, k: nat, j: nat, u: nat, v: nat)
    requires EndpointsBelow(edges, n) && k > 0 && v < n && j < |edges| && IsConnecting(edges[j], u, v)
    ensures u < n && Bound(n, edges, k)[v] <= Bound(n, edges, k - 1)[u] + edges[j].weight
  {
    var b := Bound(n, edges, k - 1);
    assert Bound(n, edges, k)[v] == Relaxed(b, edges, v);
    RelaxedByEdge(b, edges, j, u, v);
  }

  /** The relaxed label of `v` is at most the label of a neighbour `u` plus the joining edge's weight. */
  lemma RelaxedByEdge(b: seq<int>, edges: seq<Edge>, j: nat, u: nat, v: nat)
    requires EndpointsBelow(edges, |b|) && v < |b| && j < |edges| && IsConnecting(edges[j], u, v)
    ensures u < |b| && Relaxed(b, edges, v) <= b[u] + edges[j].weight
  {
    var r := Relaxed(b, edges, v);
    RelaxedBounds(b, edges, v);
    if edges[j].second == v && edges[j].first == u {
      assert r <= b[edges[j].first] + edges[j].weight;
    } else {
      assert r <= b[edges[j].second] + edges[j].weight;
    }
  }

  /** A finite label after k rounds is the length of some walk of at most k edges. */
  lemma {:induction false} WalkWitness(n: nat, edges: seq<Edge>, k: nat, v: nat)
    requires EndpointsBelow(edges, n) && NonNegativeWeights(edges)
    requires v < n && Bound(n, edges, k)[v] < Infinity
    ensures exists vs, ks :: (Walk(edges, vs, ks) && |ks| <= k && Last(vs) == v &&
      StepsWeight(edges, ks) == Bound(n, edges, k)[v])
  {
    if k == 0 {
      assert Walk(edges, [Start], []);
    } else {
      var b := Bound(n, edges, k - 1);
      var r := Bound(n, edges, k);
      if r[v] == b[v] {
        WalkWitness(n, edges, k - 1, v);
        var vs, ks :| Walk(edges, vs, ks) && |ks| <= k - 1 && Last(vs) == v &&
          StepsWeight(edges, ks) == b[v];
      } else {
        assert r[v] == Relaxed(b, edges, v);
        RelaxedFromNeighbour(b, edges, v);
        var j: nat, u: nat :| j < |edges| && u < n && IsConnecting(edges[j], u, v) &&
          r[v] == b[u] + edges[j].weight;
        WalkWitness(n, edges, k - 1, u);
        var vs, ks :| Walk(edges, vs, ks) && |ks| <= k - 1 && Last(vs) == u &&
          StepsWeight(edges, ks) == b[u];
        WalkExtend(edges, vs, ks, j, v);
      }
    }
  }

  /** A relaxed label that differs from the old one comes from a neighbour across some edge. */
  lemma RelaxedFromNeighbour(b: seq<int>, edges: seq<Edge>, v: nat)
    requires EndpointsBelow(edges, |b|) && v < |b| && Relaxed(b, edges, v) != b[v]
    ensures exists j: nat, u: nat :: (j < |edges| && u < |b| && IsConnecting(edges[j], u, v) &&
      Relaxed(b, edges, v) == b[u] + edges[j].weight)
  {
    var r := Relaxed(b, edges, v);
    RelaxedBounds(b, edges, v);
    var j: nat :| j < |edges| && Candidate(b, edges[j], v, r);
    if edges[j].second == v && r == b[edges[j].first] + edges[j].weight {
      assert IsConnecting(edges[j], edges[j].first, v);
    } else {
      assert IsConnecting(edges[j], edges[j].second, v);
    }
  }

  /** A walk to `u` followed by an edge joining `u` and `v` is a walk to `v`. */
  lemma WalkExtend(edges: seq<Edge>, vs: seq<nat>, ks: seq<nat>, j: nat, v: nat)
    requires Walk(edges, vs, ks) && j < |edges| && IsConnecting(edges[j], Last(vs), v)
    ensures Walk(edges, vs + [v], ks + [j]) && Last(vs + [v]) == v
    ensures StepsWeight(edges, ks + [j]) == StepsWeight(edges, ks) + edges[j].weight
  {
    StepsWeightAppend(edges, ks, j);
    var vs2, ks2 := vs + [v], ks + [j];
    forall t | 0 <= t < |ks2|
      ensures IsConnecting(edges[ks2[t]], vs2[t], vs2[t + 1])
    {
      if t < |ks| {
        assert ks2[t] == ks[t] && vs2[t] == vs[t] && vs2[t + 1] == vs[t + 1];
      }
    }
  }

  lemma {:induction false} StepsWeightConcat(edges: seq<Edge>, a: seq<nat>, b: seq<nat>)
    requires Below(a, |edges|) && Below(b, |edges|)
    ensures Below(a + b, |edges|)
    ensures StepsWeight(edges, a + b) == StepsWeight(edges, a) + StepsWeight(edges, b)
  {
    if |b| > 0 {
      var m := |b| - 1;
      assert (a + b)[..|a + b| - 1] == a + b[..m];
      StepsWeightConcat(edges, a, b[..m]);
    } else {
      assert a + b == a;
    }
  }

  lemma {:induction false} StepsWeightNonNegative(edges: seq<Edge>, ks: seq<nat>)
    requires Below(ks, |edges|) && NonNegativeWeights(edges)
    ensures StepsWeight(edges, ks) >= 0
  {
    if |ks| > 0 {
      StepsWeightNonNegative(edges, ks[..|ks| - 1]);
    }
  }

  /** A walk through more than `n` vertices below `n` visits some vertex twice. */
  lemma {:induction false} Pigeonhole(vs: seq<nat>, n: nat)
    requires n > 0 && Below(vs, n) && |vs| > n
    ensures exists i, j :: 0 <= i < j < |vs| && vs[i] == vs[j]
  {
    if n == 1 {
      assert vs[0] == vs[1];
    } else if n - 1 !in vs {
      Pigeonhole(vs, n - 1);
    } else {
      var p :| 0 <= p < |vs| && vs[p] == n - 1;
      var rest := vs[..p] + vs[p + 1..];
      assert forall q :: 0 <= q < |rest| ==> rest[q] == vs[if q < p then q else q + 1];
      if n - 1 in rest {
        var q :| 0 <= q < |rest| && rest[q] == n - 1;
        if q < p {
          assert vs[q] == vs[p];
        } else {
          assert vs[p] == vs[q + 1];
        }
      } else {
        Pigeonhole(rest, n - 1);
        var i, j :| 0 <= i < j < |rest| && rest[i] == rest[j];
        var i', j' := if i < p then i else i + 1, if j < p then j else j + 1;
        assert vs[i'] == vs[j'];
      }
    }
  }

  /** Removing a closed sub-walk leaves a walk to the same vertex that is strictly shorter in steps and no longer in weight. */
  lemma ShortCut(edges: seq<Edge>, vs: seq<nat>, ks: seq<nat>, n: nat)
    requires Walk(edges, vs, ks) && NonNegativeWeights(edges)
    requires n > 0 && Below(vs, n) && |ks| >= n
    ensures exists vs2, ks2 :: (Walk(edges, vs2, ks2) && |ks2| < |ks| && Last(vs2) == Last(vs) &&
      Below(vs2, n) && StepsWeight(edges, ks2) <= StepsWeight(edges, ks))
  {
    Pigeonhole(vs, n);
    var i, j :| 0 <= i < j < |vs| && vs[i] == vs[j];
    CutWalk(edges, vs, ks, i, j);
    CutWeight(edges, ks, i, j);
    var vs2 := vs[..i] + vs[j..];
    assert Last(vs2) == Last(vs);
    assert Below(vs2, n) by {
      forall t | 0 <= t < |vs2|
        ensures vs2[t] < n
      {
        if t >= i {
          assert vs2[t] == vs[t - i + j];
        }
      }
    }
  }

  /** Cutting out the steps between two visits of the same vertex leaves a walk. */
  lemma CutWalk(edges: seq<Edge>, vs: seq<nat>, ks: seq<nat>, i: nat, j: nat)
    requires Walk(edges, vs, ks) && i < j < |vs| && vs[i] == vs[j]
    ensures Walk(edges, vs[..i] + vs[j..], ks[..i] + ks[j..])
  {
    var vs2 := vs[..i] + vs[j..];
    var ks2 := ks[..i] + ks[j..];
    assert |vs2| == |ks2| + 1;
    forall t | 0 <= t < |ks2|
      ensures IsConnecting(edges[ks2[t]], vs2[t], vs2[t + 1])
    {
      if t < i {
        assert ks2[t] == ks[t] && vs2[t] == vs[t];
        if t + 1 < i {
          assert vs2[t + 1] == vs[t + 1];
        } else {
          assert vs2[t + 1] == vs[j] == vs[t + 1];
        }
      } else {
        assert ks2[t] == ks[t - i + j] && vs2[t] == vs[t - i + j] && vs2[t + 1] == vs[t + 1 - i + j];
      }
    }
    assert vs2[0] == Start by {
      if i == 0 {
        assert vs2[0] == vs[j] == vs[0];
      }
    }
    assert Below(ks2, |edges|) by {
      forall t | 0 <= t < |ks2|
        ensures ks2[t] < |edges|
      {
        if t >= i {
          assert ks2[t] == ks[t - i + j];
        }
      }
    }
  }

  /** With non-negative weights, cutting steps out never makes a walk longer. */
  lemma CutWeight(edges: seq<Edge>, ks: seq<nat>, i: nat, j: nat)
    requires Below(ks, |edges|) && NonNegativeWeights(edges) && i <= j <= |ks|
    ensures Below(ks[..i] + ks[j..], |edges|)
    ensures StepsWeight(edges, ks[..i] + ks[j..]) <= StepsWeight(edges, ks)
  {
    assert ks == ks[..i] + ks[i..j] + ks[j..];
    StepsWeightConcat(edges, ks[..i], ks[i..j]);
    StepsWeightConcat(edges, ks[..i] + ks[i..j], ks[j..]);
    StepsWeightConcat(edges, ks[..i], ks[j..]);
    StepsWeightNonNegative(edges, ks[i..j]);
  }

  /** Every walk can be shortened to fewer than `n` steps without growing longer. */
  lemma {:induction false} ShortWalk(edges: seq<Edge>, vs: seq<nat>, ks: seq<nat>, n: nat)
    requires Walk(edges, vs, ks) && NonNegativeWeights(edges) && n > 0 && Below(vs, n)
    ensures exists vs2, ks2 :: (Walk(edges, vs2, ks2) && |ks2| < n && Last(vs2) == Last(vs) &&
      StepsWeight(edges, ks2) <= StepsWeight(edges, ks))
    decreases |ks|
  {
    if |ks| >= n {
      ShortCut(edges, vs, ks, n);
      var vs2, ks2 :| Walk(edges, vs2, ks2) && |ks2| < |ks| && Last(vs2) == Last(vs) &&
        Below(vs2, n) && StepsWeight(edges, ks2) <= StepsWeight(edges, ks);
      ShortWalk(edges, vs2, ks2, n);
    }
  }

  /** The labels after |V| - 1 rounds: the shortest distances from the start, capped at Infinity. */
  function Shortest(n: nat, edges: seq<Edge>): (d: seq<int>)
    requires EndpointsBelow(edges, n) && n > 0
    ensures |d| == n
  {
    Bound(n, edges, n - 1)
  }

  /** With non-negative weights a further round changes nothing. */
  lemma BoundStable(n: nat, edges: seq<Edge>)
    requires EndpointsBelow(edges, n) && NonNegativeWeights(edges) && n > 0
    ensures Bound(n, edges, n) == Shortest(n, edges)
  {
    var b, r := Bound(n, edges, n - 1), Bound(n, edges, n);
    BoundDecreasing(n, edges, n - 1);
    BoundDecreasing(n, edges, n);
    forall v | 0 <= v < n
      ensures r[v] == b[v]
    {
      if r[v] < Infinity {
        WalkWitness(n, edges, n, v);
        var vs, ks :| Walk(edges, vs, ks) && |ks| <= n && Last(vs) == v && StepsWeight(edges, ks) == r[v];
        ShortestIsLowerBound(n, edges, vs, ks);
      }
    }
  }

  /** The vertices of a walk are endpoints of its edges, so they are below `n`. */
  lemma WalkVerticesBelow(edges: seq<Edge>, vs: seq<nat>, ks: seq<nat>, n: nat)
    requires Walk(edges, vs, ks) && EndpointsBelow(edges, n) && n > 0
    ensures Below(vs, n)
  {
    forall i | 0 <= i < |vs|
      ensures vs[i] < n
    {
      if i > 0 {
        assert IsConnecting(edges[ks[i - 1]], vs[i - 1], vs[i]);
      }
    }
  }

  /** With non-negative weights no edge can relax the shortest distances any further. */
  lemma ShortestIsRelaxed(n: nat, edges: seq<Edge>)
    requires EndpointsBelow(edges, n) && NonNegativeWeights(edges) && n > 0
    ensures forall k :: 0 <= k < |edges| ==>
      Shortest(n, edges)[edges[k].second] <= Shortest(n, edges)[edges[k].first] + edges[k].weight &&
      Shortest(n, edges)[edges[k].first] <= Shortest(n, edges)[edges[k].second] + edges[k].weight
  {
    var d := Shortest(n, edges);
    BoundStable(n, edges);
    forall k | 0 <= k < |edges|
      ensures d[edges[k].second] <= d[edges[k].first] + edges[k].weight
      ensures d[edges[k].first] <= d[edges[k].second] + edges[k].weight
    {
      BoundByEdge(n, edges, n, k, edges[k].first, edges[k].second);
      BoundByEdge(n, edges, n, k, edges[k].second, edges[k].first);
    }
  }

  /** The start is at distance 0 and every distance lies within [0, Infinity]. */
  lemma ShortestRange(n: nat, edges: seq<Edge>)
    requires EndpointsBelow(edges, n) && NonNegativeWeights(edges) && n > 0
    ensures Shortest(n, edges)[Start] == 0
    ensures forall v :: 0 <= v < n ==> 0 <= Shortest(n, edges)[v] <= Infinity
  {
    var d := Shortest(n, edges);
    BoundDecreasing(n, edges, n - 1);
    forall v | 0 <= v < n
      ensures 0 <= d[v]
    {
      if d[v] < Infinity {
        WalkWitness(n, edges, n - 1, v);
        var vs, ks :| Walk(edges, vs, ks) && |ks| <= n - 1 && Last(vs) == v && StepsWeight(edges, ks) == d[v];
        StepsWeightNonNegative(edges, ks);
      }
    }
  }

  /** The shortest distance is at most the length of every walk from the start. */
  lemma ShortestIsLowerBound(n: nat, edges: seq<Edge>, vs: seq<nat>, ks: seq<nat>)
    requires EndpointsBelow(edges, n) && NonNegativeWeights(edges) && n > 0
    requires Walk(edges, vs, ks)
    ensures Last(vs) < n && Shortest(n, edges)[Last(vs)] <= StepsWeight(edges, ks)
  {
    WalkVerticesBelow(edges, vs, ks, n);
    ShortWalk(edges, vs, ks, n);
    var vs2, ks2 :| Walk(edges, vs2, ks2) && |ks2| < n && Last(vs2) == Last(vs) &&
      StepsWeight(edges, ks2) <= StepsWeight(edges, ks);
    WalkUpper(n, edges, n - 1, vs2, ks2);
  }

  /** A walk the search builds from the start, with the edges GraphPath.Add looks
      up as its steps, is a walk in the sense used here (which lets any joining
      edge stand for a step, as the relaxation rounds do). */
  lemma {:induction false} SearchWalkIsWalk(g: Graph, vs: seq<nat>)
    requires IsWalk(g, vs) && |vs| > 0 && vs[0] == Start
    ensures Walk(g.edges, vs, Steps(g, vs))
  {
    if |vs| > 1 {
      var p := vs[..|vs| - 1];
      assert Linked(g, vs, |vs| - 1);
      assert IsWalk(g, p) by {
        forall i | 0 < i < |p|
          ensures Linked(g, p, i)
        {
          assert Linked(g, vs, i);
        }
      }
      SearchWalkIsWalk(g, p);
      var ks := Steps(g, vs);
      assert ks == Steps(g, p) + [GetConnectingEdge(g, vs[|vs| - 2], vs[|vs| - 1]).value];
      forall i | 0 <= i < |ks|
        ensures IsConnecting(g.edges[ks[i]], vs[i], vs[i + 1])
      {
        if i < |ks| - 1 {
          assert ks[i] == Steps(g, p)[i] && vs[i] == p[i] && vs[i + 1] == p[i + 1];
        }
      }
    }
  }

  /** With non-negative weights, the time of a search walk from the start is at
      least the distance FordBellman computes for the vertex it ends at. */
  lemma SearchWalkTime(g: Graph, vs: seq<nat>)
    requires WellFormed(g) && NonNegativeWeights(g.edges) && |g.interest| > 0
    requires IsWalk(g, vs) && |vs| > 0 && vs[0] == Start
    ensures Shortest(|g.interest|, g.edges)[Last(vs)] <= StepsWeight(g.edges, Steps(g, vs))
  {
    SearchWalkIsWalk(g, vs);
    ShortestIsLowerBound(|g.interest|, g.edges, vs, Steps(g, vs));
  }
}
