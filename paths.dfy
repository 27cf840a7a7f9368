/** Paths through a map and the GraphPath record that the search extends one
    vertex at a time: the visited vertices, the distinct edges used with their
    traversal counts, the collected interest and the elapsed time. */
module Paths {
  import opened Graphs

  function Last(s: seq<nat>): nat
    requires |s| > 0
  {
    s[|s| - 1]
  }

  /** `vs` is a walk: its vertices belong to the graph and every two consecutive
      vertices are joined by an edge registered at the first of them. */
  ghost predicate IsWalk(g: Graph, vs: seq<nat>)
  {
    Indexed(g) && Below(vs, |g.interest|) &&
    forall i :: 0 < i < |vs| ==> Linked(g, vs, i)
  }

  /** The `i`-th vertex of `vs` is joined to the one before it. */
  ghost predicate Linked(g: Graph, vs: seq<nat>, i: int)
  {
    Indexed(g) && 0 < i < |vs| && vs[i - 1] < |g.interest| &&
    GetConnectingEdge(g, vs[i - 1], vs[i]).Some?
  }

  /** The edge traversed at each step of a walk, as GraphPath.Add looks it up. */
  ghost function Steps(g: Graph, vs: seq<nat>): (r: seq<nat>)
    requires IsWalk(g, vs)
    ensures |r| == if |vs| == 0 then 0 else |vs| - 1
    ensures Below(r, |g.edges|)
  {
    if |vs| <= 1 then []
    else
      var p := vs[..|vs| - 1];
      assert Linked(g, vs, |vs| - 1);
      assert IsWalk(g, p) by {
        forall i | 0 < i < |p|
          ensures Linked(g, p, i)
        {
          assert Linked(g, vs, i);
        }
      }
      Steps(g, p) + [GetConnectingEdge(g, vs[|vs| - 2], vs[|vs| - 1]).value]
  }

  /** The edge GraphPath.Add traverses when it appends `v` to `vs`. */
  function StepEdge(g: Graph, vs: seq<nat>, v: nat): (e: nat)
    requires Indexed(g) && |vs| > 0 && Last(vs) < |g.interest|
    requires GetConnectingEdge(g, Last(vs), v).Some?
    ensures e < |g.edges| && IsConnecting(g.edges[e], Last(vs), v)
  {
    GetConnectingEdge(g, Last(vs), v).value
  }

  /** Extending a walk by a vertex joined to its last vertex extends its steps by that edge. */
  lemma StepsAppend(g: Graph, vs: seq<nat>, v: nat)
    requires IsWalk(g, vs) && |vs| > 0 && v < |g.interest|
    requires GetConnectingEdge(g, Last(vs), v).Some?
    ensures IsWalk(g, vs + [v])
    ensures Steps(g, vs + [v]) == Steps(g, vs) + [GetConnectingEdge(g, Last(vs), v).value]
  {
    var w := vs + [v];
    assert w[..|vs|] == vs;
    forall i | 0 < i < |w|
      ensures Linked(g, w, i)
    {
      if i < |vs| {
        assert Linked(g, vs, i);
      }
    }
    assert w[|w| - 2] == Last(vs) && w[|w| - 1] == v;
  }

  /** The total weight of a sequence of edges. */
  function StepsWeight(edges: seq<Edge>, steps: seq<nat>): int
    requires Below(steps, |edges|)
  {
    if |steps| == 0 then 0
    else StepsWeight(edges, steps[..|steps| - 1]) + edges[steps[|steps| - 1]].weight
  }

  lemma StepsWeightAppend(edges: seq<Edge>, steps: seq<nat>, e: nat)
    requires Below(steps, |edges|) && e < |edges|
    ensures Below(steps + [e], |edges|)
    ensures StepsWeight(edges, steps + [e]) == StepsWeight(edges, steps) + edges[e].weight
  {
    assert (steps + [e])[..|steps|] == steps;
  }

  /** The interest collected along `vs` when each vertex pays off only on its
      first visit, accumulated in visiting order as GraphPath.Add does. */
  function DistinctInterest(interest: seq<int>, vs: seq<nat>): int
    requires Below(vs, |interest|)
  {
    if |vs| == 0 then 0
    else
      var p := vs[..|vs| - 1];
      DistinctInterest(interest, p) + (if Last(vs) in p then 0 else interest[Last(vs)])
  }

  lemma DistinctInterestAppend(interest: seq<int>, vs: seq<nat>, v: nat)
    requires Below(vs, |interest|) && v < |interest|
    ensures Below(vs + [v], |interest|)
    ensures DistinctInterest(interest, vs + [v]) ==
      DistinctInterest(interest, vs) + (if v in vs then 0 else interest[v])
  {
    assert (vs + [v])[..|vs|] == vs;
  }

  /** Reference definition of the distinct-vertex sum: the interest of every
      vertex below `m` that occurs in `vs`, each counted once. */
  function IndicatorSum(interest: seq<int>, vs: seq<nat>, m: nat): int
    requires m <= |interest|
  {
    if m == 0 then 0
    else IndicatorSum(interest, vs, m - 1) + (if m - 1 in vs then interest[m - 1] else 0)
  }

  /** The sum of all interests (Map.MaxInterest). */
  function SumInterest(interest: seq<int>): int
  {
    if |interest| == 0 then 0
    else SumInterest(interest[..|interest| - 1]) + interest[|interest| - 1]
  }

  ghost predicate NonNegative(interest: seq<int>)
  {
    forall i :: 0 <= i < |interest| ==> interest[i] >= 0
  }

  /** The indicator sum only depends on which vertices occur. */
  lemma {:induction false} IndicatorSumSameMembers(interest: seq<int>, a: seq<nat>, b: seq<nat>, m: nat)
    requires m <= |interest|
    requires forall x :: x < m ==> (x in a <==> x in b)
    ensures IndicatorSum(interest, a, m) == IndicatorSum(interest, b, m)
  {
    if m > 0 {
      IndicatorSumSameMembers(interest, a, b, m - 1);
    }
  }

  /** A vertex not yet on the path adds its interest exactly once. */
  lemma {:induction false} IndicatorSumAddNew(interest: seq<int>, vs: seq<nat>, x: nat, m: nat)
    requires m <= |interest| && x !in vs
    ensures IndicatorSum(interest, vs + [x], m) ==
      IndicatorSum(interest, vs, m) + (if x < m then interest[x] else 0)
  {
    if m > 0 {
      IndicatorSumAddNew(interest, vs, x, m - 1);
      assert (m - 1 in vs + [x]) <==> (m - 1 in vs || m - 1 == x);
    }
  }

  /** The interest accumulated visit by visit is the distinct-vertex sum. */
  lemma {:induction false} DistinctInterestIsIndicatorSum(interest: seq<int>, vs: seq<nat>)
    requires Below(vs, |interest|)
    ensures DistinctInterest(interest, vs) == IndicatorSum(interest, vs, |interest|)
  {
    if |vs| > 0 {
      var p, x := vs[..|vs| - 1], Last(vs);
      assert vs == p + [x];
      assert Below(p, |interest|) && x < |interest|;
      DistinctInterestIsIndicatorSum(interest, p);
      assert DistinctInterest(interest, vs) ==
        IndicatorSum(interest, p, |interest|) + (if x in p then 0 else interest[x]);
      if x in p {
        forall y | y < |interest|
          ensures y in vs <==> y in p
        {
          assert y in vs ==> y in p || y == x;
        }
        IndicatorSumSameMembers(interest, vs, p, |interest|);
      } else {
        IndicatorSumAddNew(interest, p, x, |interest|);
      }
    } else {
      IndicatorSumEmpty(interest, |interest|);
    }
  }

  lemma {:induction false} IndicatorSumEmpty(interest: seq<int>, m: nat)
    requires m <= |interest|
    ensures IndicatorSum(interest, [], m) == 0
  {
    if m > 0 {
      IndicatorSumEmpty(interest, m - 1);
    }
  }

  /** With non-negative interests the distinct-vertex sum lies between 0 and the sum of all interests. */
  lemma {:induction false} IndicatorSumBounds(interest: seq<int>, vs: seq<nat>, m: nat)
    requires m <= |interest| && NonNegative(interest)
    ensures 0 <= IndicatorSum(interest, vs, m) <= SumInterest(interest[..m])
  {
    if m > 0 {
      IndicatorSumBounds(interest, vs, m - 1);
      assert interest[..m][..m - 1] == interest[..m - 1];
    }
  }

  /** The first position of `x` in `s`, or -1 when it does not occur (List.IndexOf). */
  function IndexOf(s: seq<nat>, x: nat): (r: int)
    ensures r < 0 <==> x !in s
    ensures 0 <= r ==> r < |s| && s[r] == x && x !in s[..r]
  {
    if |s| == 0 then -1
    else if s[0] == x then 0
    else
      var k := IndexOf(s[1..], x);
      if k < 0 then -1
      else
        assert s[..k + 1] == [s[0]] + s[1..][..k];
        k + 1
  }

  /** No index occurs twice in `s`. */
  ghost predicate Distinct(s: seq<nat>)
  {
    forall i, j :: 0 <= i < j < |s| ==> s[i] != s[j]
  }

  /** `es` lists each edge traversed by `vs` once, in order of first use, `cs`
      says how often each was traversed (never more than twice), `i` is the
      distinct-vertex sum of `vs` and `t` its total weight. */
  ghost predicate Consistent(g: Graph, vs: seq<nat>, es: seq<nat>, cs: seq<int>, i: int, t: int)
  {
    IsWalk(g, vs) &&
    (es, cs) == Tally(Steps(g, vs)) && |es| == |cs| && AtMostTwice(cs) &&
    i == DistinctInterest(g.interest, vs) &&
    t == StepsWeight(g.edges, Steps(g, vs))
  }

  ghost predicate AtMostTwice(cs: seq<int>)
  {
    forall j :: 0 <= j < |cs| ==> cs[j] <= 2
  }

  /** The edge list and the counts GraphPath keeps for `steps`, counting one step at a time. */
  function Tally(steps: seq<nat>): (seq<nat>, seq<int>)
  {
    if |steps| == 0 then ([], [])
    else Bump(Tally(steps[..|steps| - 1]), steps[|steps| - 1])
  }

  /** One more traversal of `e`: a new edge is appended with count 1, a known
      one has its count raised. */
  function Bump(t: (seq<nat>, seq<int>), e: nat): (seq<nat>, seq<int>)
  {
    var idx := IndexOf(t.0, e);
    if idx < 0 then (t.0 + [e], t.1 + [1])
    else if idx < |t.1| then (t.0, t.1[idx := t.1[idx] + 1])
    else t
  }

  /** How often edge `e` occurs in `steps`. */
  function Traversals(steps: seq<nat>, e: nat): nat
  {
    if |steps| == 0 then 0
    else Traversals(steps[..|steps| - 1], e) + (if steps[|steps| - 1] == e then 1 else 0)
  }

  lemma TraversalsAppend(steps: seq<nat>, x: nat, e: nat)
    ensures Traversals(steps + [x], e) == Traversals(steps, e) + (if x == e then 1 else 0)
  {
    assert (steps + [x])[..|steps|] == steps;
  }

  /** An edge occurs at most once per step, and at all exactly when it is one of the steps. */
  lemma {:induction false} TraversalsBounds(steps: seq<nat>, e: nat)
    ensures Traversals(steps, e) <= |steps|
    ensures Traversals(steps, e) == 0 <==> e !in steps
  {
    if |steps| > 0 {
      var p := steps[..|steps| - 1];
      TraversalsBounds(p, e);
      assert steps == p + [steps[|steps| - 1]];
    }
  }

  /** What the tally records: every traversed edge exactly once, and for each
      the number of times it was traversed. */
  lemma {:induction false} TallyCounts(steps: seq<nat>)
    ensures |Tally(steps).0| == |Tally(steps).1|
    ensures Distinct(Tally(steps).0)
    ensures forall e :: e in Tally(steps).0 <==> e in steps
    ensures forall j :: 0 <= j < |Tally(steps).0| ==> Tally(steps).1[j] == Traversals(steps, Tally(steps).0[j])
  {
    if |steps| > 0 {
      var p := steps[..|steps| - 1];
      var x := steps[|steps| - 1];
      TallyCounts(p);
      assert steps == p + [x];
      TallyCountsStep(p, x);
    }
  }

  lemma TallyCountsStep(p: seq<nat>, x: nat)
    requires |Tally(p).0| == |Tally(p).1| && Distinct(Tally(p).0)
    requires forall e :: e in Tally(p).0 <==> e in p
    requires forall j :: 0 <= j < |Tally(p).0| ==> Tally(p).1[j] == Traversals(p, Tally(p).0[j])
    ensures Tally(p + [x]) == Bump(Tally(p), x)
    ensures |Tally(p + [x]).0| == |Tally(p + [x]).1|
    ensures Distinct(Tally(p + [x]).0)
    ensures forall e :: e in Tally(p + [x]).0 <==> e in p + [x]
    ensures forall j :: 0 <= j < |Tally(p + [x]).0| ==>
      Tally(p + [x]).1[j] == Traversals(p + [x], Tally(p + [x]).0[j])
  {
    assert (p + [x])[..|p|] == p;
    var (es, cs) := Tally(p);
    forall e: nat
      ensures Traversals(p + [x], e) == Traversals(p, e) + (if x == e then 1 else 0)
    {
      TraversalsAppend(p, x, e);
    }
    if x !in es {
      TraversalsBounds(p, x);
    }
  }

  /** Appending a vertex joined to the last one keeps the bookkeeping consistent. */
  lemma ConsistentAppend(g: Graph, vs: seq<nat>, es: seq<nat>, cs: seq<int>, i: int, t: int, v: nat,
                         es2: seq<nat>, cs2: seq<int>, i2: int, t2: int)
    requires Consistent(g, vs, es, cs, i, t) && |vs| > 0 && v < |g.interest|
    requires GetConnectingEdge(g, Last(vs), v).Some?
    requires Traversals(Steps(g, vs), GetConnectingEdge(g, Last(vs), v).value) < 2
    requires (es2, cs2) == Bump((es, cs), GetConnectingEdge(g, Last(vs), v).value)
    requires t2 == t + g.edges[GetConnectingEdge(g, Last(vs), v).value].weight
    requires i2 == i + (if v in vs then 0 else g.interest[v])
    ensures Consistent(g, vs + [v], es2, cs2, i2, t2)
  {
    var e := GetConnectingEdge(g, Last(vs), v).value;
    var steps := Steps(g, vs);
    StepsAppend(g, vs, v);
    assert i2 == DistinctInterest(g.interest, vs + [v]) by {
      DistinctInterestAppend(g.interest, vs, v);
    }
    assert t2 == StepsWeight(g.edges, steps + [e]) by {
      StepsWeightAppend(g.edges, steps, e);
    }
    assert (steps + [e])[..|steps|] == steps;
    assert AtMostTwice(cs2) by {
      TallyCounts(steps);
    }
  }

  lemma NoMembersEmpty(s: seq<nat>)
    requires forall x :: x !in s
    ensures s == []
  {
    if s != [] {
      HeadIn(s);
      assert false;
    }
  }

  lemma HeadIn(s: seq<nat>)
    requires |s| > 0
    ensures s[0] in s
  {
  }

  /** The one-vertex path: no edge, no time, the vertex's own interest. */
  lemma EmptyConsistent(g: Graph, es: seq<nat>, cs: seq<int>, i: int, t: int, v: nat)
    requires Consistent(g, [], es, cs, i, t) && v < |g.interest|
    ensures es == [] && cs == [] && t == 0 && i == 0
    ensures Consistent(g, [v], es, cs, i + g.interest[v], t)
  {
    assert Steps(g, []) == [];
    assert [v][..0] == [];
  }

  /** The record of one path (GraphPath): the vertices in visiting order, the
      distinct edges in order of first use with how often each was traversed,
      and the running interest and time. */
  class GraphPath {
    var vertices: seq<nat>
    var edges: seq<nat>
    var edgesCount: seq<int>
    var interest: int
    var time: int

    /** The bookkeeping agrees with the walk (see Consistent). */
    ghost predicate Valid(g: Graph)
      reads this
    {
      Consistent(g, vertices, edges, edgesCount, interest, time)
    }

    /** An empty path. */
    constructor ()
      ensures vertices == [] && edges == [] && edgesCount == []
      ensures interest == 0 && time == 0
    {
      vertices, edges, edgesCount := [], [], [];
      interest, time := 0, 0;
    }

    /** A copy of `path` with its own lists. */
    constructor Copy(path: GraphPath)
      ensures vertices == path.vertices && edges == path.edges && edgesCount == path.edgesCount
      ensures interest == path.interest && time == path.time
    {
      vertices, edges, edgesCount := path.vertices, path.edges, path.edgesCount;
      interest, time := path.interest, path.time;
    }

    /** Appends `v`. From a non-empty path the edge from the last vertex to `v`
        is counted (a first use is recorded with count 1) and its weight is
        added to the time; `v` adds its interest only on its first visit.
        A third traversal of an edge is an assertion failure in the program,
        so the caller must not ask for one. */
    method Add(g: Graph, v: nat) returns (r: GraphPath)
      requires Valid(g) && v < |g.interest|
      requires |vertices| > 0 ==> GetConnectingEdge(g, Last(vertices), v).Some?
      requires |vertices| > 0 ==>
        Traversals(Steps(g, vertices), GetConnectingEdge(g, Last(vertices), v).value) < 2
      modifies this
      ensures r == this && Valid(g)
      ensures vertices == old(vertices) + [v]
      ensures interest == old(interest) + (if v in old(vertices) then 0 else g.interest[v])
      ensures |old(vertices)| == 0 ==> time == 0 && edges == [] && edgesCount == []
      ensures |old(vertices)| > 0 ==> time == old(time) + g.edges[StepEdge(g, old(vertices), v)].weight
      ensures |old(vertices)| > 0 ==>
        (edges, edgesCount) == Bump((old(edges), old(edgesCount)), StepEdge(g, old(vertices), v))
    {
      if |vertices| > 0 {
        AddStep(g, v);
      } else {
        EmptyConsistent(g, edges, edgesCount, interest, time, v);
        vertices, interest := [v], interest + g.interest[v];
      }
      r := this;
    }

    /** Add on a non-empty path: the step's edge is counted and its weight added. */
    method AddStep(g: Graph, v: nat)
      requires Valid(g) && v < |g.interest| && |vertices| > 0
      requires GetConnectingEdge(g, Last(vertices), v).Some?
      requires Traversals(Steps(g, vertices), GetConnectingEdge(g, Last(vertices), v).value) < 2
      modifies this
      ensures Valid(g)
      ensures vertices == old(vertices) + [v]
      ensures interest == old(interest) + (if v in old(vertices) then 0 else g.interest[v])
      ensures time == old(time) + g.edges[StepEdge(g, old(vertices), v)].weight
      ensures (edges, edgesCount) == Bump((old(edges), old(edgesCount)), StepEdge(g, old(vertices), v))
    {
      var newEdge := StepEdge(g, vertices, v);
      var es, cs := edges, edgesCount;
      var idx := IndexOf(es, newEdge);
      if idx < 0 {
        es, cs := es + [newEdge], cs + [1];
      } else {
        cs := cs[idx := cs[idx] + 1];
      }
      var i := if v in vertices then interest else interest + g.interest[v];
      var t := time + g.edges[newEdge].weight;
      ConsistentAppend(g, vertices, edges, edgesCount, interest, time, v, es, cs, i, t);
      vertices, edges, edgesCount, interest, time := vertices + [v], es, cs, i, t;
    }

    /** Whether `v` has been visited. */
    function Contains(v: nat): (r: bool)
      reads this
      ensures r <==> exists i :: 0 <= i < |vertices| && vertices[i] == v
    {
      v in vertices
    }

    function VerticesCount(): (r: nat)
      reads this
      ensures r == |vertices|
    {
      |vertices|
    }

    /** The distinct-vertex sum recomputed from scratch; on a valid path it is the running interest. */
    function CountInterest(g: Graph): (r: int)
      reads this
      requires Below(vertices, |g.interest|)
      ensures Valid(g) ==> r == interest
    {
      DistinctInterestIsIndicatorSum(g.interest, vertices);
      IndicatorSum(g.interest, vertices, |g.interest|)
    }

    /** Whether stepping to `nextV` would traverse an edge for the third time;
        paths of fewer than 3 vertices and edges not yet used are never reported. */
    function CheckVForCycle(g: Graph, nextV: nat): (r: bool)
      reads this
      requires Valid(g) && nextV < |g.interest|
      ensures r <==> (|vertices| >= 3 && GetConnectingEdge(g, Last(vertices), nextV).Some? &&
        Traversals(Steps(g, vertices), GetConnectingEdge(g, Last(vertices), nextV).value) >= 2)
    {
      if |vertices| < 3 then false
      else
        match GetConnectingEdge(g, Last(vertices), nextV)
        case None => false
        case Some(e) =>
          TallyCounts(Steps(g, vertices));
          TraversalsBounds(Steps(g, vertices), e);
          var idx := IndexOf(edges, e);
          if idx < 0 then false else edgesCount[idx] > 1
    }

    /** When the cycle check passes, the step to `nextV` keeps every edge count at 2 or less. */
    lemma CycleGuard(g: Graph, nextV: nat)
      requires Valid(g) && nextV < |g.interest| && |vertices| > 0
      requires GetConnectingEdge(g, Last(vertices), nextV).Some?
      requires !CheckVForCycle(g, nextV)
      ensures Traversals(Steps(g, vertices), GetConnectingEdge(g, Last(vertices), nextV).value) < 2
    {
      var steps := Steps(g, vertices);
      var e := GetConnectingEdge(g, Last(vertices), nextV).value;
      if |vertices| < 3 {
        TraversalsBounds(steps, e);
      }
    }
  }
}
