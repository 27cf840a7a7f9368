/** The sequential branch-and-bound search for the most interesting closed walk
    (MapContent). A walk starts at the start vertex; the outbound phase
    (DepthSearch) extends it while the way back still fits into the time
    budget, and the inbound phase (BackPath) heads back, pruning against the
    best (interest, time) pair recorded at each vertex, and offers every walk
    that reaches the start again as a candidate for the best path. */
module Search {
  import opened Graphs
  import opened Paths
  import opened Distances
  import opened Maps

  /** Every edge takes at least one unit of time (edge weights are drawn from 1 to 6). */
  ghost predicate PositiveWeights(edges: seq<Edge>)
  {
    forall k :: 0 <= k < |edges| ==> edges[k].weight >= 1
  }

  /** CheckBranchForRedundancy: the memo (bestInterest, bestTime) of a vertex
      makes a walk arriving there with (interest, time) pointless when the memo
      is set (positive time) and has more interest, or the same interest sooner. */
  function CheckBranchForRedundancy(bestInterest: int, bestTime: int, interest: int, time: int): (r: bool)
    ensures bestTime <= 0 ==> !r
    ensures bestTime > 0 ==> (r <==> bestInterest > interest || (bestInterest == interest && bestTime < time))
  {
    bestTime > 0 && (bestInterest > interest || (bestInterest == interest && bestTime < time))
  }

  /** A walk never makes itself redundant: equal interest at equal time is not pruned. */
  lemma RedundancyIrreflexive(interest: int, time: int)
    ensures !CheckBranchForRedundancy(interest, time, interest, time)
  {
  }

  /** Pruning is transitive: a memo that beats a pair beats everything that pair beats. */
  lemma RedundancyTransitive(i1: int, t1: int, i2: int, t2: int, i3: int, t3: int)
    requires t2 > 0
    requires CheckBranchForRedundancy(i1, t1, i2, t2) && CheckBranchForRedundancy(i2, t2, i3, t3)
    ensures CheckBranchForRedundancy(i1, t1, i3, t3)
  {
  }

  /** A walk's interest lies between 0 and the sum of all interests. */
  lemma InterestAtMostMax(g: Graph, path: GraphPath)
    requires path.Valid(g) && NonNegative(g.interest)
    ensures 0 <= path.interest <= SumInterest(g.interest)
  {
    DistinctInterestIsIndicatorSum(g.interest, path.vertices);
    IndicatorSumBounds(g.interest, path.vertices, |g.interest|);
    assert g.interest[..|g.interest|] == g.interest;
  }

  class MapContent {
    const graphMap: Map
    const timeRestriction: int
    var bestInterest: int
    /** Closed walks offered to the best path since the counter was last reset. */
    var iterations: int
    var currentBestPath: GraphPath
    /** The running search's token has been cancelled (the sequential search never reads it). */
    var cancelled: bool

    /** The best interest is the best path's, and that path is a walk of the map. */
    ghost predicate Valid()
      reads this, graphMap, currentBestPath
    {
      graphMap.Valid() && currentBestPath.Valid(graphMap.graph) && bestInterest == currentBestPath.interest &&
      iterations >= 0
    }

    /** The map is prepared for a search: it has vertices, every edge takes
        time, distances and interests are non-negative and the maximum
        interest is the sum of all interests. */
    ghost predicate Ready()
      reads graphMap`graph, graphMap`distanceFromStart, graphMap`maxInterest
    {
      |graphMap.graph.interest| > 0 && PositiveWeights(graphMap.graph.edges) &&
      NonNegative(graphMap.distanceFromStart) && NonNegative(graphMap.graph.interest) &&
      graphMap.maxInterest == SumInterest(graphMap.graph.interest)
    }

    /** The best path is empty or a closed walk from the start within the budget
        (the one-vertex walk is accepted whatever the budget). */
    ghost predicate Accepted()
      reads this, currentBestPath
    {
      var vs := currentBestPath.vertices;
      |vs| == 0 || (vs[0] == Start && Last(vs) == Start &&
        (currentBestPath.time <= timeRestriction || vs == [Start]))
    }

    /** A walk under search: valid, from the start to `cur`, and able to get back
        in time (the shortest way home from `cur` fits into what is left), except
        for the one-vertex seed. */
    ghost predicate OnSearch(cur: nat, path: GraphPath)
      reads graphMap`graph, graphMap`distanceFromStart, path
    {
      cur < |graphMap.graph.interest| && cur < |graphMap.distanceFromStart| && path.Valid(graphMap.graph) &&
      |path.vertices| > 0 && path.vertices[0] == Start && Last(path.vertices) == cur &&
      (path.time + graphMap.distanceFromStart[cur] <= timeRestriction || path.vertices == [Start])
    }

    constructor (timeRestriction: int)
      ensures Valid() && Accepted() && this.timeRestriction == timeRestriction
      ensures graphMap.IsEmpty() && fresh(graphMap) && currentBestPath.vertices == [] && bestInterest == 0
    {
      graphMap := new Map();
      this.timeRestriction := timeRestriction;
      iterations := 0;
      cancelled := false;
      var empty := new GraphPath();
      currentBestPath := empty;
      bestInterest := 0;
      new;
      SetBestPath(empty);
    }

    /** Makes `newPath` the best path; reaching the maximum interest cancels the
        search token and zeroes the iteration counter (as stopping the timer does). */
    method SetBestPath(newPath: GraphPath)
      requires graphMap.Valid() && newPath.Valid(graphMap.graph) && iterations >= 0
      modifies this
      ensures Valid() && currentBestPath == newPath && bestInterest == newPath.interest

      ensures cancelled == (old(cancelled) || newPath.interest == graphMap.maxInterest)
      ensures iterations == if newPath.interest == graphMap.maxInterest then 0 else old(iterations)
    {
      currentBestPath := newPath;
      bestInterest := currentBestPath.interest;
      if bestInterest == graphMap.maxInterest {
        cancelled := true;
        iterations := 0;
      }
    }

    /** Whether `path` should replace the best path: always while the best has
        no interest, otherwise when it has more interest, or as much in less time. */
    predicate IsPathBetter(path: GraphPath)
      reads this, currentBestPath, path
    {
      currentBestPath.interest == 0 || path.interest > bestInterest ||
      (path.interest == bestInterest && path.time < currentBestPath.time)
    }

    /** A replacement never lowers the best interest when interests are non-negative. */
    lemma BetterKeepsInterest(path: GraphPath)
      requires Valid() && Ready() && path.Valid(graphMap.graph) && IsPathBetter(path)
      ensures path.interest >= bestInterest
    {
      InterestAtMostMax(graphMap.graph, path);
    }

    /** Every neighbour of `currV` is already on the path. */
    function AllNeighboursUsed(currV: nat, path: GraphPath): (r: bool)
      reads graphMap`graph, path
      requires Indexed(graphMap.graph) && currV < |graphMap.graph.interest|
      ensures r <==> forall w :: w in GetAdjacentVertices(graphMap.graph, currV) ==> w in path.vertices
    {
      forall i :: 0 <= i < |GetAdjacentVertices(graphMap.graph, currV)| ==>
        path.Contains(GetAdjacentVertices(graphMap.graph, currV)[i])
    }

    /** Stepping from `currV` to its neighbour `nextV` leaves no time to get back
        (its distance home, the time so far and the edge's weight exceed the
        budget), or would use an edge a third time. The weight is read from the
        edge found in `nextV`'s list. */
    predicate BackPathNeeded(currV: nat, path: GraphPath, nextV: nat)
      reads graphMap`graph, graphMap`distanceFromStart, path
      requires nextV < |graphMap.distanceFromStart| && nextV < |graphMap.graph.interest|
      requires Indexed(graphMap.graph) && path.Valid(graphMap.graph)
      requires GetConnectingEdge(graphMap.graph, nextV, currV).Some?
    {
      graphMap.distanceFromStart[nextV] + path.time +
        graphMap.graph.edges[GetConnectingEdge(graphMap.graph, nextV, currV).value].weight > timeRestriction ||
      path.CheckVForCycle(graphMap.graph, nextV)
    }

    /** A neighbour that is not rejected can be stepped to: its edge is the one
        the walk takes next, it has been taken at most once, and the walk
        extended by it can still get back in time. */
    lemma AcceptedStep(currV: nat, path: GraphPath, nextV: nat)
      requires Ready() && graphMap.Valid() && OnSearch(currV, path)
      requires nextV in GetAdjacentVertices(graphMap.graph, currV)
      requires nextV < |graphMap.graph.interest| && GetConnectingEdge(graphMap.graph, nextV, currV).Some?
      requires !BackPathNeeded(currV, path, nextV)
      ensures GetConnectingEdge(graphMap.graph, currV, nextV).Some?
      ensures StepEdge(graphMap.graph, path.vertices, nextV) == GetConnectingEdge(graphMap.graph, currV, nextV).value
      ensures Traversals(Steps(graphMap.graph, path.vertices), StepEdge(graphMap.graph, path.vertices, nextV)) < 2
      ensures path.time + graphMap.graph.edges[StepEdge(graphMap.graph, path.vertices, nextV)].weight +
        graphMap.distanceFromStart[nextV] <= timeRestriction
    {
      AdjacentHasConnectingEdge(graphMap.graph, currV, nextV);
      path.CycleGuard(graphMap.graph, nextV);
    }

    /** A copy of `path` extended by `nextV`, for a step whose edge is known. */
    method Extend(currV: nat, path: GraphPath, nextV: nat) returns (p: GraphPath)
      requires Ready() && graphMap.Valid() && OnSearch(currV, path)
      requires nextV < |graphMap.graph.interest| && GetConnectingEdge(graphMap.graph, currV, nextV).Some?
      requires Traversals(Steps(graphMap.graph, path.vertices), GetConnectingEdge(graphMap.graph, currV, nextV).value) < 2
      requires path.time + graphMap.graph.edges[GetConnectingEdge(graphMap.graph, currV, nextV).value].weight +
        graphMap.distanceFromStart[nextV] <= timeRestriction
      ensures fresh(p) && OnSearch(nextV, p)
      ensures p.vertices == path.vertices + [nextV]
      ensures p.time == path.time + graphMap.graph.edges[GetConnectingEdge(graphMap.graph, currV, nextV).value].weight
      ensures p.time > path.time
    {
      p := new GraphPath.Copy(path);
      p := p.Add(graphMap.graph, nextV);
    }

    /** Records (interest, time) as the memo of `v`. */
    method Memorize(v: nat, interest: int, time: int)
      requires graphMap.Valid() && v < |graphMap.graph.interest|
      modifies graphMap`currentBestInterest, graphMap`currentBestTime
      ensures graphMap.Valid()
      ensures graphMap.currentBestInterest == old(graphMap.currentBestInterest)[v := interest]
      ensures graphMap.currentBestTime == old(graphMap.currentBestTime)[v := time]
    {
      graphMap.currentBestInterest := graphMap.currentBestInterest[v := interest];
      graphMap.currentBestTime := graphMap.currentBestTime[v := time];
    }

    /** A walk back at the start: counted, and made the best path if it is better. */
    method AcceptAtStart(path: GraphPath)
      requires Valid() && Ready() && Accepted() && OnSearch(Start, path)
      modifies this
      ensures Valid() && Accepted() && bestInterest >= old(bestInterest)
      ensures old(IsPathBetter(path)) ==>
        (currentBestPath == path && bestInterest == path.interest &&
         iterations == if path.interest == graphMap.maxInterest then 0 else old(iterations) + 1)
      ensures !old(IsPathBetter(path)) ==>
        (currentBestPath == old(currentBestPath) && bestInterest == old(bestInterest) &&
         iterations == old(iterations) + 1)
    {
      iterations := iterations + 1;
      if IsPathBetter(path) {
        BetterKeepsInterest(path);
        SetBestPath(path);
      }
    }

    /** The inbound phase at `currentVertex`: a walk beaten by the vertex's memo
        is dropped; otherwise it becomes the memo, and the walk is offered as a
        result at the start or carried on into every neighbour that closes no
        cycle and from which the start can still be reached in time. */
    method BackPath(currentVertex: nat, path: GraphPath)
      requires Valid() && Ready() && Accepted() && OnSearch(currentVertex, path)
      modifies this, graphMap`currentBestInterest, graphMap`currentBestTime
      ensures Valid() && Accepted() && bestInterest >= old(bestInterest)
      ensures old(CheckBranchForRedundancy(graphMap.currentBestInterest[currentVertex],
          graphMap.currentBestTime[currentVertex], path.interest, path.time)) ==>
        (graphMap.currentBestInterest == old(graphMap.currentBestInterest) &&
         graphMap.currentBestTime == old(graphMap.currentBestTime) &&
         currentBestPath == old(currentBestPath) && iterations == old(iterations))
      ensures currentVertex == Start && !old(CheckBranchForRedundancy(graphMap.currentBestInterest[Start],
          graphMap.currentBestTime[Start], path.interest, path.time)) ==>
        (graphMap.currentBestInterest == old(graphMap.currentBestInterest)[Start := path.interest] &&
         graphMap.currentBestTime == old(graphMap.currentBestTime)[Start := path.time] &&
         (old(IsPathBetter(path)) ==>
            currentBestPath == path && bestInterest == path.interest &&
            iterations == if path.interest == graphMap.maxInterest then 0 else old(iterations) + 1) &&
         (!old(IsPathBetter(path)) ==>
            currentBestPath == old(currentBestPath) && bestInterest == old(bestInterest) &&
            iterations == old(iterations) + 1))
      decreases timeRestriction - path.time, 1
    {
      var currentPathInterest := path.interest;
      var currentPathTime := path.time;
      if CheckBranchForRedundancy(graphMap.currentBestInterest[currentVertex], graphMap.currentBestTime[currentVertex],
        currentPathInterest, currentPathTime)
      {
        return;
      }
      Memorize(currentVertex, currentPathInterest, currentPathTime);
      if currentVertex == graphMap.StartVertex() {
        AcceptAtStart(path);
        return;
      }
      var adj := GetAdjacentVertices(graphMap.graph, currentVertex);
      var k := 0;
      while k < |adj|
        invariant 0 <= k <= |adj|
        invariant Valid() && Accepted() && bestInterest >= old(bestInterest)
      {
        assert adj[k] in adj;
        BackStep(currentVertex, path, adj[k]);
        k := k + 1;
      }
    }

    /** Whether BackPath carries the walk on into `nextV`: the step closes no
        cycle, and after it the start can still be reached in time. The weight
        is read from the edge found in `currV`'s list. */
    predicate Admissible(currV: nat, path: GraphPath, nextV: nat)
      reads graphMap`graph, graphMap`distanceFromStart, path
      requires currV < |graphMap.graph.interest| && nextV < |graphMap.graph.interest|
      requires nextV < |graphMap.distanceFromStart|
      requires Indexed(graphMap.graph) && path.Valid(graphMap.graph)
    {
      !path.CheckVForCycle(graphMap.graph, nextV) &&
      GetConnectingEdge(graphMap.graph, currV, nextV).Some? &&
      graphMap.distanceFromStart[nextV] + path.time +
        graphMap.graph.edges[GetConnectingEdge(graphMap.graph, currV, nextV).value].weight <= timeRestriction
    }

    /** One neighbour in BackPath's loop: a neighbour that is not admissible changes nothing. */
    method BackStep(currentVertex: nat, path: GraphPath, nextV: nat)
      requires Valid() && Ready() && Accepted() && OnSearch(currentVertex, path)
      requires nextV in GetAdjacentVertices(graphMap.graph, currentVertex) && nextV < |graphMap.graph.interest|
      modifies this, graphMap`currentBestInterest, graphMap`currentBestTime
      ensures Valid() && Accepted() && bestInterest >= old(bestInterest)
      ensures !old(Admissible(currentVertex, path, nextV)) ==> unchanged(this, graphMap)
      decreases timeRestriction - path.time, 0
    {
      AdjacentHasConnectingEdge(graphMap.graph, currentVertex, nextV);
      if !path.CheckVForCycle(graphMap.graph, nextV) {
        var e := GetConnectingEdge(graphMap.graph, currentVertex, nextV).value;
        if graphMap.distanceFromStart[nextV] + path.time + graphMap.graph.edges[e].weight <= timeRestriction {
          path.CycleGuard(graphMap.graph, nextV);
          var p := Extend(currentVertex, path, nextV);
          BackPath(nextV, p);
        }
      }
    }

    /** The outbound phase at `currV`: with every neighbour on the path it turns
        back at once; otherwise it goes on into every neighbour that is not
        rejected, and turns back from `currV` exactly when some neighbour was
        rejected. */
    method DepthSearch(currV: nat, path: GraphPath)
      requires Valid() && Ready() && Accepted() && OnSearch(currV, path)
      modifies this, graphMap`currentBestInterest, graphMap`currentBestTime
      ensures Valid() && Accepted() && bestInterest >= old(bestInterest)
      decreases timeRestriction - path.time, 3
    {
      if AllNeighboursUsed(currV, path) {
        BackPath(currV, path);
        return;
      }
      var backPathNeeded := false;
      var adj := GetAdjacentVertices(graphMap.graph, currV);
      var k := 0;
      while k < |adj|
        invariant 0 <= k <= |adj|
        invariant Valid() && Accepted() && bestInterest >= old(bestInterest)
      {
        assert adj[k] in adj;
        AdjacentHasConnectingEdge(graphMap.graph, currV, adj[k]);
        var rejected := DepthStep(currV, path, adj[k]);
        backPathNeeded := backPathNeeded || rejected;
        k := k + 1;
      }
      if backPathNeeded {
        BackPath(currV, path);
      }
    }

    /** One neighbour in DepthSearch's loop: a rejected neighbour is reported,
        any other is searched from. */
    method DepthStep(currV: nat, path: GraphPath, nextV: nat) returns (rejected: bool)
      requires Valid() && Ready() && Accepted() && OnSearch(currV, path)
      requires nextV in GetAdjacentVertices(graphMap.graph, currV)
      requires nextV < |graphMap.graph.interest| && GetConnectingEdge(graphMap.graph, nextV, currV).Some?
      modifies this, graphMap`currentBestInterest, graphMap`currentBestTime
      ensures Valid() && Accepted() && bestInterest >= old(bestInterest)
      ensures rejected == old(BackPathNeeded(currV, path, nextV))
      ensures rejected ==> unchanged(this, graphMap)
      decreases timeRestriction - path.time, 2
    {
      rejected := BackPathNeeded(currV, path, nextV);
      if !rejected {
        AcceptedStep(currV, path, nextV);
        var p := Extend(currV, path, nextV);
        DepthSearch(nextV, p);
      }
    }

    /** Starts a search from the start vertex with a fresh best path and cleared
        memos; when the run ends the iteration counter is zeroed, as stopping the timer does. */
    method FindPath()
      requires Valid() && Ready()
      modifies this, graphMap`currentBestInterest, graphMap`currentBestTime
      ensures Valid() && Accepted()
      ensures 0 <= bestInterest <= graphMap.maxInterest && iterations == 0
    {
      if iterations > 0 {
        iterations := 0;
      }
      cancelled := true;
      var empty := new GraphPath();
      SetBestPath(empty);
      graphMap.ResetVertices();
      cancelled := false;
      var currentVertex := graphMap.StartVertex();
      var startPath := new GraphPath();
      startPath := startPath.Add(graphMap.graph, currentVertex);
      DepthSearch(currentVertex, startPath);
      if iterations > 0 {
        iterations := 0;
      }
      InterestAtMostMax(graphMap.graph, currentBestPath);
    }

    /** Empties the map and forgets the best path. */
    method Clear()
      requires Valid()
      modifies this, graphMap
      ensures Valid() && Accepted() && graphMap.IsEmpty()
      ensures currentBestPath.vertices == [] && bestInterest == 0 && graphMap.maxInterest == -1
    {
      var empty := new GraphPath();
      SetBestPath(empty);
      bestInterest := 0;
      graphMap.Clear();
    }
  }
}
