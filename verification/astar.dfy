/** The router object: it loads the road network once, snaps coordinates to connected nodes,
    runs A* over the adjacency lists and turns the parent records into a drawable route. */
module AStar {
  import opened Wrappers
  import opened Graph
  import opened Nearest
  import opened Walks
  import opened OpenSet
  import opened Route
  import opened Search

  /** What `findPath` hands back: a route, `null` (no route), or a thrown `TypeError` (reading the
      coordinates of a node that is not loaded). */
  datatype Outcome = Found(route: RouteResult) | NoRoute | Failed

  class AStarPathfinder {
    /** The great-circle distance the router uses, both for snapping and as the heuristic. */
    const distance: Distance
    var nodes: map<NodeId, Node>
    /** The node ids in the order a `for...in` over the node table visits them: ascending. */
    var order: seq<nat>
    var adjacency: Adjacency
    var isLoaded: bool

    ghost predicate Valid()
      reads this
    {
      Indexed(nodes, order) && Symmetric(adjacency) && Oriented(adjacency)
    }

    constructor(distance: Distance)
      ensures Valid()
      ensures this.distance == distance
      ensures nodes == map[] && order == [] && adjacency == map[] && !isLoaded
    {
      this.distance := distance;
      nodes := map[];
      order := [];
      adjacency := map[];
      isLoaded := false;
    }

    /** Loads the node and edge records once: a second call changes nothing. Every node record is
        stored under its id, and every edge adds a forward entry at its source and a backward entry
        at its target. */
    method LoadGraph(nodesData: seq<Node>, edgesData: seq<Edge>)
      requires Valid()
      modifies this
      ensures Valid() && isLoaded
      ensures old(isLoaded) ==> nodes == old(nodes) && order == old(order) && adjacency == old(adjacency)
      ensures !old(isLoaded) ==> nodes == PutNodes(old(nodes), nodesData) &&
                                 adjacency == AddEdges(old(adjacency), edgesData)
    {
      if isLoaded {
        return;
      }
      StoreNodes(nodesData);
      StoreEdges(edgesData);
      isLoaded := true;
    }

    /** Step 1 of loading: every node record stored under its id, a later record replacing an
        earlier one with the same id. */
    method StoreNodes(nodesData: seq<Node>)
      requires Valid()
      modifies this
      ensures Valid()
      ensures nodes == PutNodes(old(nodes), nodesData)
      ensures adjacency == old(adjacency) && isLoaded == old(isLoaded)
    {
      var i := 0;
      while i < |nodesData|
        invariant 0 <= i <= |nodesData|
        invariant nodes == PutNodes(old(nodes), nodesData[..i])
        invariant adjacency == old(adjacency) && isLoaded == old(isLoaded)
        invariant Valid()
      {
        var n := nodesData[i];
        PutNodeIndexed(nodes, order, n);
        if n.id !in nodes {
          order := InsertSorted(order, n.id);
        }
        nodes := nodes[n.id := n];
        assert nodesData[..i + 1][..i] == nodesData[..i];
        i := i + 1;
      }
      assert nodesData[..i] == nodesData;
    }

    /** Step 2 of loading: the edge records' entries appended in order. */
    method StoreEdges(edgesData: seq<Edge>)
      requires Valid()
      modifies this
      ensures Valid()
      ensures adjacency == AddEdges(old(adjacency), edgesData)
      ensures nodes == old(nodes) && isLoaded == old(isLoaded)
    {
      var j := 0;
      while j < |edgesData|
        invariant 0 <= j <= |edgesData|
        invariant adjacency == AddEdges(old(adjacency), edgesData[..j])
        invariant nodes == old(nodes) && order == old(order) && isLoaded == old(isLoaded)
        invariant Valid()
      {
        var e := edgesData[j];
        AddEdgesStep(old(adjacency), edgesData, j);
        StoreEdge(e);
        j := j + 1;
      }
      assert edgesData[..j] == edgesData;
    }

    /** One edge record: a forward entry at its source, then a backward entry at its target, each
        list created empty first when missing. */
    method StoreEdge(e: Edge)
      requires Valid()
      modifies this
      ensures Valid()
      ensures adjacency == AddEdge(old(adjacency), e)
      ensures nodes == old(nodes) && order == old(order) && isLoaded == old(isLoaded)
    {
      ghost var before := adjacency;
      if e.sourceId !in adjacency {
        adjacency := adjacency[e.sourceId := []];
      }
      adjacency := adjacency[e.sourceId := adjacency[e.sourceId] + [Forward(e)]];
      if e.targetId !in adjacency {
        adjacency := adjacency[e.targetId := []];
      }
      adjacency := adjacency[e.targetId := adjacency[e.targetId] + [Backward(e)]];
      assert adjacency == AddEdge(before, e);
      AddEdgeSymmetric(before, e);
    }

    /** Snaps a coordinate to the closest node that has at least one adjacency entry, scanning the
        nodes in ascending id order and keeping the first strictly closer one; -1 when no node is
        connected. */
    method FindNearestNode(lat: real, lon: real) returns (nearestId: int)
      requires Valid()
      ensures nearestId == Scan(nodes, adjacency, distance, lat, lon, order)
      ensures nearestId == -1 <==> forall k :: k in nodes ==> !Connected(adjacency, k)
      ensures nearestId != -1 ==> nearestId in nodes && Connected(adjacency, nearestId)
      ensures forall k :: k in nodes && Connected(adjacency, k) ==>
                nearestId != -1 &&
                DistTo(nodes, distance, lat, lon, nearestId) <= DistTo(nodes, distance, lat, lon, k) &&
                (DistTo(nodes, distance, lat, lon, nearestId) == DistTo(nodes, distance, lat, lon, k) ==>
                   nearestId <= k)
    {
      var ns, adj, ids := nodes, adjacency, order;
      var minDist: Option<nat> := None;
      nearestId := -1;
      var i := 0;
      while i < |ids|
        invariant 0 <= i <= |ids|
        invariant nearestId == Scan(ns, adj, distance, lat, lon, ids[..i])
        invariant minDist.None? <==> nearestId == -1
        invariant nearestId != -1 ==> nearestId in ns &&
                                      minDist == Some(DistTo(ns, distance, lat, lon, nearestId))
      {
        var id := ids[i];
        ScanStep(ns, adj, distance, lat, lon, ids, i);
        if id in adj && |adj[id]| > 0 {
          var node := ns[id];
          var d := distance(lat, lon, node.lat, node.lon);
          if minDist.None? || d < minDist.value {
            minDist := Some(d);
            nearestId := id;
          }
        }
        i := i + 1;
      }
      assert ids[..i] == ids;
      Summarise(lat, lon, nearestId);
    }

    /** The outright properties of the scan over the node order. */
    lemma Summarise(lat: real, lon: real, r: int)
      requires Valid() && r == Scan(nodes, adjacency, distance, lat, lon, order)
      ensures r == -1 <==> forall k :: k in nodes ==> !Connected(adjacency, k)
      ensures r != -1 ==> r in nodes && Connected(adjacency, r)
      ensures forall k :: k in nodes && Connected(adjacency, k) ==>
                r != -1 &&
                DistTo(nodes, distance, lat, lon, r) <= DistTo(nodes, distance, lat, lon, k) &&
                (DistTo(nodes, distance, lat, lon, r) == DistTo(nodes, distance, lat, lon, k) ==> r <= k)
    {
      ScanNotFound(nodes, adjacency, distance, lat, lon, order);
      forall k | k in nodes && Connected(adjacency, k)
        ensures r != -1 &&
                DistTo(nodes, distance, lat, lon, r) <= DistTo(nodes, distance, lat, lon, k) &&
                (DistTo(nodes, distance, lat, lon, r) == DistTo(nodes, distance, lat, lon, k) ==> r <= k)
      {
        var j :| 0 <= j < |order| && order[j] == k;
        ScanTieSmallestId(nodes, adjacency, distance, lat, lon, order, j);
        ScanClosest(nodes, adjacency, distance, lat, lon, order, j);
      }
    }

    /** The node an endpoint resolves to: a truthy explicit id as given, otherwise the snapped
        coordinate when both components are present, otherwise the explicit value as it was. */
    ghost function Resolved(explicit: Option<int>, lat: Option<real>, lon: Option<real>): Option<int>
      reads this
      requires Valid()
    {
      if (explicit.None? || explicit.value == 0) && lat.Some? && lon.Some? then
        Some(Scan(nodes, adjacency, distance, lat.value, lon.value, order))
      else explicit
    }

    /** Picks the start (or end) node of a query. */
    method ResolveEndpoint(explicit: Option<int>, lat: Option<real>, lon: Option<real>) returns (r: Option<int>)
      requires Valid()
      ensures r == Resolved(explicit, lat, lon)
      ensures explicit.Some? && explicit.value != 0 ==> r == explicit
      ensures (explicit.None? || explicit.value == 0) && lat.Some? && lon.Some? ==>
                r.Some? && (r.value == -1 <==> forall k :: k in nodes ==> !Connected(adjacency, k))
    {
      r := explicit;
      if (r.None? || r.value == 0) && lat.Some? && lon.Some? {
        var id := FindNearestNode(lat.value, lon.value);
        r := Some(id);
      }
    }

    /** What the search promises about its outcome for the resolved endpoints. */
    ghost predicate Answers(start: Option<NodeId>, end: Option<NodeId>, o: Outcome)
      reads this
    {
      var known := start.Some? && end.Some? && start.value in nodes && end.value in nodes;
      (!known ==> o == Failed) &&
      (known && start.value == end.value ==> o == Found(RouteResult([], 0, 0.0))) &&
      (o.Found? ==>
         known &&
         (exists w :: IsWalk(adjacency, w, start.value, end.value) && Weight(w) == o.route.distanceMeters) &&
         (exists w :: IsWalk(adjacency, w, start.value, end.value) && Weight(w) <= o.route.distanceMeters &&
                      AllHaveEnds(nodes, Hops(w)) && o.route.path == Stitch(nodes, Hops(w))) &&
         o.route.durationMinutes * SpeedMetersPerMinute == o.route.distanceMeters as real) &&
      (o.NoRoute? ==> known && forall w :: !IsWalk(adjacency, w, start.value, end.value)) &&
      (o.Failed? ==> !known || exists w, t :: IsWalk(adjacency, w, start.value, t) && t !in nodes)
    }

    /** Answers a route query: resolve both endpoints, give up with no route when either
        snapped to nothing, and otherwise search. */
    method FindPath(startLat: Option<real>, startLon: Option<real>, endLat: Option<real>, endLon: Option<real>,
                    explicitStart: Option<int>, explicitEnd: Option<int>) returns (o: Outcome)
      requires Valid()
      ensures var s, e := Resolved(explicitStart, startLat, startLon), Resolved(explicitEnd, endLat, endLon);
              (s == Some(-1) || e == Some(-1) ==> o == NoRoute) &&
              (s != Some(-1) && e != Some(-1) ==> Answers(s, e, o))
    {
      var startNodeId := ResolveEndpoint(explicitStart, startLat, startLon);
      var endNodeId := ResolveEndpoint(explicitEnd, endLat, endLon);
      if startNodeId == Some(-1) || endNodeId == Some(-1) {
        return NoRoute;
      }
      o := Search(startNodeId, endNodeId);
    }

    /** The A* loop: repeatedly sort the open list by `f`, take its head, stop when it is the
        end node, otherwise relax every adjacency entry of the head. */
    method Search(start: Option<NodeId>, end: Option<NodeId>) returns (o: Outcome)
      requires Valid()
      ensures Answers(start, end, o)
    {
      if start.None? || end.None? {
        return Failed;
      }
      var s, e := start.value, end.value;
      var h0 := Heuristic(nodes, distance, s, e);
      if h0.None? {
        return Failed;
      }
      var st := SearchState([OpenEntry(s, 0)], map[s := 0], map[s := h0.value], map[]);
      ghost var l := Ledger(map[s := 0], map[], map[s := []], 0);
      assert Inv(adjacency, nodes, s, st, l) by {
        assert Ids(st.open) == {s};
      }
      while st.open != []
        invariant Inv(adjacency, nodes, s, st, l)
        invariant Expanded(adjacency, st, {})
        invariant e in nodes && s in nodes
        invariant e in st.g ==> e in Ids(st.open)
        invariant s == e ==> st == SearchState([OpenEntry(s, 0)], map[s := 0], map[s := h0.value], map[])
        decreases |Unscored(adjacency, s, st)|, Potential(st, order)
      {
        var stop;
        stop, st, l := Iterate(s, e, st, l, h0.value);
        if stop.Some? {
          return stop.value;
        }
      }
      assert e !in st.g;
      ExhaustedMeansUnreachable(adjacency, st, s, e);
      return NoRoute;
    }

    /** A walk from the start into a node that is not loaded makes `Failed` an admissible answer. */
    lemma EscapeFails(s: NodeId, e: NodeId, w: seq<Step>, t: NodeId)
      requires IsWalk(adjacency, w, s, t) && t !in nodes && s != e
      ensures Answers(Some(s), Some(e), Failed)
    {
    }

    /** One round of the A* loop: pop the entry with the least `f`; finish on the end node,
        otherwise expand the popped node. */
    method Iterate(s: NodeId, e: NodeId, st: SearchState, ghost l: Ledger, ghost h0: nat)
      returns (stop: Option<Outcome>, st': SearchState, ghost l': Ledger)
      requires Valid() && Inv(adjacency, nodes, s, st, l) && Expanded(adjacency, st, {}) && st.open != []
      requires e in nodes && s in nodes
      requires e in st.g ==> e in Ids(st.open)
      requires s == e ==> st == SearchState([OpenEntry(s, 0)], map[s := 0], map[s := h0], map[])
      ensures stop.Some? ==> Answers(Some(s), Some(e), stop.value)
      ensures s == e ==> stop.Some?
      ensures stop.None? ==> Inv(adjacency, nodes, s, st', l') && Expanded(adjacency, st', {}) &&
                             (e in st'.g ==> e in Ids(st'.open)) &&
                             (|Unscored(adjacency, s, st')| < |Unscored(adjacency, s, st)| ||
                              (|Unscored(adjacency, s, st')| == |Unscored(adjacency, s, st)| &&
                               Potential(st', order) < Potential(st, order)))
    {
      var sorted := SortByF(st.open);
      var current := sorted[0];
      st' := st.(open := sorted[1..]);
      l' := l;
      PopKeepsInv(adjacency, nodes, s, e, st, l, sorted, st', order);
      if current.id == e {
        var o := Finish(s, e, st', l);
        return Some(o), st', l';
      }
      var next;
      next, l' := Expand(s, e, st', l, current.id, |Unscored(adjacency, s, st)|, Potential(st, order));
      if next.None? {
        return Some(Failed), st', l';
      }
      st' := next.value;
      stop := None;
    }

    /** Relaxes every adjacency entry of the popped node `current` in list order; `None` as soon
        as a relaxation fails, which happens only on reaching a node that is not loaded. */
    method Expand(s: NodeId, e: NodeId, st0: SearchState, ghost l0: Ledger, current: NodeId,
                  ghost u0: nat, ghost p0: nat)
      returns (r: Option<SearchState>, ghost l: Ledger)
      requires Valid() && Inv(adjacency, nodes, s, st0, l0) && e in nodes && s in nodes && s != e
      requires current in st0.g && current !in Ids(st0.open) && Expanded(adjacency, st0, {current})
      requires e in st0.g ==> e in Ids(st0.open)
      requires |Unscored(adjacency, s, st0)| < u0 || (|Unscored(adjacency, s, st0)| == u0 && Potential(st0, order) < p0)
      ensures r.None? ==> Answers(Some(s), Some(e), Failed)
      ensures r.Some? ==> Inv(adjacency, nodes, s, r.value, l) && Expanded(adjacency, r.value, {}) &&
                          (e in r.value.g ==> e in Ids(r.value.open)) &&
                          (|Unscored(adjacency, s, r.value)| < u0 ||
                           (|Unscored(adjacency, s, r.value)| == u0 && Potential(r.value, order) < p0))
    {
      var st := st0;
      l := l0;
      var neighbors := Entries(adjacency, current);
      var i := 0;
      while i < |neighbors|
        invariant 0 <= i <= |neighbors|
        invariant Inv(adjacency, nodes, s, st, l)
        invariant current in st.g && current !in Ids(st.open)
        invariant Expanded(adjacency, st, {current})
        invariant forall j :: 0 <= j < i ==> neighbors[j].target in st.g
        invariant e in st.g ==> e in Ids(st.open)
        invariant |Unscored(adjacency, s, st)| < u0 || (|Unscored(adjacency, s, st)| == u0 && Potential(st, order) < p0)
      {
        var next;
        next, l := ExpandStep(s, e, st, l, current, neighbors[i], u0, p0);
        if next.None? {
          return None, l;
        }
        TargetsStayScored(neighbors, i, st.g, next.value.g);
        st := next.value;
        i := i + 1;
      }
      FinishExpansion(adjacency, st, current);
      r := Some(st);
    }

    /** One relaxation inside `Expand`, with the loop's invariants carried across it. */
    method ExpandStep(s: NodeId, e: NodeId, st: SearchState, ghost l: Ledger, current: NodeId, a: Adj,
                      ghost u0: nat, ghost p0: nat)
      returns (r: Option<SearchState>, ghost l': Ledger)
      requires Valid() && Inv(adjacency, nodes, s, st, l) && e in nodes && s in nodes && s != e
      requires current in st.g && current !in Ids(st.open) && Expanded(adjacency, st, {current})
      requires a in Entries(adjacency, current)
      requires e in st.g ==> e in Ids(st.open)
      requires |Unscored(adjacency, s, st)| < u0 || (|Unscored(adjacency, s, st)| == u0 && Potential(st, order) < p0)
      ensures r.None? ==> Answers(Some(s), Some(e), Failed)
      ensures r.Some? ==> r == Relax(nodes, distance, e, st, current, a) &&
                          Inv(adjacency, nodes, s, r.value, l') &&
                          current in r.value.g && current !in Ids(r.value.open) &&
                          Expanded(adjacency, r.value, {current}) &&
                          a.target in r.value.g && st.g.Keys <= r.value.g.Keys &&
                          (e in r.value.g ==> e in Ids(r.value.open)) &&
                          (|Unscored(adjacency, s, r.value)| < u0 ||
                           (|Unscored(adjacency, s, r.value)| == u0 && Potential(r.value, order) < p0))
    {
      r := RelaxEntry(e, st, current, a);
      l' := l;
      if r.None? {
        ghost var w := l.walk[current];
        assert IsWalk(adjacency, w + [Step(current, a)], s, a.target) by {
          ExtendWalk(adjacency, w, s, current, a);
        }
        EscapeFails(s, e, w + [Step(current, a)], a.target);
        return;
      }
      RelaxPreserves(adjacency, nodes, distance, s, e, st, l, current, a, order, u0, p0);
      l' := Record(st, l, current, a);
    }

    /** Relaxes one adjacency entry of `current`: when the score through `current` beats the
        neighbour's, record the parent, the new scores and the open entry (appended, or its `f`
        overwritten in place); `None` where reading the heuristic fails. */
    method RelaxEntry(e: NodeId, st: SearchState, current: NodeId, a: Adj) returns (r: Option<SearchState>)
      requires current in st.g
      ensures r == Relax(nodes, distance, e, st, current, a)
    {
      var tentative := st.g[current] + a.weight;
      if a.target in st.g && tentative >= st.g[a.target] {
        return Some(st);
      }
      var h := Heuristic(nodes, distance, a.target, e);
      if h.None? {
        return None;
      }
      var fv := tentative + h.value;
      var open := st.open;
      var k := FindIndex(open, a.target);
      if k == -1 {
        open := open + [OpenEntry(a.target, fv)];
      } else {
        open := open[k := OpenEntry(a.target, fv)];
      }
      r := Some(SearchState(open, st.g[a.target := tentative], st.f[a.target := fv],
                            st.cameFrom[a.target := Parent(current, a.geometry, current != a.originalSource)]));
    }

    /** The end node was popped: build the route from its parent chain. */
    method Finish(s: NodeId, n: NodeId, st: SearchState, ghost l: Ledger) returns (o: Outcome)
      requires Valid() && Inv(adjacency, nodes, s, st, l) && n in st.g && s in nodes && n in nodes
      requires s == n ==> st.cameFrom == map[]
      ensures o.Found? && o.route.distanceMeters == st.g[n]
      ensures Answers(Some(s), Some(n), o)
    {
      ghost var chain, exact := FoundWalks(adjacency, nodes, s, st, l, n);
      var route := ReconstructPath(st.cameFrom, n, st.g[n], st.g, l.stamp);
      o := Found(route);
      assert IsWalk(adjacency, exact, s, n) && Weight(exact) == o.route.distanceMeters;
      assert IsWalk(adjacency, chain, s, n) && Weight(chain) <= o.route.distanceMeters &&
             AllHaveEnds(nodes, Hops(chain)) && o.route.path == Stitch(nodes, Hops(chain));
    }

    /** Walks the parent records back from `currentId`, orienting each hop's geometry and turning
        its points into `[lat, lon]`, then concatenates the segments in travel order. */
    method ReconstructPath(cameFrom: map<NodeId, Parent>, currentId: NodeId, totalDistance: nat,
                           ghost g: map<NodeId, nat>, ghost stamp: map<NodeId, nat>)
      returns (r: RouteResult)
      requires Ranked(cameFrom, g, stamp) && currentId in g && currentId in stamp
      requires forall m :: m in cameFrom ==> m in nodes && cameFrom[m].from in nodes
      ensures AllHaveEnds(nodes, Chain(cameFrom, g, stamp, currentId))
      ensures r.path == Stitch(nodes, Chain(cameFrom, g, stamp, currentId))
      ensures r.distanceMeters == totalDistance
      ensures r.durationMinutes * SpeedMetersPerMinute == totalDistance as real
    {
      var segments, done := CollectSegments(cameFrom, currentId, g, stamp);
      var fullPath: seq<Pair> := [];
      var k := 0;
      while k < |segments|
        invariant 0 <= k <= |segments|
        invariant AllHaveEnds(nodes, done[..k])
        invariant fullPath == Stitch(nodes, done[..k])
      {
        StitchStep(nodes, done, k);
        fullPath := fullPath + segments[k];
        k := k + 1;
      }
      assert done[..k] == done;
      r := RouteResult(fullPath, totalDistance, totalDistance as real / SpeedMetersPerMinute);
    }

    /** The first loop of reconstruction: the parent records walked back from `currentId`, each
        hop's segment put in front, so the segments come out in travel order. */
    method CollectSegments(cameFrom: map<NodeId, Parent>, currentId: NodeId,
                           ghost g: map<NodeId, nat>, ghost stamp: map<NodeId, nat>)
      returns (segments: seq<seq<Pair>>, ghost done: seq<Hop>)
      requires Ranked(cameFrom, g, stamp) && currentId in g && currentId in stamp
      requires forall m :: m in cameFrom ==> m in nodes && cameFrom[m].from in nodes
      ensures done == Chain(cameFrom, g, stamp, currentId) && AllHaveEnds(nodes, done)
      ensures |segments| == |done|
      ensures forall k :: 0 <= k < |done| ==> segments[k] == Segment(nodes, done[k])
    {
      ghost var chain := Chain(cameFrom, g, stamp, currentId);
      ChainHasEnds(nodes, cameFrom, g, stamp, currentId);
      segments, done := [], [];
      var current := currentId;
      while current in cameFrom
        invariant current in g && current in stamp
        invariant chain == Chain(cameFrom, g, stamp, current) + done
        invariant |segments| == |done|
        invariant forall k :: 0 <= k < |done| ==> HasEnds(nodes, done[k]) && segments[k] == Segment(nodes, done[k])
        decreases g[current], stamp[current]
      {
        var parentInfo := cameFrom[current];
        ChainUnfold(cameFrom, g, stamp, current);
        ghost var hop := Hop(current, parentInfo);
        var points := HopSegment(current, parentInfo);
        segments := [points] + segments;
        done := [hop] + done;
        current := parentInfo.from;
      }
      assert done == chain;
    }

    /** One hop's points: the stored polyline, reversed when the edge was traversed against its
        stored direction, or the two end positions in travel order when there is none; every
        point turned into `[lat, lon]`. */
    method HopSegment(current: NodeId, parentInfo: Parent) returns (points: seq<Pair>)
      requires HasEnds(nodes, Hop(current, parentInfo))
      ensures points == Segment(nodes, Hop(current, parentInfo))
    {
      var reverse: bool;
      if parentInfo.geometry.Line? {
        points := parentInfo.geometry.points;
        reverse := parentInfo.isReverse;
      } else {
        var n1 := nodes[parentInfo.from];
        var n2 := nodes[current];
        points := [Pair(n1.lon, n1.lat), Pair(n2.lon, n2.lat)];
        reverse := false;
      }
      if reverse {
        points := Reverse(points);
      }
      points := SwapAll(points);
    }
  }
}
