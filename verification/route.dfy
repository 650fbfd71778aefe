/** Turning the search's parent records into the returned polyline: every traversed edge
    contributes its stored geometry, oriented in the direction of travel and with each point
    turned from `[lon, lat]` into `[lat, lon]`; the segments are concatenated from start to end. */
module Route {
  import opened Graph

  /** `cameFrom[n]`: the node the search reached `n` from, the edge geometry it used, and
      whether it went against the edge's stored direction. */
  datatype Parent = Parent(from: NodeId, geometry: Geometry, isReverse: bool)

  /** One step of the parent chain: `cameFrom[to] == parent`. */
  datatype Hop = Hop(to: NodeId, parent: Parent)

  /** `{path, distance_meters, duration_minutes}` */
  datatype RouteResult = RouteResult(path: seq<Pair>, distanceMeters: nat, durationMinutes: real)

  /** The assumed travel speed: 30 km/h. */
  const SpeedMetersPerMinute: real := 500.0

  /** `points.reverse()` */
  function Reverse(s: seq<Pair>): seq<Pair>
  {
    seq(|s|, i requires 0 <= i < |s| => s[|s| - 1 - i])
  }

  /** `p => [p[1], p[0]]` */
  function Swap(p: Pair): Pair
  {
    Pair(p.second, p.first)
  }

  /** `points.map(p => [p[1], p[0]])` */
  function SwapAll(s: seq<Pair>): seq<Pair>
  {
    seq(|s|, i requires 0 <= i < |s| => Swap(s[i]))
  }

  /** A node's position in storage order, `[lon, lat]`. */
  function Stored(n: Node): Pair
  {
    Pair(n.lon, n.lat)
  }

  /** A node's position in output order, `[lat, lon]`. */
  function LatLon(n: Node): Pair
  {
    Pair(n.lat, n.lon)
  }

  /** The fallback segment needs the coordinates of both ends of the hop. */
  predicate HasEnds(nodes: map<NodeId, Node>, h: Hop)
  {
    h.parent.geometry.NotArray? ==> h.parent.from in nodes && h.to in nodes
  }

  /** The number of points an edge contributes: its stored polyline's, or the two end positions. */
  function SegmentSize(h: Hop): nat
  {
    match h.parent.geometry
    case Line(ps) => |ps|
    case NotArray => 2
  }

  /** One hop's segment exactly as `reconstructPath` in astar.js builds it: the fallback
      `[from, current]` is built in travel order and then reversed again when `isReverse` holds. */
  function SegmentAsWritten(nodes: map<NodeId, Node>, h: Hop): (r: seq<Pair>)
    requires HasEnds(nodes, h)
    ensures |r| == SegmentSize(h)
  {
    var points := match h.parent.geometry
      case Line(ps) => ps
      case NotArray => [Stored(nodes[h.parent.from]), Stored(nodes[h.to])];
    SwapAll(if h.parent.isReverse then Reverse(points) else points)
  }

  /** One hop's segment: the stored polyline reversed exactly when the edge was traversed
      against its stored direction, or the two end positions in travel order when there is no
      stored polyline; every point turned into `[lat, lon]`. */
  function Segment(nodes: map<NodeId, Node>, h: Hop): (r: seq<Pair>)
    requires HasEnds(nodes, h)
    ensures |r| == SegmentSize(h)
  {
    match h.parent.geometry
    case Line(ps) => SwapAll(if h.parent.isReverse then Reverse(ps) else ps)
    case NotArray => [LatLon(nodes[h.parent.from]), LatLon(nodes[h.to])]
  }

  predicate AllHaveEnds(nodes: map<NodeId, Node>, hops: seq<Hop>)
  {
    forall i :: 0 <= i < |hops| ==> HasEnds(nodes, hops[i])
  }

  /** The segments of a parent chain concatenated in start-to-end order, join points kept. */
  function Stitch(nodes: map<NodeId, Node>, hops: seq<Hop>): seq<Pair>
    requires AllHaveEnds(nodes, hops)
    decreases |hops|
  {
    if hops == [] then [] else Stitch(nodes, hops[..|hops| - 1]) + Segment(nodes, hops[|hops| - 1])
  }

  /** Each point of a stored polyline segment is the swapped stored point, taken from the far end
      when the edge was traversed backwards. */
  lemma SegmentOrientation(nodes: map<NodeId, Node>, h: Hop, i: nat)
    requires h.parent.geometry.Line? && i < |h.parent.geometry.points|
    ensures var ps := h.parent.geometry.points;
            |Segment(nodes, h)| == |ps| &&
            Segment(nodes, h)[i] == Swap(ps[if h.parent.isReverse then |ps| - 1 - i else i])
  {
    var ps := h.parent.geometry.points;
    var oriented := if h.parent.isReverse then Reverse(ps) else ps;
    assert Segment(nodes, h) == SwapAll(oriented);
    assert oriented[i] == ps[if h.parent.isReverse then |ps| - 1 - i else i];
  }

  /** Traversing the same stored edge in the other direction yields the same points in the
      opposite order. */
  lemma {:induction false} OppositeTraversalReverses(nodes: map<NodeId, Node>, ps: seq<Pair>, a: NodeId, b: NodeId)
    ensures Segment(nodes, Hop(b, Parent(a, Line(ps), true))) ==
            Reverse(Segment(nodes, Hop(a, Parent(b, Line(ps), false))))
  {
    var back := Segment(nodes, Hop(b, Parent(a, Line(ps), true)));
    var fwd := Segment(nodes, Hop(a, Parent(b, Line(ps), false)));
    assert |back| == |fwd| == |ps|;
    forall i | 0 <= i < |ps| ensures back[i] == Reverse(fwd)[i] {
      assert back[i] == Swap(ps[|ps| - 1 - i]);
    }
  }

  /** Reversing twice restores a polyline: a segment traversed back and forth is unchanged. */
  lemma {:induction false} ReverseTwiceRestores(s: seq<Pair>)
    ensures Reverse(Reverse(s)) == s
  {
    var r := Reverse(s);
    assert |r| == |s|;
    forall i | 0 <= i < |s| ensures Reverse(r)[i] == s[i] {
      assert Reverse(r)[i] == r[|s| - 1 - i];
    }
  }

  /** Turning points twice restores them: the swap is applied exactly once per point. */
  lemma {:induction false} SwapTwiceRestores(s: seq<Pair>)
    ensures SwapAll(SwapAll(s)) == s
  {
    assert forall i :: 0 <= i < |s| ==> SwapAll(SwapAll(s))[i] == s[i];
  }

  /** Without a stored polyline, the segment runs from the node travelled from to the node
      travelled to, whatever the edge's stored direction. */
  lemma FallbackRunsForward(nodes: map<NodeId, Node>, h: Hop)
    requires h.parent.geometry.NotArray? && HasEnds(nodes, h)
    ensures Segment(nodes, h) == [LatLon(nodes[h.parent.from]), LatLon(nodes[h.to])]
  {
  }

  /** The segment astar.js builds and the corrected one differ only for a backward hop without
      polyline. */
  lemma {:induction false} AsWrittenAgreesOnPolylines(nodes: map<NodeId, Node>, h: Hop)
    requires HasEnds(nodes, h)
    requires h.parent.geometry.Line? || !h.parent.isReverse
    ensures SegmentAsWritten(nodes, h) == Segment(nodes, h)
  {
    if h.parent.geometry.NotArray? {
      assert SwapAll([Stored(nodes[h.parent.from]), Stored(nodes[h.to])])
          == [LatLon(nodes[h.parent.from]), LatLon(nodes[h.to])];
    }
  }

  /** The fallback astar.js builds for a hop that went against a stored edge without polyline starts
      at the node travelled to: the segment points backwards. */
  lemma {:induction false} AsWrittenFallbackBackwards(nodes: map<NodeId, Node>, h: Hop)
    requires h.parent.geometry.NotArray? && h.parent.isReverse && HasEnds(nodes, h)
    ensures SegmentAsWritten(nodes, h) == [LatLon(nodes[h.to]), LatLon(nodes[h.parent.from])]
  {
    var pts := [Stored(nodes[h.parent.from]), Stored(nodes[h.to])];
    assert Reverse(pts) == [Stored(nodes[h.to]), Stored(nodes[h.parent.from])];
  }

  /** A concrete instance: an edge 1 -> 2 without polyline, travelled from 2 to 1. */
  lemma AsWrittenFallbackCounterexample()
    ensures var nodes := map[1 := Node(1, 0.0, 0.0, Wrappers.None), 2 := Node(2, 0.0, 0.001, Wrappers.None)];
            var h := Hop(1, Parent(2, NotArray, true));
            SegmentAsWritten(nodes, h)[0] == Pair(0.0, 0.0) &&
            Segment(nodes, h)[0] == Pair(0.0, 0.001)
  {
    var nodes := map[1 := Node(1, 0.0, 0.0, Wrappers.None), 2 := Node(2, 0.0, 0.001, Wrappers.None)];
    var h := Hop(1, Parent(2, NotArray, true));
    AsWrittenFallbackBackwards(nodes, h);
  }

  /** Stitching is concatenation: the path of two chains is the first's followed by the second's,
      with no point dropped at the join. */
  lemma {:induction false} StitchAppend(nodes: map<NodeId, Node>, a: seq<Hop>, b: seq<Hop>)
    requires AllHaveEnds(nodes, a) && AllHaveEnds(nodes, b)
    ensures AllHaveEnds(nodes, a + b)
    ensures Stitch(nodes, a + b) == Stitch(nodes, a) + Stitch(nodes, b)
    decreases |b|
  {
    EndsAppend(nodes, a, b);
    if b == [] {
      assert a + b == a;
    } else {
      var b' := b[..|b| - 1];
      assert AllHaveEnds(nodes, b');
      StitchAppend(nodes, a, b');
      assert (a + b)[..|a + b| - 1] == a + b';
      assert (a + b)[|a + b| - 1] == b[|b| - 1];
      calc {
        Stitch(nodes, a + b);
        Stitch(nodes, a + b') + Segment(nodes, b[|b| - 1]);
        Stitch(nodes, a) + Stitch(nodes, b') + Segment(nodes, b[|b| - 1]);
      }
    }
  }

  /** Hops that each have their node records still do when concatenated. */
  lemma EndsAppend(nodes: map<NodeId, Node>, a: seq<Hop>, b: seq<Hop>)
    requires AllHaveEnds(nodes, a) && AllHaveEnds(nodes, b)
    ensures AllHaveEnds(nodes, a + b)
  {
    forall i | 0 <= i < |a + b| ensures HasEnds(nodes, (a + b)[i]) {
      if i < |a| { assert (a + b)[i] == a[i]; } else { assert (a + b)[i] == b[i - |a|]; }
    }
  }

  /** Stitching one more hop of `hops` appends its segment. */
  lemma StitchStep(nodes: map<NodeId, Node>, hops: seq<Hop>, k: nat)
    requires AllHaveEnds(nodes, hops) && k < |hops|
    ensures AllHaveEnds(nodes, hops[..k + 1])
    ensures Stitch(nodes, hops[..k + 1]) == Stitch(nodes, hops[..k]) + Segment(nodes, hops[k])
  {
    assert hops[..k + 1][..k] == hops[..k];
  }

  /** The points of all hops together. */
  function TotalSize(hops: seq<Hop>): nat
    decreases |hops|
  {
    if hops == [] then 0 else TotalSize(hops[..|hops| - 1]) + SegmentSize(hops[|hops| - 1])
  }

  /** Join points are not merged: the path has exactly as many points as the hops' geometries. */
  lemma {:induction false} StitchLength(nodes: map<NodeId, Node>, hops: seq<Hop>)
    requires AllHaveEnds(nodes, hops)
    ensures |Stitch(nodes, hops)| == TotalSize(hops)
    decreases |hops|
  {
    if hops != [] {
      var front := hops[..|hops| - 1];
      assert AllHaveEnds(nodes, front);
      StitchLength(nodes, front);
    }
  }
}
