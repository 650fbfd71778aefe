/** Snapping a query coordinate to the closest node that belongs to the connected network. */
module Nearest {
  import opened Graph

  /** The great-circle distance, kept abstract: `Distance(lat1, lon1, lat2, lon2)` in metres. */
  type Distance = (real, real, real, real) -> nat

  /** A node takes part in routing only when its adjacency list exists and is non-empty. */
  predicate Connected(adj: Adjacency, k: NodeId)
  {
    k in adj && |adj[k]| > 0
  }

  function DistTo(nodes: map<NodeId, Node>, dist: Distance, lat: real, lon: real, k: NodeId): nat
    requires k in nodes
  {
    dist(lat, lon, nodes[k].lat, nodes[k].lon)
  }

  /** The linear scan over `ids`: skip unconnected nodes and keep the first strictly closer one;
      -1 when nothing was kept. */
  function Scan(nodes: map<NodeId, Node>, adj: Adjacency, dist: Distance, lat: real, lon: real,
                ids: seq<nat>): (r: int)
    requires forall k :: k in ids ==> k in nodes
    ensures r == -1 || (r in ids && Connected(adj, r))
    decreases |ids|
  {
    if ids == [] then -1
    else
      var best := Scan(nodes, adj, dist, lat, lon, ids[..|ids| - 1]);
      var k := ids[|ids| - 1];
      if !Connected(adj, k) then best
      else if best == -1 || DistTo(nodes, dist, lat, lon, k) < DistTo(nodes, dist, lat, lon, best) then k
      else best
  }

  /** Scanning one more id of `ids`. */
  lemma ScanStep(nodes: map<NodeId, Node>, adj: Adjacency, dist: Distance, lat: real, lon: real,
                 ids: seq<nat>, i: nat)
    requires forall k :: k in ids ==> k in nodes
    requires i < |ids|
    ensures ids[i] in nodes
    ensures var best, k := Scan(nodes, adj, dist, lat, lon, ids[..i]), ids[i];
            Scan(nodes, adj, dist, lat, lon, ids[..i + 1]) ==
              if !Connected(adj, k) then best
              else if best == -1 || DistTo(nodes, dist, lat, lon, k) < DistTo(nodes, dist, lat, lon, best) then k
              else best
  {
    assert ids[..i + 1][..i] == ids[..i];
  }

  /** The scan finds nothing exactly when no scanned node is connected. */
  lemma {:induction false} ScanNotFound(nodes: map<NodeId, Node>, adj: Adjacency, dist: Distance,
                                        lat: real, lon: real, ids: seq<nat>)
    requires forall k :: k in ids ==> k in nodes
    ensures Scan(nodes, adj, dist, lat, lon, ids) == -1 <==> forall j :: 0 <= j < |ids| ==> !Connected(adj, ids[j])
    decreases |ids|
  {
    if ids != [] {
      var front := ids[..|ids| - 1];
      ScanNotFound(nodes, adj, dist, lat, lon, front);
      assert forall j :: 0 <= j < |front| ==> front[j] == ids[j];
    }
  }

  /** The node found is no farther than any connected scanned node, and among nodes at the same
      distance it is the one scanned first. */
  lemma {:induction false} ScanClosest(nodes: map<NodeId, Node>, adj: Adjacency, dist: Distance,
                                       lat: real, lon: real, ids: seq<nat>, j: nat)
    requires forall k :: k in ids ==> k in nodes
    requires j < |ids| && Connected(adj, ids[j])
    ensures var r := Scan(nodes, adj, dist, lat, lon, ids);
            r != -1 &&
            DistTo(nodes, dist, lat, lon, r) <= DistTo(nodes, dist, lat, lon, ids[j]) &&
            (DistTo(nodes, dist, lat, lon, r) == DistTo(nodes, dist, lat, lon, ids[j]) ==> r in ids[..j + 1])
    decreases |ids|
  {
    var front := ids[..|ids| - 1];
    var best := Scan(nodes, adj, dist, lat, lon, front);
    if j < |ids| - 1 {
      ScanClosest(nodes, adj, dist, lat, lon, front, j);
      assert front[..j + 1] == ids[..j + 1];
    } else if best != -1 {
      var i :| 0 <= i < |front| && front[i] == best;
      ScanClosest(nodes, adj, dist, lat, lon, front, i);
      assert ids[..j + 1] == ids;
    } else {
      assert ids[..j + 1] == ids;
    }
  }

  /** With ascending ids (the order in which the router enumerates its nodes), a tie goes to the
      smallest id. */
  lemma ScanTieSmallestId(nodes: map<NodeId, Node>, adj: Adjacency, dist: Distance,
                          lat: real, lon: real, ids: seq<nat>, j: nat)
    requires forall k :: k in ids ==> k in nodes
    requires Ascending(ids)
    requires j < |ids| && Connected(adj, ids[j])
    ensures var r := Scan(nodes, adj, dist, lat, lon, ids);
            r != -1 && (DistTo(nodes, dist, lat, lon, r) == DistTo(nodes, dist, lat, lon, ids[j]) ==> r <= ids[j])
  {
    ScanClosest(nodes, adj, dist, lat, lon, ids, j);
  }
}
