/** The road network as the router holds it once loaded: nodes keyed by id, the ids in the
    order the router enumerates them, and for every node the list of adjacency entries that
    loading derives from the directed edge records. */
module Graph {
  import opened Wrappers

  type NodeId = int

  /** A two-component coordinate: stored geometry is `[lon, lat]`, the returned path `[lat, lon]`. */
  datatype Pair = Pair(first: real, second: real)

  /** An edge's stored polyline, or `NotArray` for a stored value that is not an array. */
  datatype Geometry = Line(points: seq<Pair>) | NotArray

  datatype Node = Node(id: nat, lat: real, lon: real, nodeLabel: Option<string>)

  /** An edge record as stored: directed from `sourceId` to `targetId`. */
  datatype Edge = Edge(sourceId: nat, targetId: nat, weight: nat, geometry: Geometry)

  /** One traversal option out of a node; `originalSource`/`originalTarget` keep the edge's
      stored direction so that the geometry can be oriented later. */
  datatype Adj = Adj(target: NodeId, weight: nat, originalSource: NodeId, originalTarget: NodeId,
                     geometry: Geometry)

  type Adjacency = map<NodeId, seq<Adj>>

  /** `this.adjacency[id] || []` */
  function Entries(adj: Adjacency, u: NodeId): seq<Adj>
  {
    if u in adj then adj[u] else []
  }

  function Forward(e: Edge): Adj
  {
    Adj(e.targetId, e.weight, e.sourceId, e.targetId, e.geometry)
  }

  function Backward(e: Edge): Adj
  {
    Adj(e.sourceId, e.weight, e.sourceId, e.targetId, e.geometry)
  }

  /** Loading one edge: a forward entry appended at the source, then a backward entry
      appended at the target; no other list changes. */
  function AddEdge(adj: Adjacency, e: Edge): (r: Adjacency)
    ensures r.Keys == adj.Keys + {e.sourceId, e.targetId}
    ensures e.sourceId != e.targetId ==>
              r[e.sourceId] == Entries(adj, e.sourceId) + [Forward(e)] &&
              r[e.targetId] == Entries(adj, e.targetId) + [Backward(e)]
    ensures e.sourceId == e.targetId ==>
              r[e.sourceId] == Entries(adj, e.sourceId) + [Forward(e), Backward(e)]
    ensures forall u :: u in adj && u != e.sourceId && u != e.targetId ==> r[u] == adj[u]
  {
    var withForward := adj[e.sourceId := Entries(adj, e.sourceId) + [Forward(e)]];
    withForward[e.targetId := Entries(withForward, e.targetId) + [Backward(e)]]
  }

  /** Loading a sequence of edges in order. */
  function AddEdges(adj: Adjacency, es: seq<Edge>): (r: Adjacency)
    ensures r.Keys == adj.Keys + (set e | e in es :: e.sourceId as NodeId) + (set e | e in es :: e.targetId as NodeId)
    decreases |es|
  {
    if es == [] then adj
    else
      EndpointsSnoc(es);
      AddEdge(AddEdges(adj, es[..|es| - 1]), es[|es| - 1])
  }

  /** The endpoints of a non-empty edge list are those of all but its last edge plus the last
      edge's own. */
  lemma EndpointsSnoc(es: seq<Edge>)
    requires es != []
    ensures (set e | e in es :: e.sourceId as NodeId)
         == (set e | e in es[..|es| - 1] :: e.sourceId as NodeId) + {es[|es| - 1].sourceId as NodeId}
    ensures (set e | e in es :: e.targetId as NodeId)
         == (set e | e in es[..|es| - 1] :: e.targetId as NodeId) + {es[|es| - 1].targetId as NodeId}
  {
    assert forall e :: e in es <==> e in es[..|es| - 1] || e == es[|es| - 1];
  }

  /** The entry a traversal of `a` out of `u` would find at the other end, leading back to `u`. */
  function Mirror(u: NodeId, a: Adj): Adj
  {
    Adj(u, a.weight, a.originalSource, a.originalTarget, a.geometry)
  }

  /** Every entry out of `u` towards `v` has its mirror entry out of `v` towards `u`. */
  ghost predicate Symmetric(adj: Adjacency)
  {
    forall u, i :: u in adj && 0 <= i < |adj[u]| ==> Mirror(u, adj[u][i]) in Entries(adj, adj[u][i].target)
  }

  /** An entry out of `u` runs along its stored edge either forwards or backwards. */
  predicate Runs(u: NodeId, a: Adj)
  {
    (u == a.originalSource && a.target == a.originalTarget) ||
    (u == a.originalTarget && a.target == a.originalSource)
  }

  ghost predicate Oriented(adj: Adjacency)
  {
    forall u, i :: u in adj && 0 <= i < |adj[u]| ==> Runs(u, adj[u][i])
  }

  lemma {:induction false} AddEdgeKeepsEntries(adj: Adjacency, e: Edge, u: NodeId)
    ensures Entries(adj, u) <= Entries(AddEdge(adj, e), u)
  {
  }

  lemma {:induction false} AddEdgeSymmetric(adj: Adjacency, e: Edge)
    requires Symmetric(adj) && Oriented(adj)
    ensures Symmetric(AddEdge(adj, e)) && Oriented(AddEdge(adj, e))
  {
    var r := AddEdge(adj, e);
    forall u, i | u in r && 0 <= i < |r[u]|
      ensures Mirror(u, r[u][i]) in Entries(r, r[u][i].target) && Runs(u, r[u][i])
    {
      var a := r[u][i];
      if i < |Entries(adj, u)| {
        assert a == adj[u][i];
        AddEdgeKeepsEntries(adj, e, a.target);
      } else if u == e.sourceId && a == Forward(e) {
        assert Mirror(u, a) == Backward(e);
      } else {
        assert u == e.targetId && a == Backward(e);
        assert Mirror(u, a) == Forward(e);
      }
    }
  }

  /** Loading keeps the adjacency symmetric and every entry oriented along its edge. */
  lemma {:induction false} AddEdgesSymmetric(adj: Adjacency, es: seq<Edge>)
    requires Symmetric(adj) && Oriented(adj)
    ensures Symmetric(AddEdges(adj, es)) && Oriented(AddEdges(adj, es))
    decreases |es|
  {
    if es != [] {
      AddEdgesSymmetric(adj, es[..|es| - 1]);
      AddEdgeSymmetric(AddEdges(adj, es[..|es| - 1]), es[|es| - 1]);
    }
  }

  /** Loading more edges only appends to adjacency lists. */
  lemma {:induction false} AddEdgesKeepsEntries(adj: Adjacency, es: seq<Edge>, u: NodeId)
    ensures Entries(adj, u) <= Entries(AddEdges(adj, es), u)
    decreases |es|
  {
    if es != [] {
      AddEdgesKeepsEntries(adj, es[..|es| - 1], u);
      AddEdgeKeepsEntries(AddEdges(adj, es[..|es| - 1]), es[|es| - 1], u);
    }
  }

  /** After loading, both endpoints of every loaded edge have a non-empty adjacency list
      holding that edge's forward and backward entries. */
  lemma {:induction false} LoadedEdgeEndpoints(adj: Adjacency, es: seq<Edge>, k: nat)
    requires k < |es|
    ensures Forward(es[k]) in Entries(AddEdges(adj, es), es[k].sourceId)
    ensures Backward(es[k]) in Entries(AddEdges(adj, es), es[k].targetId)
    decreases |es|
  {
    if k == |es| - 1 {
      assert es[..|es| - 1] + [es[k]] == es;
    } else {
      LoadedEdgeEndpoints(adj, es[..|es| - 1], k);
      var before := AddEdges(adj, es[..|es| - 1]);
      AddEdgeKeepsEntries(before, es[|es| - 1], es[k].sourceId);
      AddEdgeKeepsEntries(before, es[|es| - 1], es[k].targetId);
    }
  }

  /** Storing node records one after the other; a later record with the same id wins. */
  function PutNodes(m: map<NodeId, Node>, ns: seq<Node>): (r: map<NodeId, Node>)
    ensures r.Keys == m.Keys + (set n | n in ns :: n.id as NodeId)
    decreases |ns|
  {
    if ns == [] then m
    else
      var last := ns[|ns| - 1];
      var r := PutNodes(m, ns[..|ns| - 1])[last.id := last];
      assert forall n :: n in ns <==> n in ns[..|ns| - 1] || n == last;
      r
  }

  /** What each key of the stored table holds: the last record with that id, or the old entry
      when no record has the id. With the key set of `PutNodes` this fixes the whole table. */
  lemma PutNodesLastWins(m: map<NodeId, Node>, ns: seq<Node>)
    ensures forall i :: 0 <= i < |ns| && (forall j :: i < j < |ns| ==> ns[j].id != ns[i].id) ==>
              ns[i].id in PutNodes(m, ns) && PutNodes(m, ns)[ns[i].id] == ns[i]
    ensures forall k :: k in m && (forall n :: n in ns ==> n.id != k) ==>
              k in PutNodes(m, ns) && PutNodes(m, ns)[k] == m[k]
  {
    forall i | 0 <= i < |ns| && (forall j :: i < j < |ns| ==> ns[j].id != ns[i].id)
      ensures ns[i].id in PutNodes(m, ns) && PutNodes(m, ns)[ns[i].id] == ns[i]
    {
      PutNodesLast(m, ns, i);
    }
    forall k | k in m && (forall n :: n in ns ==> n.id != k)
      ensures k in PutNodes(m, ns) && PutNodes(m, ns)[k] == m[k]
    {
      PutNodesKeeps(m, ns, k);
    }
  }

  /** The record at `i` is the last with its id, so the table holds it. */
  lemma {:induction false} PutNodesLast(m: map<NodeId, Node>, ns: seq<Node>, i: nat)
    requires i < |ns| && forall j :: i < j < |ns| ==> ns[j].id != ns[i].id
    ensures ns[i].id in PutNodes(m, ns) && PutNodes(m, ns)[ns[i].id] == ns[i]
    decreases |ns|
  {
    var p, last := ns[..|ns| - 1], ns[|ns| - 1];
    if i < |ns| - 1 {
      assert last.id != ns[i].id;
      forall j | i < j < |p| ensures p[j].id != p[i].id { assert p[j] == ns[j]; }
      PutNodesLast(m, p, i);
    }
  }

  /** A key no record has keeps its old entry. */
  lemma {:induction false} PutNodesKeeps(m: map<NodeId, Node>, ns: seq<Node>, k: NodeId)
    requires k in m && forall n :: n in ns ==> n.id != k
    ensures k in PutNodes(m, ns) && PutNodes(m, ns)[k] == m[k]
    decreases |ns|
  {
    if ns != [] {
      var p := ns[..|ns| - 1];
      assert ns[|ns| - 1] in ns;
      assert forall n :: n in p ==> n in ns;
      PutNodesKeeps(m, p, k);
    }
  }

  predicate Ascending(s: seq<nat>)
  {
    forall i, j :: 0 <= i < j < |s| ==> s[i] < s[j]
  }

  /** Adding a key to the ascending key order the router enumerates node ids in. */
  function InsertSorted(s: seq<nat>, x: nat): (r: seq<nat>)
    requires Ascending(s)
    ensures Ascending(r)
    ensures forall y :: y in r <==> y in s || y == x
    decreases |s|
  {
    if s == [] then [x]
    else if x == s[0] then s
    else if x < s[0] then [x] + s
    else
      var rest := InsertSorted(s[1..], x);
      AscendingHead(s);
      ConsAscending(s[0], rest);
      assert s == [s[0]] + s[1..];
      [s[0]] + rest
  }

  /** A value below everything in an ascending sequence can be put in front of it. */
  lemma ConsAscending(h: nat, t: seq<nat>)
    requires Ascending(t) && forall y :: y in t ==> h < y
    ensures Ascending([h] + t)
  {
    var r := [h] + t;
    forall i, j | 0 <= i < j < |r| ensures r[i] < r[j] {
      assert r[j] == t[j - 1] && t[j - 1] in t;
      if i > 0 { assert r[i] == t[i - 1]; }
    }
  }

  /** The head of an ascending sequence is below everything after it. */
  lemma AscendingHead(s: seq<nat>)
    requires Ascending(s) && s != []
    ensures forall y :: y in s[1..] ==> s[0] < y
  {
    forall y | y in s[1..] ensures s[0] < y {
      var j :| 0 <= j < |s[1..]| && s[1..][j] == y;
      assert s[j + 1] == y;
    }
  }

  /** The node table and the enumeration order list the same ids, ascending, and every node is
      stored under its own id. */
  predicate Indexed(nodes: map<NodeId, Node>, order: seq<nat>)
  {
    Ascending(order) &&
    (forall k :: k in order ==> k in nodes) &&
    (forall k :: k in nodes ==> k >= 0 && k in order && nodes[k].id == k)
  }

  /** Storing one node record keeps the table indexed, the order gaining the id when it is new. */
  lemma PutNodeIndexed(nodes: map<NodeId, Node>, order: seq<nat>, n: Node)
    requires Indexed(nodes, order)
    ensures Indexed(nodes[n.id := n], if n.id in nodes then order else InsertSorted(order, n.id))
  {
  }

  /** Loading one more edge of `es` adds its two entries. */
  lemma AddEdgesStep(adj: Adjacency, es: seq<Edge>, j: nat)
    requires j < |es|
    ensures AddEdges(adj, es[..j + 1]) == AddEdge(AddEdges(adj, es[..j]), es[j])
  {
    assert es[..j + 1][..j] == es[..j];
  }
}
