/** The per-query state of the A* search and its relaxation step, with the invariants that
    the search loop keeps. */
module Search {
  import opened Wrappers
  import opened Graph
  import opened Nearest
  import opened Walks
  import opened OpenSet
  import opened Route
  import opened Sums

  /** `openSet`, `gScore`, `fScore`, `cameFrom`; a node missing from `g` or `f` has score Infinity. */
  datatype SearchState = SearchState(open: seq<OpenEntry>, g: map<NodeId, nat>, f: map<NodeId, nat>,
                                     cameFrom: map<NodeId, Parent>)

  /** `heuristic(a, b)`; `None` when a node is unknown, where the JavaScript router fails reading
      its coordinates. */
  function Heuristic(nodes: map<NodeId, Node>, dist: Distance, a: NodeId, b: NodeId): Option<nat>
  {
    if a in nodes && b in nodes then Some(dist(nodes[a].lat, nodes[a].lon, nodes[b].lat, nodes[b].lon))
    else None
  }

  /** The parent record for reaching `a.target` from `from`: reversed unless `from` is the edge's
      stored source. */
  function ParentOf(from: NodeId, a: Adj): Parent
  {
    Parent(from, a.geometry, from != a.originalSource)
  }

  /** Following an edge in its stored direction is a forward traversal; following it from its
      target back to a different source is a reverse one. */
  lemma TraversalDirection(e: Edge)
    ensures !ParentOf(e.sourceId, Forward(e)).isReverse
    ensures ParentOf(e.targetId, Backward(e)).isReverse <==> e.targetId != e.sourceId
    ensures ParentOf(e.sourceId, Forward(e)).geometry == ParentOf(e.targetId, Backward(e)).geometry == e.geometry
  {
  }

  /** The tentative score through `current` beats the neighbour's (Infinity when it has none). */
  predicate Improves(st: SearchState, current: NodeId, a: Adj)
    requires current in st.g
  {
    a.target !in st.g || st.g[current] + a.weight < st.g[a.target]
  }

  /** Relaxing one adjacency entry of `current`; `None` when the improved neighbour (or the end
      node) is unknown and the JavaScript router fails computing the heuristic. */
  function Relax(nodes: map<NodeId, Node>, dist: Distance, end: NodeId, st: SearchState,
                 current: NodeId, a: Adj): (r: Option<SearchState>)
    requires current in st.g
    ensures !Improves(st, current, a) ==> r == Some(st)
    ensures Improves(st, current, a) ==> (r.None? <==> a.target !in nodes || end !in nodes)
    ensures r.Some? && Improves(st, current, a) ==>
              var t, nx := a.target, r.value;
              nx.g == st.g[t := st.g[current] + a.weight] &&
              nx.cameFrom == st.cameFrom[t := ParentOf(current, a)] &&
              nx.f == st.f[t := nx.g[t] + Heuristic(nodes, dist, t, end).value] &&
              OpenEntry(t, nx.f[t]) in nx.open &&
              Ids(nx.open) == Ids(st.open) + {t} &&
              (forall e :: e in st.open && e.id != t ==> e in nx.open) &&
              (Distinct(st.open) ==> Distinct(nx.open)) &&
              |nx.open| == (if t in Ids(st.open) then |st.open| else |st.open| + 1) &&
              (forall j :: 0 <= j < |st.open| && j != FindIndex(st.open, t) ==> nx.open[j] == st.open[j]) &&
              (t in Ids(st.open) ==> nx.open[FindIndex(st.open, t)] == OpenEntry(t, nx.f[t])) &&
              (t !in Ids(st.open) ==> nx.open[|st.open|] == OpenEntry(t, nx.f[t]))
    ensures r.Some? ==> forall n :: n in st.g ==> n in r.value.g && r.value.g[n] <= st.g[n]
    ensures r.Some? ==> forall n :: n in st.cameFrom && n != a.target ==>
                          n in r.value.cameFrom && r.value.cameFrom[n] == st.cameFrom[n]
  {
    var t := a.target;
    var tentative := st.g[current] + a.weight;
    if !Improves(st, current, a) then Some(st)
    else
      match Heuristic(nodes, dist, t, end)
      case None => None
      case Some(h) =>
        var fv := tentative + h;
        Some(SearchState(Upsert(st.open, t, fv), st.g[t := tentative], st.f[t := fv],
                         st.cameFrom[t := ParentOf(current, a)]))
  }

  /** With non-negative weights the start node, at score 0, is never improved, so it never gets
      a parent record. */
  lemma {:induction false} RelaxNeverReparentsStart(nodes: map<NodeId, Node>, dist: Distance, end: NodeId,
                                                    st: SearchState, current: NodeId, a: Adj, start: NodeId)
    requires current in st.g && start in st.g && st.g[start] == 0 && start !in st.cameFrom
    ensures var r := Relax(nodes, dist, end, st, current, a);
            r.Some? ==> start in r.value.g && r.value.g[start] == 0 && start !in r.value.cameFrom
  {
    if a.target == start {
      assert !Improves(st, current, a);
    }
  }

  // ----- the parent chain -----

  /** Along every parent record the pair (score, time of last improvement) strictly decreases,
      so following parents terminates. */
  predicate Ranked(cameFrom: map<NodeId, Parent>, g: map<NodeId, nat>, stamp: map<NodeId, nat>)
  {
    forall n :: n in cameFrom ==>
      n in g && n in stamp && cameFrom[n].from in g && cameFrom[n].from in stamp &&
      (g[n] > g[cameFrom[n].from] || (g[n] == g[cameFrom[n].from] && stamp[cameFrom[n].from] < stamp[n]))
  }

  /** The hops from the root of `n`'s parent chain to `n`, in travel order. */
  function Chain(cameFrom: map<NodeId, Parent>, g: map<NodeId, nat>, stamp: map<NodeId, nat>, n: NodeId): (r: seq<Hop>)
    requires Ranked(cameFrom, g, stamp) && n in g && n in stamp
    ensures r == [] <==> n !in cameFrom
    ensures r != [] ==> r[|r| - 1].to == n && r[0].parent.from !in cameFrom
    ensures forall i :: 0 <= i < |r| ==> r[i].to in cameFrom && r[i].parent == cameFrom[r[i].to]
    ensures forall i :: 0 < i < |r| ==> r[i].parent.from == r[i - 1].to
    decreases g[n], stamp[n]
  {
    if n in cameFrom then
      var front := Chain(cameFrom, g, stamp, cameFrom[n].from);
      var r := front + [Hop(n, cameFrom[n])];
      assert forall i :: 0 <= i < |front| ==> r[i] == front[i];
      assert front == [] ==> r[0] == Hop(n, cameFrom[n]) && cameFrom[n].from !in cameFrom;
      r
    else []
  }

  /** One step back along a parent chain: the chain to `n` is the chain to its parent plus the hop
      into `n`, and the parent ranks strictly lower. */
  lemma ChainUnfold(cameFrom: map<NodeId, Parent>, g: map<NodeId, nat>, stamp: map<NodeId, nat>, n: NodeId)
    requires Ranked(cameFrom, g, stamp) && n in cameFrom
    ensures n in g && n in stamp && cameFrom[n].from in g && cameFrom[n].from in stamp
    ensures g[cameFrom[n].from] < g[n] || (g[cameFrom[n].from] == g[n] && stamp[cameFrom[n].from] < stamp[n])
    ensures Chain(cameFrom, g, stamp, n) == Chain(cameFrom, g, stamp, cameFrom[n].from) + [Hop(n, cameFrom[n])]
  {
  }

  /** Every parent record was made from an adjacency entry of its `from` node leading to the
      recorded node, and the recorded node's score covers its parent's plus that entry's weight. */
  ghost predicate Linked(adj: Adjacency, cameFrom: map<NodeId, Parent>, via: map<NodeId, Adj>, g: map<NodeId, nat>)
  {
    forall n :: n in cameFrom ==>
      n in via && via[n] in Entries(adj, cameFrom[n].from) && via[n].target == n &&
      cameFrom[n] == ParentOf(cameFrom[n].from, via[n]) &&
      n in g && cameFrom[n].from in g && g[n] >= g[cameFrom[n].from] + via[n].weight
  }

  /** The walk that a parent chain stands for. */
  ghost function ChainSteps(cameFrom: map<NodeId, Parent>, via: map<NodeId, Adj>, g: map<NodeId, nat>,
                            stamp: map<NodeId, nat>, n: NodeId): seq<Step>
    requires Ranked(cameFrom, g, stamp) && n in g && n in stamp
    requires forall m :: m in cameFrom ==> m in via
    decreases g[n], stamp[n]
  {
    if n in cameFrom then ChainSteps(cameFrom, via, g, stamp, cameFrom[n].from) + [Step(cameFrom[n].from, via[n])]
    else []
  }

  /** The hops a walk makes, as parent records. */
  function Hops(w: seq<Step>): (r: seq<Hop>)
    ensures |r| == |w|
  {
    seq(|w|, i requires 0 <= i < |w| => Hop(w[i].edge.target, ParentOf(w[i].from, w[i].edge)))
  }

  /** A parent chain ending at a root `start` is a walk from `start` whose weight is at most the
      recorded score, and its hops are exactly the chain's. */
  lemma {:induction false} ChainIsWalk(adj: Adjacency, cameFrom: map<NodeId, Parent>, via: map<NodeId, Adj>,
                                       g: map<NodeId, nat>, stamp: map<NodeId, nat>, start: NodeId, n: NodeId)
    requires Ranked(cameFrom, g, stamp) && Linked(adj, cameFrom, via, g)
    requires forall m :: m in g && m !in cameFrom ==> m == start
    requires n in g && n in stamp
    ensures IsWalk(adj, ChainSteps(cameFrom, via, g, stamp, n), start, n)
    ensures Weight(ChainSteps(cameFrom, via, g, stamp, n)) <= g[n]
    ensures Hops(ChainSteps(cameFrom, via, g, stamp, n)) == Chain(cameFrom, g, stamp, n)
    decreases g[n], stamp[n]
  {
    if n in cameFrom {
      var p := cameFrom[n].from;
      var w := ChainSteps(cameFrom, via, g, stamp, p);
      ChainIsWalk(adj, cameFrom, via, g, stamp, start, p);
      ExtendWalk(adj, w, start, p, via[n]);
      assert Hops(w + [Step(p, via[n])]) == Hops(w) + [Hop(n, cameFrom[n])];
    }
  }

  // ----- the search invariant -----

  /** Proof-only bookkeeping: the time of every node's last improvement, the adjacency entry its
      parent record came from, and a walk realising its score. */
  datatype Ledger = Ledger(stamp: map<NodeId, nat>, via: map<NodeId, Adj>, walk: map<NodeId, seq<Step>>, clock: nat)

  /** The start is scored 0 and is the only scored node without parent; all scored nodes are known. */
  ghost predicate Rooted(nodes: map<NodeId, Node>, start: NodeId, st: SearchState)
  {
    start in st.g && st.g[start] == 0 && start !in st.cameFrom &&
    st.g.Keys <= nodes.Keys &&
    (forall n :: n in st.g && n !in st.cameFrom ==> n == start)
  }

  /** The bookkeeping covers the scored nodes, and every score is realised by a walk from the start. */
  ghost predicate Witnessed(adj: Adjacency, start: NodeId, st: SearchState, l: Ledger)
  {
    Ranked(st.cameFrom, st.g, l.stamp) && l.stamp.Keys == st.g.Keys &&
    (forall n :: n in l.stamp ==> l.stamp[n] <= l.clock) &&
    Linked(adj, st.cameFrom, l.via, st.g) &&
    Walked(adj, start, st.g, l.walk)
  }

  /** Every score is the weight of a walk from the start. */
  ghost predicate Walked(adj: Adjacency, start: NodeId, g: map<NodeId, nat>, walk: map<NodeId, seq<Step>>)
  {
    walk.Keys == g.Keys &&
    forall n :: n in g ==> IsWalk(adj, walk[n], start, n) && Weight(walk[n]) == g[n]
  }

  lemma ImproveKeepsWalked(adj: Adjacency, start: NodeId, g: map<NodeId, nat>, walk: map<NodeId, seq<Step>>,
                           current: NodeId, a: Adj)
    requires Walked(adj, start, g, walk) && current in g && a in Entries(adj, current)
    ensures Walked(adj, start, g[a.target := g[current] + a.weight],
                   walk[a.target := walk[current] + [Step(current, a)]])
  {
    ExtendWalk(adj, walk[current], start, current, a);
  }

  /** What the search keeps true between relaxations. */
  ghost predicate Inv(adj: Adjacency, nodes: map<NodeId, Node>, start: NodeId, st: SearchState, l: Ledger)
  {
    Rooted(nodes, start, st) && Witnessed(adj, start, st, l) &&
    Ids(st.open) <= st.g.Keys && Distinct(st.open)
  }

  /** Every scored node that is off the open list, other than those in `except`, has had all its
      neighbours scored. */
  ghost predicate Expanded(adj: Adjacency, st: SearchState, except: set<NodeId>)
  {
    forall n, a :: n in st.g && n !in Ids(st.open) && n !in except && a in Entries(adj, n) ==> a.target in st.g
  }

  /** The bookkeeping after relaxing `a` out of `current`. */
  function Record(st: SearchState, l: Ledger, current: NodeId, a: Adj): Ledger
    requires current in st.g && current in l.walk
  {
    if Improves(st, current, a) then
      Ledger(l.stamp[a.target := l.clock + 1], l.via[a.target := a],
             l.walk[a.target := l.walk[current] + [Step(current, a)]], l.clock + 1)
    else l
  }

  /** Improving `a.target` through `current` keeps the parent chain ranked. */
  lemma {:induction false} ImproveKeepsRanked(adj: Adjacency, cameFrom: map<NodeId, Parent>, via: map<NodeId, Adj>,
                                              g: map<NodeId, nat>, stamp: map<NodeId, nat>, clock: nat,
                                              current: NodeId, a: Adj)
    requires Ranked(cameFrom, g, stamp) && Linked(adj, cameFrom, via, g)
    requires forall n :: n in stamp ==> stamp[n] <= clock
    requires current in g && current in stamp && a.target != current
    requires a.target !in g || g[current] + a.weight < g[a.target]
    ensures Ranked(cameFrom[a.target := ParentOf(current, a)], g[a.target := g[current] + a.weight],
                   stamp[a.target := clock + 1])
  {
    var t := a.target;
    var cameFrom', g', stamp' := cameFrom[t := ParentOf(current, a)], g[t := g[current] + a.weight], stamp[t := clock + 1];
    forall n | n in cameFrom'
      ensures n in g' && n in stamp' && cameFrom'[n].from in g' && cameFrom'[n].from in stamp' &&
              (g'[n] > g'[cameFrom'[n].from] ||
               (g'[n] == g'[cameFrom'[n].from] && stamp'[cameFrom'[n].from] < stamp'[n]))
    {
      if n != t && cameFrom'[n].from == t {
        assert g[n] >= g[t] + via[n].weight;
      }
    }
  }

  /** Improving `a.target` through `current` keeps every parent record linked to its entry. */
  lemma {:induction false} ImproveKeepsLinked(adj: Adjacency, cameFrom: map<NodeId, Parent>, via: map<NodeId, Adj>,
                                              g: map<NodeId, nat>, current: NodeId, a: Adj)
    requires Linked(adj, cameFrom, via, g)
    requires current in g && a.target != current && a in Entries(adj, current)
    requires a.target !in g || g[current] + a.weight < g[a.target]
    ensures Linked(adj, cameFrom[a.target := ParentOf(current, a)], via[a.target := a],
                   g[a.target := g[current] + a.weight])
  {
    var t := a.target;
    var cameFrom', via', g' := cameFrom[t := ParentOf(current, a)], via[t := a], g[t := g[current] + a.weight];
    forall n | n in cameFrom'
      ensures n in via' && via'[n] in Entries(adj, cameFrom'[n].from) && via'[n].target == n &&
              cameFrom'[n] == ParentOf(cameFrom'[n].from, via'[n]) &&
              n in g' && cameFrom'[n].from in g' && g'[n] >= g'[cameFrom'[n].from] + via'[n].weight
    {
      if n != t && cameFrom'[n].from == t {
        assert g[n] >= g[t] + via[n].weight;
      }
    }
  }

  /** Improving `a.target` through `current` keeps the scores witnessed, with the bookkeeping updated. */
  lemma {:induction false} ImproveKeepsWitnessed(adj: Adjacency, start: NodeId, st: SearchState, l: Ledger,
                                                 current: NodeId, a: Adj, nx: SearchState)
    requires Witnessed(adj, start, st, l)
    requires current in st.g && a in Entries(adj, current) && Improves(st, current, a)
    requires nx.g == st.g[a.target := st.g[current] + a.weight]
    requires nx.cameFrom == st.cameFrom[a.target := ParentOf(current, a)]
    ensures Witnessed(adj, start, nx, Record(st, l, current, a))
  {
    var t := a.target;
    assert t != current;
    var stamp', via' := l.stamp[t := l.clock + 1], l.via[t := a];
    var walk' := l.walk[t := l.walk[current] + [Step(current, a)]];
    assert Record(st, l, current, a) == Ledger(stamp', via', walk', l.clock + 1);
    assert Ranked(nx.cameFrom, nx.g, stamp') by {
      ImproveKeepsRanked(adj, st.cameFrom, l.via, st.g, l.stamp, l.clock, current, a);
    }
    assert Linked(adj, nx.cameFrom, via', nx.g) by {
      ImproveKeepsLinked(adj, st.cameFrom, l.via, st.g, current, a);
    }
    assert Walked(adj, start, nx.g, walk') by {
      ImproveKeepsWalked(adj, start, st.g, l.walk, current, a);
    }
    assert stamp'.Keys == nx.g.Keys && forall n :: n in stamp' ==> stamp'[n] <= l.clock + 1;
  }

  /** The state an improving relaxation leaves: the neighbour, a known node, scored through
      `current` and given its parent record, and put on the open list once. */
  lemma ImprovedShape(nodes: map<NodeId, Node>, dist: Distance, end: NodeId, st: SearchState,
                      current: NodeId, a: Adj, nx: SearchState)
    requires current in st.g && Improves(st, current, a)
    requires Relax(nodes, dist, end, st, current, a) == Some(nx)
    ensures a.target in nodes
    ensures nx.g == st.g[a.target := st.g[current] + a.weight]
    ensures nx.cameFrom == st.cameFrom[a.target := ParentOf(current, a)]
    ensures Ids(nx.open) == Ids(st.open) + {a.target} && (Distinct(st.open) ==> Distinct(nx.open))
    ensures |nx.open| <= |st.open| + 1
  {
  }

  /** Relaxing an entry of a scored node keeps the search invariant, with the bookkeeping updated. */
  lemma {:induction false} RelaxKeepsInv(adj: Adjacency, nodes: map<NodeId, Node>, dist: Distance, start: NodeId,
                                         end: NodeId, st: SearchState, l: Ledger, current: NodeId, a: Adj)
    requires Inv(adj, nodes, start, st, l)
    requires current in st.g && a in Entries(adj, current)
    requires Relax(nodes, dist, end, st, current, a).Some?
    ensures Inv(adj, nodes, start, Relax(nodes, dist, end, st, current, a).value, Record(st, l, current, a))
  {
    var nx := Relax(nodes, dist, end, st, current, a).value;
    var l' := Record(st, l, current, a);
    if !Improves(st, current, a) {
      assert nx == st && l' == l;
    } else {
      var t := a.target;
      ImprovedShape(nodes, dist, end, st, current, a, nx);
      assert Rooted(nodes, start, nx) by {
        RelaxNeverReparentsStart(nodes, dist, end, st, current, a, start);
      }
      assert Witnessed(adj, start, nx, l') by {
        ImproveKeepsWitnessed(adj, start, st, l, current, a, nx);
      }
      assert Ids(nx.open) <= nx.g.Keys && Distinct(nx.open);
    }
  }

  // ----- the frontier -----

  /** Relaxing keeps every expanded node's neighbours scored and the end node, once scored, on
      the open list: scores are only added, and every newly scored node is put on the list. */
  lemma RelaxKeepsFrontier(adj: Adjacency, nodes: map<NodeId, Node>, dist: Distance, end: NodeId,
                           st: SearchState, current: NodeId, a: Adj, except: set<NodeId>)
    requires current in st.g && Relax(nodes, dist, end, st, current, a).Some?
    requires Expanded(adj, st, except)
    ensures var nx := Relax(nodes, dist, end, st, current, a).value;
            Expanded(adj, nx, except) && a.target in nx.g &&
            ((end in st.g ==> end in Ids(st.open)) ==> (end in nx.g ==> end in Ids(nx.open)))
  {
  }

  /** Popping the head of the sorted open list keeps the invariant, leaves only the popped node
      unexpanded, and lowers the potential by one. */
  lemma PopKeepsInv(adj: Adjacency, nodes: map<NodeId, Node>, start: NodeId, end: NodeId, st: SearchState, l: Ledger,
                    sorted: seq<OpenEntry>, popped: SearchState, ids: seq<NodeId>)
    requires Inv(adj, nodes, start, st, l) && Expanded(adj, st, {}) && st.open != []
    requires end in st.g ==> end in Ids(st.open)
    requires sorted == SortByF(st.open) && popped == st.(open := sorted[1..])
    ensures sorted != [] && sorted[0].id in st.g && sorted[0].id in popped.g && sorted[0].id !in Ids(popped.open)
    ensures Inv(adj, nodes, start, popped, l) && Expanded(adj, popped, {sorted[0].id})
    ensures end in st.g && end != sorted[0].id ==> end in Ids(popped.open)
    ensures Unscored(adj, start, popped) == Unscored(adj, start, st)
    ensures Potential(popped, ids) + 1 == Potential(st, ids)
  {
    var rest := sorted[1..];
    PopShrinks(st.open);
    assert Rooted(nodes, start, popped) by {
      assert popped.g == st.g && popped.cameFrom == st.cameFrom;
    }
    assert Witnessed(adj, start, popped, l) by {
      assert popped.g == st.g && popped.cameFrom == st.cameFrom;
    }
    assert Ids(rest) <= st.g.Keys;
    assert Expanded(adj, popped, {sorted[0].id}) by {
      assert Ids(st.open) == {sorted[0].id} + Ids(rest);
    }
  }

  /** Popping the head of the sorted list removes exactly that entry's id. */
  lemma PopShrinks(open: seq<OpenEntry>)
    requires open != [] && Distinct(open)
    ensures var sorted := SortByF(open);
            |sorted| == |open| && Ids(open) == {sorted[0].id} + Ids(sorted[1..]) &&
            sorted[0].id !in Ids(sorted[1..]) && Distinct(sorted[1..])
  {
    var sorted := SortByF(open);
    var rest := sorted[1..];
    assert Ids(sorted) == Ids(open) && Distinct(sorted) && |sorted| == |open| by {
      SortByFSorted(open);
      MultisetIds(sorted, open);
    }
    DistinctHead(sorted);
  }

  // ----- termination -----

  /** Every node some adjacency entry leads to. */
  function AllTargets(adj: Adjacency): set<NodeId>
  {
    set u, a | u in adj && a in adj[u] :: a.target
  }

  /** Nodes the search may still score for the first time. */
  ghost function Unscored(adj: Adjacency, start: NodeId, st: SearchState): set<NodeId>
  {
    ({start} + AllTargets(adj)) - st.g.Keys
  }

  /** Every improvement of a scored node lowers the sum of scores by at least one and adds at
      most one open entry; every pop removes an entry. */
  function Potential(st: SearchState, ids: seq<NodeId>): nat
  {
    2 * ScoreSum(st.g, ids) + |st.open|
  }

  /** A relaxation either scores a new node or does not raise the potential: the search loop
      terminates. */
  lemma RelaxMeasure(adj: Adjacency, nodes: map<NodeId, Node>, dist: Distance, start: NodeId, end: NodeId,
                     st: SearchState, current: NodeId, a: Adj, ids: seq<NodeId>)
    requires current in st.g && a in Entries(adj, current)
    requires forall k :: k in st.g ==> k in ids
    requires Relax(nodes, dist, end, st, current, a).Some?
    ensures var nx := Relax(nodes, dist, end, st, current, a).value;
            |Unscored(adj, start, nx)| < |Unscored(adj, start, st)| ||
            (|Unscored(adj, start, nx)| == |Unscored(adj, start, st)| && Potential(nx, ids) <= Potential(st, ids))
  {
    var nx := Relax(nodes, dist, end, st, current, a).value;
    if Improves(st, current, a) {
      ImprovedShape(nodes, dist, end, st, current, a, nx);
      ImprovedMeasure(adj, start, st, nx, current, a, ids);
    }
  }

  /** The measure after an improvement of the entry `a` of `current`, from the shape of the new
      state alone. */
  lemma ImprovedMeasure(adj: Adjacency, start: NodeId, st: SearchState, nx: SearchState,
                        current: NodeId, a: Adj, ids: seq<NodeId>)
    requires current in st.g && a in Entries(adj, current) && Improves(st, current, a)
    requires forall k :: k in st.g ==> k in ids
    requires nx.g == st.g[a.target := st.g[current] + a.weight] && |nx.open| <= |st.open| + 1
    ensures |Unscored(adj, start, nx)| < |Unscored(adj, start, st)| ||
            (|Unscored(adj, start, nx)| == |Unscored(adj, start, st)| && Potential(nx, ids) <= Potential(st, ids))
  {
    var t := a.target;
    if t in st.g {
      assert ScoreSum(nx.g, ids) < ScoreSum(st.g, ids) by {
        ScoreSumLowered(st.g, ids, t, st.g[current] + a.weight);
      }
      assert Unscored(adj, start, nx) == Unscored(adj, start, st) by {
        assert nx.g.Keys == st.g.Keys;
      }
    } else {
      assert t in AllTargets(adj) by {
        assert current in adj && a in adj[current];
      }
      assert Unscored(adj, start, nx) == Unscored(adj, start, st) - {t};
    }
  }

  // ----- the chain's coordinates -----

  /** When every recorded node and parent is known, every hop of a chain has both its ends. */
  lemma {:induction false} ChainHasEnds(nodes: map<NodeId, Node>, cameFrom: map<NodeId, Parent>,
                                        g: map<NodeId, nat>, stamp: map<NodeId, nat>, n: NodeId)
    requires Ranked(cameFrom, g, stamp) && n in g && n in stamp
    requires forall m :: m in cameFrom ==> m in nodes && cameFrom[m].from in nodes
    ensures AllHaveEnds(nodes, Chain(cameFrom, g, stamp, n))
    decreases g[n], stamp[n]
  {
    if n in cameFrom {
      ChainHasEnds(nodes, cameFrom, g, stamp, cameFrom[n].from);
    }
  }

  // ----- one loop iteration -----

  /** One relaxation inside the expansion of `current` keeps every loop invariant of the search:
      the search invariant, `current` expanded up to this entry, the end node kept on the open
      list once scored, and the termination measure below its value before the pop. */
  lemma RelaxPreserves(adj: Adjacency, nodes: map<NodeId, Node>, dist: Distance, start: NodeId, end: NodeId,
                       st: SearchState, l: Ledger, current: NodeId, a: Adj, ids: seq<NodeId>, u0: nat, p0: nat)
    requires Inv(adj, nodes, start, st, l) && current in st.g && a in Entries(adj, current)
    requires Expanded(adj, st, {current}) && current !in Ids(st.open)
    requires end in st.g ==> end in Ids(st.open)
    requires forall k :: k in nodes ==> k in ids
    requires |Unscored(adj, start, st)| < u0 || (|Unscored(adj, start, st)| == u0 && Potential(st, ids) < p0)
    requires Relax(nodes, dist, end, st, current, a).Some?
    ensures var nx := Relax(nodes, dist, end, st, current, a).value;
            Inv(adj, nodes, start, nx, Record(st, l, current, a)) &&
            current in nx.g && a.target in nx.g && current !in Ids(nx.open) &&
            Expanded(adj, nx, {current}) && (end in nx.g ==> end in Ids(nx.open)) &&
            st.g.Keys <= nx.g.Keys &&
            (|Unscored(adj, start, nx)| < u0 || (|Unscored(adj, start, nx)| == u0 && Potential(nx, ids) < p0))
  {
    var nx := Relax(nodes, dist, end, st, current, a).value;
    assert Inv(adj, nodes, start, nx, Record(st, l, current, a)) by {
      RelaxKeepsInv(adj, nodes, dist, start, end, st, l, current, a);
    }
    assert Expanded(adj, nx, {current}) && a.target in nx.g && (end in nx.g ==> end in Ids(nx.open)) by {
      RelaxKeepsFrontier(adj, nodes, dist, end, st, current, a, {current});
    }
    assert current !in Ids(nx.open) by {
      if Improves(st, current, a) {
        assert a.target != current;
      }
    }
    assert forall k :: k in st.g ==> k in ids by {
      assert st.g.Keys <= nodes.Keys;
    }
    assert |Unscored(adj, start, nx)| < |Unscored(adj, start, st)| ||
           (|Unscored(adj, start, nx)| == |Unscored(adj, start, st)| && Potential(nx, ids) <= Potential(st, ids)) by {
      RelaxMeasure(adj, nodes, dist, start, end, st, current, a, ids);
    }
  }

  // ----- the outcomes -----

  /** When the open list runs empty with every scored node expanded and the end node unscored,
      no walk leads from the start to the end. */
  lemma ExhaustedMeansUnreachable(adj: Adjacency, st: SearchState, start: NodeId, end: NodeId)
    requires st.open == [] && Expanded(adj, st, {}) && start in st.g && end !in st.g
    ensures forall w :: !IsWalk(adj, w, start, end)
  {
    assert Closed(adj, st.g.Keys) by {
      forall n, a | n in st.g.Keys && a in Entries(adj, n) ensures a.target in st.g.Keys {
        assert n !in Ids(st.open);
      }
    }
    forall w | IsWalk(adj, w, start, end) ensures false {
      ClosedHoldsWalkEnds(adj, st.g.Keys, w, start, end);
    }
  }

  /** A scored node's parent chain is a walk from the start no heavier than its score, with all
      its hops' ends known; and its score is the weight of some walk. */
  lemma FoundWalks(adj: Adjacency, nodes: map<NodeId, Node>, start: NodeId, st: SearchState, l: Ledger, n: NodeId)
    returns (chain: seq<Step>, exact: seq<Step>)
    requires Inv(adj, nodes, start, st, l) && n in st.g
    ensures n in l.stamp
    ensures AllHaveEnds(nodes, Chain(st.cameFrom, st.g, l.stamp, n))
    ensures IsWalk(adj, chain, start, n) && Weight(chain) <= st.g[n] &&
            Hops(chain) == Chain(st.cameFrom, st.g, l.stamp, n)
    ensures IsWalk(adj, exact, start, n) && Weight(exact) == st.g[n]
  {
    assert n in l.stamp;
    chain := ChainSteps(st.cameFrom, l.via, st.g, l.stamp, n);
    ChainIsWalk(adj, st.cameFrom, l.via, st.g, l.stamp, start, n);
    ChainHasEnds(nodes, st.cameFrom, st.g, l.stamp, n);
    exact := l.walk[n];
  }

  /** Scores are never removed, so the targets already scored stay scored. */
  lemma TargetsStayScored(ns: seq<Adj>, i: nat, g: map<NodeId, nat>, g': map<NodeId, nat>)
    requires i < |ns| && g.Keys <= g'.Keys && ns[i].target in g'
    requires forall j :: 0 <= j < i ==> ns[j].target in g
    ensures forall j :: 0 <= j < i + 1 ==> ns[j].target in g'
  {
  }

  /** Once every entry of `current` leads to a scored node, `current` counts as expanded too. */
  lemma FinishExpansion(adj: Adjacency, st: SearchState, current: NodeId)
    requires Expanded(adj, st, {current})
    requires forall j :: 0 <= j < |Entries(adj, current)| ==> Entries(adj, current)[j].target in st.g
    ensures Expanded(adj, st, {})
  {
    forall n, a | n in st.g && n !in Ids(st.open) && a in Entries(adj, n)
      ensures a.target in st.g
    {
      if n == current {
        var j :| 0 <= j < |Entries(adj, current)| && Entries(adj, current)[j] == a;
      }
    }
  }
}
