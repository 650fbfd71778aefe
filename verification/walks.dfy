/** Walks through the adjacency lists: the routes that a search can report. */
module Walks {
  import opened Graph

  /** Leaving node `from` through its adjacency entry `edge`. */
  datatype Step = Step(from: NodeId, edge: Adj)

  /** `w` leads from `s` to `t`, every step using an entry of the node it leaves. */
  predicate IsWalk(adj: Adjacency, w: seq<Step>, s: NodeId, t: NodeId)
  {
    (|w| == 0 ==> s == t) &&
    (|w| > 0 ==> w[0].from == s && w[|w| - 1].edge.target == t) &&
    (forall i :: 0 <= i < |w| ==> w[i].edge in Entries(adj, w[i].from)) &&
    (forall i :: 0 <= i < |w| - 1 ==> w[i].edge.target == w[i + 1].from)
  }

  /** The summed edge weights of a walk. */
  function Weight(w: seq<Step>): nat
    decreases |w|
  {
    if w == [] then 0 else Weight(w[..|w| - 1]) + w[|w| - 1].edge.weight
  }

  /** A set of nodes that every adjacency entry of its members leads back into. */
  ghost predicate Closed(adj: Adjacency, k: set<NodeId>)
  {
    forall n, a :: n in k && a in Entries(adj, n) ==> a.target in k
  }

  /** Appending an entry of the last node extends a walk, and adds that entry's weight. */
  lemma ExtendWalk(adj: Adjacency, w: seq<Step>, s: NodeId, u: NodeId, a: Adj)
    requires IsWalk(adj, w, s, u) && a in Entries(adj, u)
    ensures IsWalk(adj, w + [Step(u, a)], s, a.target)
    ensures Weight(w + [Step(u, a)]) == Weight(w) + a.weight
  {
    assert (w + [Step(u, a)])[..|w|] == w;
  }

  /** A closed set holding the start holds the end of every walk from it: no walk escapes. */
  lemma {:induction false} ClosedHoldsWalkEnds(adj: Adjacency, k: set<NodeId>, w: seq<Step>, s: NodeId, t: NodeId)
    requires s in k && Closed(adj, k) && IsWalk(adj, w, s, t)
    ensures t in k
    decreases |w|
  {
    if |w| > 0 {
      var last := w[|w| - 1];
      var front := w[..|w| - 1];
      assert IsWalk(adj, front, s, last.from);
      ClosedHoldsWalkEnds(adj, k, front, s, last.from);
    }
  }
}
