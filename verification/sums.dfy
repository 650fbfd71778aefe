/** Sums of scores over a list of node ids, used to bound how often scores can be lowered. */
module Sums {
  /** The score of `k`, counting an unscored node as 0. */
  function ScoreOf(g: map<int, nat>, k: int): nat
  {
    if k in g then g[k] else 0
  }

  /** The total score of the listed ids. */
  function ScoreSum(g: map<int, nat>, ids: seq<int>): nat
  {
    if ids == [] then 0 else ScoreOf(g, ids[0]) + ScoreSum(g, ids[1..])
  }

  /** Lowering one score never raises the total, and lowers it when the node is listed. */
  lemma {:induction false} ScoreSumLowered(g: map<int, nat>, ids: seq<int>, k: int, v: nat)
    requires k in g && v < g[k]
    ensures ScoreSum(g[k := v], ids) <= ScoreSum(g, ids)
    ensures k in ids ==> ScoreSum(g[k := v], ids) < ScoreSum(g, ids)
  {
    if ids != [] {
      ScoreSumLowered(g, ids[1..], k, v);
      assert k in ids ==> ids[0] == k || k in ids[1..];
    }
  }
}
