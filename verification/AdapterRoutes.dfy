/** Walks, spelled out in the fields of the adapters they take
    (crates/dag-ml-data-core/src/adapter.rs). */
module AdapterRoutes {
  import opened AdapterWalks
  import opened Wrappers

  /** Any chain of registered adapters that the policy lets through is a walk. */
  lemma {:induction false} RouteIsWalk(q: Query, path: seq<Adapter>, ids: seq<string>, from: Node, to: Node)
    requires |ids| == |path| && forall i :: 0 <= i < |path| ==> ids[i] == path[i].id
    requires forall i :: 0 <= i < |path| ==> path[i].id in q.registry && q.registry[path[i].id] == path[i]
    requires forall i :: 0 <= i < |path| ==>
      && path[i].id !in q.policy.forbidden
      && (path[i].lossy ==> q.policy.allowLossy)
      && (path[i].stateful ==> q.policy.allowStateful)
      && (path[i].supervised ==> q.policy.allowSupervised)
    requires if path == [] then from == to else path[0].source == from && path[|path| - 1].target == to
    requires forall i :: 0 <= i && i + 1 < |path| ==> path[i].target == path[i + 1].source
    ensures Walk(q, from, ids, to)
    decreases |path|
  {
    if path != [] {
      var n := |path| - 1;
      assert n > 0 ==> path[n - 1].target == path[n - 1 + 1].source;
      RouteIsWalk(q, path[..n], ids[..n], from, path[n].source);
    }
  }

  /** And a walk is such a chain. */
  lemma {:induction false} WalkIsRoute(q: Query, path: seq<Adapter>, ids: seq<string>, from: Node, to: Node)
    requires Walk(q, from, ids, to) && forall id :: id in q.registry ==> q.registry[id].id == id
    requires |ids| == |path| && AllUsable(q, ids) && forall i :: 0 <= i < |path| ==> path[i] == q.registry[ids[i]]
    ensures forall i :: 0 <= i < |path| ==>
      && path[i].id !in q.policy.forbidden
      && (path[i].lossy ==> q.policy.allowLossy)
      && (path[i].stateful ==> q.policy.allowStateful)
      && (path[i].supervised ==> q.policy.allowSupervised)
    ensures if path == [] then from == to else path[0].source == from && path[|path| - 1].target == to
    ensures forall i :: 0 <= i && i + 1 < |path| ==> path[i].target == path[i + 1].source
    decreases |path|
  {
    if path != [] {
      var n := |path| - 1;
      assert Usable(q, ids[n]);
      forall i | 0 <= i < n
        ensures Usable(q, ids[..n][i])
      {
        assert Usable(q, ids[i]);
      }
      WalkIsRoute(q, path[..n], ids[..n], from, path[n].source);
      assert n > 0 ==> path[..n][n - 1].target == path[n].source;
    }
  }

  /** The running totals along a chain: `costs` adds up the costs, `scores` the costs, of which
      a free adapter still counts one, and the penalties, less one for a preferred adapter. */
  lemma {:induction false} RunningTotals(q: Query, path: seq<Adapter>, ids: seq<string>,
                                         costs: seq<int>, scores: seq<int>, k: nat)
    requires |ids| == |path| && k <= |path|
    requires forall i :: 0 <= i < |path| ==> ids[i] == path[i].id
    requires forall i :: 0 <= i < |path| ==> path[i].id in q.registry && q.registry[path[i].id] == path[i]
    requires |costs| == |path| + 1 && costs[0] == 0 && |scores| == |path| + 1 && scores[0] == 0
    requires forall i :: 0 <= i < |path| ==> costs[i + 1] == costs[i] + path[i].cost
    requires forall i :: 0 <= i < |path| ==>
      scores[i + 1] == scores[i]
        + (if path[i].cost == 0 then 1 else path[i].cost)
        + (if path[i].lossy then 1_000_000 else 0)
        + (if path[i].stateful then 100_000 else 0)
        + (if path[i].supervised then 100_000 else 0)
        - (if path[i].id in q.policy.preferred then 1 else 0)
    ensures RawCost(q, ids[..k]) == costs[k] && Score(q, ids[..k]) == scores[k]
    decreases k
  {
    if k == 0 {
      assert ids[..0] == [];
    } else {
      RunningTotals(q, path, ids, costs, scores, k - 1);
      LastTotals(q, ids, k - 1);
    }
  }

  lemma LastTotals(q: Query, ids: seq<string>, n: nat)
    requires n < |ids| && ids[n] in q.registry
    ensures RawCost(q, ids[..n + 1]) == RawCost(q, ids[..n]) + q.registry[ids[n]].cost
    ensures Score(q, ids[..n + 1]) == Score(q, ids[..n]) + AdapterScore(q.registry[ids[n]], q.policy)
  {
    assert ids[..n + 1][..n] == ids[..n];
  }
}
