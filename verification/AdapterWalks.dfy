/** Adapters, planning policies, and the walks a path query ranges over
    (crates/dag-ml-data-core/src/adapter.rs). Scores and costs are exact
    sums here; the 64-bit arithmetic of the search is in AdapterRegistry. */
module AdapterWalks {
  import opened Sequences
  import opened Words
  import opened Wrappers

  datatype Node = Node(typeId: string, representationId: string)

  datatype FitScope = Stateless | FoldTrain | FullTrain | InferenceOnly

  datatype Adapter = Adapter(
    id: string,
    version: string,
    source: Node,
    target: Node,
    cost: U64,
    lossy: bool,
    supervised: bool,
    stateful: bool,
    deterministic: bool,
    fitScope: FitScope)

  datatype Policy = Policy(
    allowLossy: bool,
    allowStateful: bool,
    allowSupervised: bool,
    forbidden: set<string>,
    preferred: set<string>,
    requireUserChoice: bool,
    maxHops: Option<nat>)

  /** One call of `find_path` against the registered adapters. */
  datatype Query = Query(registry: map<string, Adapter>, policy: Policy, start: Node, goal: Node)

  predicate Eligible(a: Adapter, p: Policy) {
    && a.id !in p.forbidden
    && (a.lossy ==> p.allowLossy)
    && (a.stateful ==> p.allowStateful)
    && (a.supervised ==> p.allowSupervised)
  }

  /** The score before it is narrowed to 64 bits. */
  function AdapterScore(a: Adapter, p: Policy): nat {
    var base := (if a.cost > 1 then a.cost else 1)
                + (if a.lossy then 1_000_000 else 0)
                + (if a.stateful then 100_000 else 0)
                + (if a.supervised then 100_000 else 0);
    if a.id in p.preferred then base - 1 else base
  }

  /** An adapter scores below its cost exactly if it is preferred, carries no flag and is
      not free; it scores zero exactly if, besides, its cost is at most one. */
  lemma ScoreBelowCost(a: Adapter, p: Policy)
    ensures AdapterScore(a, p) < a.cost <==>
      a.id in p.preferred && !a.lossy && !a.stateful && !a.supervised && a.cost > 0
    ensures AdapterScore(a, p) == 0 <==>
      a.id in p.preferred && !a.lossy && !a.stateful && !a.supervised && a.cost <= 1
  {}

  predicate Usable(q: Query, id: string) {
    id in q.registry && Eligible(q.registry[id], q.policy)
  }

  /** A walk of `q` from `from` to `to`: a chain of eligible adapters, which may repeat
      adapters and may pass through any node, including `to`, on the way. */
  predicate Walk(q: Query, from: Node, path: seq<string>, to: Node) {
    if path == [] then from == to
    else
      var last := path[|path| - 1];
      && Usable(q, last)
      && q.registry[last].target == to
      && Walk(q, from, path[..|path| - 1], q.registry[last].source)
  }

  ghost predicate AllUsable(q: Query, path: seq<string>) {
    forall i :: 0 <= i < |path| ==> Usable(q, path[i])
  }

  function Score(q: Query, path: seq<string>): nat {
    if path == [] then 0
    else
      var last := path[|path| - 1];
      Score(q, path[..|path| - 1]) + if last in q.registry then AdapterScore(q.registry[last], q.policy) else 0
  }

  function RawCost(q: Query, path: seq<string>): nat {
    if path == [] then 0
    else
      var last := path[|path| - 1];
      RawCost(q, path[..|path| - 1]) + if last in q.registry then q.registry[last].cost else 0
  }

  predicate WithinBudget(q: Query, hops: nat) {
    q.policy.maxHops.Some? ==> hops <= q.policy.maxHops.value
  }

  ghost predicate GoalWalk(q: Query, path: seq<string>) {
    Walk(q, q.start, path, q.goal) && WithinBudget(q, |path|)
  }

  /** The search key: total score first, then the number of hops. */
  predicate KeyLe(score1: nat, hops1: nat, score2: nat, hops2: nat) {
    score1 < score2 || (score1 == score2 && hops1 <= hops2)
  }

  ghost predicate NoWorse(q: Query, w: seq<string>, v: seq<string>) {
    KeyLe(Score(q, w), |w|, Score(q, v), |v|)
  }

  /** A best walk: none of the goal walks, simple or not, has a smaller (score, hops). */
  ghost predicate Minimal(q: Query, w: seq<string>) {
    GoalWalk(q, w) && forall v :: GoalWalk(q, v) ==> NoWorse(q, w, v)
  }

  // ----- walks compose and split -----

  lemma {:induction false} WalkConcat(q: Query, from: Node, u: seq<string>, mid: Node, v: seq<string>, to: Node)
    requires Walk(q, from, u, mid) && Walk(q, mid, v, to)
    ensures Walk(q, from, u + v, to)
    decreases |v|
  {
    if v == [] {
      assert u + v == u;
    } else {
      var last := v[|v| - 1];
      WalkConcat(q, from, u, mid, v[..|v| - 1], q.registry[last].source);
      assert (u + v)[..|u + v| - 1] == u + v[..|v| - 1];
    }
  }

  /** Cutting a walk at position `k` leaves two walks that meet at the node reached there. */
  lemma {:induction false} WalkSplit(q: Query, from: Node, w: seq<string>, to: Node, k: nat) returns (mid: Node)
    requires Walk(q, from, w, to) && k <= |w|
    ensures Walk(q, from, w[..k], mid) && Walk(q, mid, w[k..], to)
    ensures k > 0 ==> Usable(q, w[k - 1]) && mid == q.registry[w[k - 1]].target
    ensures k < |w| ==> Usable(q, w[k]) && mid == q.registry[w[k]].source
    decreases |w|
  {
    if k == |w| {
      assert w[..k] == w && w[k..] == [];
      mid := to;
    } else {
      var last := w[|w| - 1];
      var front := w[..|w| - 1];
      mid := WalkSplit(q, from, front, q.registry[last].source, k);
      assert front[..k] == w[..k];
      assert w[k..][..|w[k..]| - 1] == front[k..];
      if k == |w| - 1 { assert front[k..] == []; }
    }
  }

  lemma {:induction false} TotalsAdd(q: Query, u: seq<string>, v: seq<string>)
    ensures Score(q, u + v) == Score(q, u) + Score(q, v)
    ensures RawCost(q, u + v) == RawCost(q, u) + RawCost(q, v)
    decreases |v|
  {
    if v == [] {
      assert u + v == u;
    } else {
      TotalsAdd(q, u, v[..|v| - 1]);
      assert (u + v)[..|u + v| - 1] == u + v[..|v| - 1];
    }
  }

  lemma WalkSnoc(q: Query, from: Node, u: seq<string>, mid: Node, id: string)
    requires Walk(q, from, u, mid) && Usable(q, id) && q.registry[id].source == mid
    ensures Walk(q, from, u + [id], q.registry[id].target)
    ensures Score(q, u + [id]) == Score(q, u) + AdapterScore(q.registry[id], q.policy)
    ensures RawCost(q, u + [id]) == RawCost(q, u) + q.registry[id].cost
  {
    assert (u + [id])[..|u + [id]| - 1] == u;
  }

  lemma {:induction false} WalkUsable(q: Query, from: Node, w: seq<string>, to: Node)
    requires Walk(q, from, w, to)
    ensures AllUsable(q, w)
    decreases |w|
  {
    if w != [] {
      WalkUsable(q, from, w[..|w| - 1], q.registry[w[|w| - 1]].source);
      assert w == w[..|w| - 1] + [w[|w| - 1]];
    }
  }

  // ----- what is special about best walks -----

  /** Loop removal: cutting out the part of a goal walk between two visits of the
      same adapter gives a goal walk that is strictly better. */
  lemma CutLoop(q: Query, w: seq<string>, i: nat, j: nat)
    requires GoalWalk(q, w) && i < j < |w| && w[i] == w[j]
    ensures GoalWalk(q, w[..i + 1] + w[j + 1..])
    ensures !NoWorse(q, w, w[..i + 1] + w[j + 1..])
  {
    hide AdapterScore, RawCost, Eligible, Score;
    var a := WalkSplit(q, q.start, w, q.goal, i + 1);
    var b := WalkSplit(q, q.start, w, q.goal, j + 1);
    WalkConcat(q, q.start, w[..i + 1], a, w[j + 1..], q.goal);
    ThreeParts(q, w, i + 1, j + 1);
    TotalsAdd(q, w[..i + 1], w[j + 1..]);
  }

  lemma ThreeParts(q: Query, w: seq<string>, i: nat, j: nat)
    requires i <= j <= |w|
    ensures Score(q, w) == Score(q, w[..i]) + Score(q, w[i..j]) + Score(q, w[j..])
  {
    TotalsAdd(q, w[..i], w[i..]);
    TotalsAdd(q, w[i..j], w[j..]);
    assert w == w[..i] + w[i..];
    assert w[i..] == w[i..j] + w[j..];
  }

  /** The reuse ban loses nothing: a best walk never repeats an adapter. */
  lemma MinimalDistinct(q: Query, w: seq<string>)
    requires Minimal(q, w)
    ensures Distinct(w)
  {
    forall i, j | 0 <= i < j < |w|
      ensures w[i] != w[j]
    {
      if w[i] == w[j] { CutLoop(q, w, i, j); }
    }
  }

  /** Stopping at the goal loses nothing: no proper prefix of a best walk ends there. */
  lemma MinimalReachesGoalLast(q: Query, w: seq<string>, k: nat)
    requires Minimal(q, w) && k < |w|
    ensures !Walk(q, q.start, w[..k], q.goal)
  {
    if Walk(q, q.start, w[..k], q.goal) {
      TotalsAdd(q, w[..k], w[k..]);
      assert w == w[..k] + w[k..];
      assert GoalWalk(q, w[..k]);
    }
  }

  /** Exchange: a rival that reaches the same node in the same number of hops as a
      prefix of a best walk cannot be cheaper, since it could replace that prefix. */
  lemma MinimalPrefixUndominated(q: Query, w: seq<string>, k: nat, rival: seq<string>, mid: Node)
    requires Minimal(q, w) && k <= |w| && |rival| == k
    requires Walk(q, q.start, w[..k], mid) && Walk(q, q.start, rival, mid)
    ensures Score(q, w[..k]) <= Score(q, rival)
  {
    var m := WalkSplit(q, q.start, w, q.goal, k);
    assert m == mid by { WalkEndUnique(q, q.start, w[..k], m, mid); }
    WalkConcat(q, q.start, rival, mid, w[k..], q.goal);
    TotalsAdd(q, rival, w[k..]);
    TotalsAdd(q, w[..k], w[k..]);
    assert w == w[..k] + w[k..];
    assert GoalWalk(q, rival + w[k..]);
  }

  lemma WalkEndUnique(q: Query, from: Node, w: seq<string>, a: Node, b: Node)
    requires Walk(q, from, w, a) && Walk(q, from, w, b)
    ensures a == b
  {}

  lemma PrefixNoWorse(q: Query, w: seq<string>, k: nat)
    requires k <= |w|
    ensures NoWorse(q, w[..k], w)
  {
    TotalsAdd(q, w[..k], w[k..]);
    assert w == w[..k] + w[k..];
  }

  /** If any goal walk exists, a best one does: (score, hops) is well founded. */
  lemma {:induction false} MinimalExists(q: Query, w: seq<string>) returns (best: seq<string>)
    requires GoalWalk(q, w)
    ensures Minimal(q, best)
    decreases Score(q, w), |w|
  {
    if v :| GoalWalk(q, v) && !NoWorse(q, w, v) {
      best := MinimalExists(q, v);
    } else {
      best := w;
    }
  }

  // ----- rivals: which walks the dominance table can shut out -----

  /** A walk the search is certain to follow to its end: it repeats nothing, stays in
      budget and in 64 bits, does not pass through the goal, and at every length no walk
      to the same node is cheaper. */
  ghost predicate Certain(q: Query, r: seq<string>, end: Node) {
    && Walk(q, q.start, r, end)
    && Distinct(r)
    && WithinBudget(q, |r|)
    && Score(q, r) <= U64_MAX && RawCost(q, r) <= U64_MAX
    && (forall j :: 0 <= j < |r| ==> !Walk(q, q.start, r[..j], q.goal))
    && (forall j, v, node ::
          0 <= j <= |r| && |v| == j && Walk(q, q.start, r[..j], node) && Walk(q, q.start, v, node) ==>
          Score(q, r[..j]) <= Score(q, v))
  }

  /** `r` reaches the node of `w[..|r|]` in as many hops, more cheaply, and its last
      step is taken from a cheaper state, hence earlier. */
  ghost predicate Overtakes(q: Query, r: seq<string>, w: seq<string>, end: Node) {
    && 0 < |r| <= |w|
    && Certain(q, r, end)
    && Walk(q, q.start, w[..|r|], end)
    && Score(q, r) < Score(q, w[..|r|])
    && Score(q, r[..|r| - 1]) < Score(q, w[..|r| - 1])
  }

  ghost predicate Overtaken(q: Query, w: seq<string>) {
    exists r, end :: Overtakes(q, r, w, end)
  }

  lemma PrefixTotalsMonotone(q: Query, w: seq<string>, k: nat)
    requires k <= |w|
    ensures Score(q, w[..k]) <= Score(q, w) && RawCost(q, w[..k]) <= RawCost(q, w)
  {
    TotalsAdd(q, w[..k], w[k..]);
    assert w == w[..k] + w[k..];
  }
}
