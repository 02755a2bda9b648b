/** The best-first search at the centre of `find_path`, proved to collect exactly the
    best goal walks (crates/dag-ml-data-core/src/adapter.rs). */
module AdapterSearch {
  import opened AdapterWalks
  import opened Sequences
  import opened Words
  import opened Wrappers

  datatype SearchState = SearchState(score: U64, rawCost: U64, hops: nat, node: Node, ids: seq<string>)

  type Edges = map<Node, seq<Adapter>>

  type BestSeen = map<(Node, nat), U64>

  // ----- what the search's own variables mean -----

  ghost predicate StateOk(q: Query, s: SearchState) {
    && Walk(q, q.start, s.ids, s.node)
    && Distinct(s.ids)
    && s.score == Score(q, s.ids)
    && s.rawCost == RawCost(q, s.ids)
    && s.hops == |s.ids|
    && WithinBudget(q, s.hops)
  }

  ghost predicate HeapOk(q: Query, heap: seq<SearchState>) {
    forall s :: s in heap ==> StateOk(q, s)
  }

  ghost predicate BucketOk(q: Query, node: Node, bucket: seq<Adapter>) {
    forall i :: 0 <= i < |bucket| ==>
      Usable(q, bucket[i].id) && q.registry[bucket[i].id] == bucket[i] && bucket[i].source == node
  }

  ghost predicate Listed(q: Query, edges: Edges, id: string)
    requires id in q.registry
  {
    q.registry[id].source in edges && q.registry[id] in edges[q.registry[id].source]
  }

  /** Every bucket holds usable adapters leaving its node, every usable adapter is in
      the bucket of its source, and no bucket is longer than the registry. */
  ghost predicate EdgesOk(q: Query, edges: Edges) {
    && (forall n :: n in edges ==> BucketOk(q, n, edges[n]) && |edges[n]| <= |q.registry|)
    && (forall id :: Usable(q, id) ==> Listed(q, edges, id))
  }

  ghost predicate KeysMatch(q: Query) {
    forall id :: id in q.registry ==> q.registry[id].id == id
  }

  /** `seenBy` names, for each dominance entry, a walk that earned it. */
  ghost predicate SeenOk(q: Query, bestSeen: BestSeen, seenBy: map<(Node, nat), seq<string>>) {
    forall key :: key in bestSeen ==>
      && key in seenBy
      && Walk(q, q.start, seenBy[key], key.0)
      && |seenBy[key]| == key.1
      && Score(q, seenBy[key]) == bestSeen[key]
  }

  /** Some queued state is a prefix of `w`. */
  ghost predicate Open(heap: seq<SearchState>, w: seq<string>) {
    exists i :: 0 <= i < |heap| && heap[i].ids <= w
  }

  /** `state` is a proper prefix of `w` and the adapter `w` takes next is still to be relaxed. */
  ghost predicate Pending(state: SearchState, next: seq<Adapter>, j: nat, w: seq<string>) {
    && state.ids <= w
    && |state.ids| < |w|
    && exists m :: j <= m < |next| && next[m].id == w[|state.ids|]
  }

  /** A best walk whose score and raw cost both fit 64 bits. */
  ghost predicate Finite(q: Query, w: seq<string>) {
    Minimal(q, w) && Score(q, w) <= U64_MAX && RawCost(q, w) <= U64_MAX
  }

  /** The best walks still owed to the caller: once a sum has overflowed, only those
      whose own sums fit 64 bits. */
  ghost predicate Target(q: Query, costOverflow: bool, w: seq<string>) {
    Minimal(q, w) && (costOverflow ==> Finite(q, w))
  }

  /** Some best walk is owed to the caller, if there is any goal walk at all. */
  ghost predicate SomeTarget(q: Query, costOverflow: bool) {
    !costOverflow || exists w :: Finite(q, w)
  }

  ghost predicate GoalPathOk(q: Query, g: seq<string>) {
    GoalWalk(q, g) && Distinct(g) && Score(q, g) <= U64_MAX && RawCost(q, g) <= U64_MAX
  }

  /** A duplicate-free walk from the start, within budget, with a total beyond 64 bits. */
  ghost predicate TooCostly(q: Query, v: seq<string>) {
    && AllUsable(q, v) && Distinct(v)
    && (Score(q, v) > U64_MAX || RawCost(q, v) > U64_MAX)
  }

  // ----- rivals -----

  ghost predicate ProperOpen(heap: seq<SearchState>, r: seq<string>) {
    exists i :: 0 <= i < |heap| && heap[i].ids <= r && |heap[i].ids| < |r|
  }

  ghost predicate Settled(q: Query, bestSeen: BestSeen, r: seq<string>, end: Node) {
    (end, |r|) in bestSeen && bestSeen[(end, |r|)] <= Score(q, r)
  }

  /** Every certain walk is on its way or has its dominance entry. */
  ghost predicate Tracked(q: Query, heap: seq<SearchState>, bestSeen: BestSeen) {
    forall r, end :: Certain(q, r, end) && r != [] ==> ProperOpen(heap, r) || Settled(q, bestSeen, r, end)
  }

  ghost predicate TrackedOrPending(q: Query, heap: seq<SearchState>, bestSeen: BestSeen,
                                   state: SearchState, next: seq<Adapter>, j: nat) {
    forall r, end :: Certain(q, r, end) && r != [] ==>
      ProperOpen(heap, r) || Settled(q, bestSeen, r, end) || Pending(state, next, j, r)
  }

  ghost predicate NoneOvertaken(q: Query, heap: seq<SearchState>) {
    forall s :: s in heap ==> !Overtaken(q, s.ids)
  }

  /** Whatever could overtake a child of `state` has its dominance entry already. */
  ghost predicate RivalsSettled(q: Query, bestSeen: BestSeen, state: SearchState) {
    forall r, end :: Certain(q, r, end) && |r| == |state.ids| + 1 && Score(q, r[..|r| - 1]) < state.score ==>
      Settled(q, bestSeen, r, end)
  }

  ghost predicate Tightened(before: BestSeen, after: BestSeen) {
    forall key :: key in before ==> key in after && after[key] <= before[key]
  }

  predicate HeapLe(a: SearchState, b: SearchState) {
    KeyLe(a.score, a.hops, b.score, b.hops)
  }

  lemma {:induction false} HeapHasMinimum(heap: seq<SearchState>)
    requires heap != []
    ensures exists i :: 0 <= i < |heap| && forall j :: 0 <= j < |heap| ==> HeapLe(heap[i], heap[j])
  {
    if |heap| == 1 {
      assert HeapLe(heap[0], heap[0]);
    } else {
      var front := heap[..|heap| - 1];
      HeapHasMinimum(front);
      var i :| 0 <= i < |front| && forall j :: 0 <= j < |front| ==> HeapLe(front[i], front[j]);
      var last := |heap| - 1;
      assert forall j :: 0 <= j < last ==> heap[j] == front[j];
      if HeapLe(heap[last], heap[i]) {
        assert forall j :: 0 <= j < |heap| ==> HeapLe(heap[last], heap[j]);
      } else {
        assert forall j :: 0 <= j < |heap| ==> HeapLe(heap[i], heap[j]);
      }
    }
  }

  // ----- termination: duplicate-free paths form a finite tree -----

  function Weight(branching: nat, depth: nat): (w: nat)
    ensures w >= 1
  {
    if depth == 0 then 1 else 1 + branching * Weight(branching, depth - 1)
  }

  function StateWeight(n: nat, s: SearchState): (w: nat)
    ensures w >= 1
  {
    Weight(n, if |s.ids| <= n then n - |s.ids| else 0)
  }

  function HeapWeight(n: nat, heap: seq<SearchState>): nat {
    if heap == [] then 0
    else HeapWeight(n, heap[..|heap| - 1]) + StateWeight(n, heap[|heap| - 1])
  }

  lemma {:induction false} HeapWeightConcat(n: nat, a: seq<SearchState>, b: seq<SearchState>)
    ensures HeapWeight(n, a + b) == HeapWeight(n, a) + HeapWeight(n, b)
    decreases |b|
  {
    if b == [] {
      assert a + b == a;
    } else {
      HeapWeightConcat(n, a, b[..|b| - 1]);
      assert (a + b)[..|a + b| - 1] == a + b[..|b| - 1];
    }
  }

  lemma HeapWeightRemove(n: nat, heap: seq<SearchState>, i: nat)
    requires i < |heap|
    ensures HeapWeight(n, heap) == HeapWeight(n, heap[..i] + heap[i + 1..]) + StateWeight(n, heap[i])
  {
    hide StateWeight, Weight;
    HeapWeightConcat(n, heap[..i], heap[i..]);
    HeapWeightConcat(n, heap[i..i + 1], heap[i + 1..]);
    HeapWeightConcat(n, heap[..i], heap[i + 1..]);
    assert heap == heap[..i] + heap[i..];
    assert heap[i..] == heap[i..i + 1] + heap[i + 1..];
    assert heap[i..i + 1][..0] == [];
  }

  /** The weight of a state one adapter longer than `ids`; none is longer than `n`. */
  function ChildWeight(n: nat, ids: seq<string>): nat {
    if |ids| >= n then 0 else Weight(n, n - |ids| - 1)
  }

  lemma BranchBound(n: nat, k: nat, s: SearchState)
    requires k <= n
    ensures k * ChildWeight(n, s.ids) < StateWeight(n, s)
  {
    var w := ChildWeight(n, s.ids);
    assert k * w <= n * w;
  }

  // ----- one relaxation, seen from a best walk that wants to take it -----

  /** Relaxing the adapter a best walk takes next is never refused: the adapter is not
      reused, its sums fit while the walk is owed, and no recorded rival beats it. */
  lemma WantedStepSurvives(q: Query, s: SearchState, a: Adapter, w: seq<string>,
                           bestSeen: BestSeen, seenBy: map<(Node, nat), seq<string>>)
    requires StateOk(q, s) && SeenOk(q, bestSeen, seenBy) && Minimal(q, w)
    requires Usable(q, a.id) && q.registry[a.id] == a && a.source == s.node
    requires s.ids <= w && |s.ids| < |w| && w[|s.ids|] == a.id
    ensures a.id !in s.ids
    ensures s.ids + [a.id] <= w
    ensures Score(q, w) >= s.score + AdapterScore(a, q.policy) && RawCost(q, w) >= s.rawCost + a.cost
    ensures (a.target, s.hops + 1) in bestSeen ==>
      s.score + AdapterScore(a, q.policy) <= bestSeen[(a.target, s.hops + 1)]
  {
    MinimalDistinct(q, w);
    var k := |s.ids|;
    var child := s.ids + [a.id];
    assert child == w[..k + 1];
    WalkSnoc(q, q.start, s.ids, s.node, a.id);
    PrefixTotalsMonotone(q, w, k + 1);
    var key := (a.target, s.hops + 1);
    if key in bestSeen {
      MinimalPrefixUndominated(q, w, k + 1, seenBy[key], a.target);
    }
  }

  /** A popped state that is a proper prefix of a best walk has work left to do:
      it is not at the goal, not at the hop limit, and its next adapter is listed. */
  lemma PrefixContinues(q: Query, edges: Edges, s: SearchState, w: seq<string>)
    requires StateOk(q, s) && EdgesOk(q, edges) && KeysMatch(q) && Minimal(q, w)
    requires s.ids <= w && |s.ids| < |w|
    ensures s.node != q.goal
    ensures q.policy.maxHops.Some? ==> s.hops < q.policy.maxHops.value
    ensures s.node in edges && Pending(s, edges[s.node], 0, w)
  {
    var k := |s.ids|;
    assert s.ids == w[..k];
    MinimalReachesGoalLast(q, w, k);
    var mid := WalkSplit(q, q.start, w, q.goal, k);
    WalkEndUnique(q, q.start, s.ids, mid, s.node);
    var a := q.registry[w[k]];
    assert Usable(q, w[k]) && a in edges[s.node];
    var m :| 0 <= m < |edges[s.node]| && edges[s.node][m] == a;
    assert edges[s.node][m].id == w[k];
  }

  /** The first goal state popped is already a best walk. */
  lemma FirstGoalIsMinimal(q: Query, heap: seq<SearchState>, s: SearchState, costOverflow: bool)
    requires HeapOk(q, heap) && StateOk(q, s) && s.node == q.goal
    requires forall i :: 0 <= i < |heap| ==> HeapLe(s, heap[i])
    requires forall w :: Target(q, costOverflow, w) ==> Open(heap, w) || s.ids <= w
    requires SomeTarget(q, costOverflow)
    ensures Minimal(q, s.ids)
  {
    var best := MinimalExists(q, s.ids);
    if costOverflow {
      best :| Finite(q, best);
    }
    assert Target(q, costOverflow, best);
    OpenBounds(q, heap, s, best);
  }

  /** While a prefix of `w` is queued or in hand, the popped key is no worse than `w`'s. */
  lemma OpenBounds(q: Query, heap: seq<SearchState>, s: SearchState, w: seq<string>)
    requires HeapOk(q, heap) && StateOk(q, s)
    requires forall i :: 0 <= i < |heap| ==> HeapLe(s, heap[i])
    requires Open(heap, w) || s.ids <= w
    ensures NoWorse(q, s.ids, w)
  {
    if s.ids <= w {
      PrefixNoWorse(q, w, |s.ids|);
      assert s.ids == w[..|s.ids|];
    } else {
      var i :| 0 <= i < |heap| && heap[i].ids <= w;
      assert heap[i] in heap;
      PrefixNoWorse(q, w, |heap[i].ids|);
      assert heap[i].ids == w[..|heap[i].ids|];
    }
  }

  // ----- the code -----

  method BuildEdges(q: Query) returns (edges: Edges)
    requires KeysMatch(q)
    ensures EdgesOk(q, edges)
  {
    edges := map[];
    var remaining := q.registry.Keys;
    while remaining != {}
      invariant remaining <= q.registry.Keys && |remaining| <= |q.registry|
      invariant forall n :: n in edges ==> BucketOk(q, n, edges[n]) && |edges[n]| + |remaining| <= |q.registry|
      invariant forall id :: Usable(q, id) && id !in remaining ==> Listed(q, edges, id)
      decreases remaining
    {
      var id :| id in remaining;
      remaining := remaining - {id};
      var adapter := q.registry[id];
      if Eligible(adapter, q.policy) {
        var bucket := if adapter.source in edges then edges[adapter.source] else [];
        edges := edges[adapter.source := bucket + [adapter]];
      }
    }
  }

  /** `w` continues `state` with `adapter`. */
  ghost predicate Wants(state: SearchState, adapter: Adapter, w: seq<string>) {
    state.ids <= w && |state.ids| < |w| && w[|state.ids|] == adapter.id
  }

  /** Every owed walk that was in the popped state's care is queued again or still pending. */
  ghost predicate HandedOver(q: Query, costOverflow: bool, state: SearchState, next: seq<Adapter>, j: nat,
                             heap: seq<SearchState>) {
    forall w :: Target(q, costOverflow, w) && Pending(state, next, 0, w) ==>
      Open(heap, w) || Pending(state, next, j, w)
  }

  /** The body of the relaxation loop for one outgoing adapter. */
  method Relax(q: Query, state: SearchState, adapter: Adapter, heap: seq<SearchState>, bestSeen: BestSeen,
               costOverflow: bool, ghost seenBy: map<(Node, nat), seq<string>>)
    returns (heap': seq<SearchState>, bestSeen': BestSeen, costOverflow': bool,
             ghost seenBy': map<(Node, nat), seq<string>>)
    requires StateOk(q, state) && SeenOk(q, bestSeen, seenBy) && WithinBudget(q, state.hops + 1)
    requires Usable(q, adapter.id) && q.registry[adapter.id] == adapter && adapter.source == state.node
    ensures SeenOk(q, bestSeen', seenBy')
    ensures heap' == heap ||
            (&& |heap'| == |heap| + 1 && heap'[..|heap|] == heap
             && StateOk(q, heap'[|heap|]) && heap'[|heap|].ids == state.ids + [adapter.id])
    ensures adapter.id in state.ids ==> heap' == heap
    ensures costOverflow ==> costOverflow'
    ensures costOverflow' && !costOverflow ==> adapter.id !in state.ids && TooCostly(q, state.ids + [adapter.id])
    ensures forall w :: Target(q, costOverflow', w) && Wants(state, adapter, w) ==>
      |heap'| == |heap| + 1 && heap'[|heap|].ids <= w
    ensures Tightened(bestSeen, bestSeen')
    ensures heap' != heap && (adapter.target, state.hops + 1) in bestSeen ==>
      Score(q, state.ids + [adapter.id]) <= bestSeen[(adapter.target, state.hops + 1)]
    ensures forall r, end :: Certain(q, r, end) && Wants(state, adapter, r) ==>
      heap' != heap && Settled(q, bestSeen', state.ids + [adapter.id], adapter.target)
  {
    hide Minimal, Certain, Walk, Distinct, AdapterScore, Eligible, AllUsable, Score, RawCost, SeenOk;
    heap', bestSeen', costOverflow', seenBy' := heap, bestSeen, costOverflow, seenBy;
    ghost var child := state.ids + [adapter.id];
    ChildState(q, state, adapter);
    forall w | Minimal(q, w) && Wants(state, adapter, w)
      ensures adapter.id !in state.ids && child <= w
      ensures Score(q, w) >= state.score + AdapterScore(adapter, q.policy)
      ensures RawCost(q, w) >= state.rawCost + adapter.cost
      ensures (adapter.target, state.hops + 1) in bestSeen ==>
                state.score + AdapterScore(adapter, q.policy) <= bestSeen[(adapter.target, state.hops + 1)]
    {
      WantedStepSurvives(q, state, adapter, w, bestSeen, seenBy);
    }
    forall r, end | Certain(q, r, end) && Wants(state, adapter, r)
      ensures adapter.id !in state.ids
      ensures Score(q, child) <= U64_MAX && RawCost(q, child) <= U64_MAX
      ensures (adapter.target, state.hops + 1) in bestSeen ==>
                Score(q, child) <= bestSeen[(adapter.target, state.hops + 1)]
    {
      CertainStepSurvives(q, state, adapter, r, end, bestSeen, seenBy);
    }
    if adapter.id in state.ids {
      return;
    }
    var next := adapter.target;
    var hops := state.hops + 1;
    var step := AdapterScore(adapter, q.policy);
    if step > U64_MAX || state.score + step > U64_MAX {
      costOverflow' := true;
      return;
    }
    var score := state.score + step;
    if state.rawCost + adapter.cost > U64_MAX {
      costOverflow' := true;
      return;
    }
    var rawCost := state.rawCost + adapter.cost;
    var key := (next, hops);
    if key in bestSeen && score > bestSeen[key] {
      return;
    }
    SeenPut(q, bestSeen, seenBy, key, score, child);
    bestSeen' := bestSeen[key := score];
    seenBy' := seenBy[key := child];
    var adapterIds := state.ids + [adapter.id];
    heap' := heap + [SearchState(score, rawCost, hops, next, adapterIds)];
  }

  lemma ChildState(q: Query, s: SearchState, a: Adapter)
    requires StateOk(q, s) && Usable(q, a.id) && q.registry[a.id] == a && a.source == s.node
    ensures Walk(q, q.start, s.ids + [a.id], a.target) && |s.ids + [a.id]| == s.hops + 1
    ensures Score(q, s.ids + [a.id]) == s.score + AdapterScore(a, q.policy)
    ensures RawCost(q, s.ids + [a.id]) == s.rawCost + a.cost
    ensures a.id !in s.ids ==> AllUsable(q, s.ids + [a.id]) && Distinct(s.ids + [a.id])
  {
    WalkSnoc(q, q.start, s.ids, s.node, a.id);
    if a.id !in s.ids {
      WalkUsable(q, q.start, s.ids, s.node);
      ChildFits(q, s.ids, a.id);
    }
  }

  lemma SeenPut(q: Query, bestSeen: BestSeen, seenBy: map<(Node, nat), seq<string>>,
                key: (Node, nat), score: U64, walk: seq<string>)
    requires SeenOk(q, bestSeen, seenBy)
    requires Walk(q, q.start, walk, key.0) && |walk| == key.1 && Score(q, walk) == score
    ensures SeenOk(q, bestSeen[key := score], seenBy[key := walk])
  {}

  /** The loop over the adapters leaving a popped state. */
  method Expand(q: Query, state: SearchState, nextEdges: seq<Adapter>, heap0: seq<SearchState>,
                bestSeen0: BestSeen, costOverflow0: bool, ghost seenBy0: map<(Node, nat), seq<string>>)
    returns (heap: seq<SearchState>, bestSeen: BestSeen, costOverflow: bool,
             ghost seenBy: map<(Node, nat), seq<string>>)
    requires StateOk(q, state) && WithinBudget(q, state.hops + 1)
    requires HeapOk(q, heap0) && SeenOk(q, bestSeen0, seenBy0)
    requires BucketOk(q, state.node, nextEdges) && |nextEdges| <= |q.registry|
    requires TrackedOrPending(q, heap0, bestSeen0, state, nextEdges, 0) && RivalsSettled(q, bestSeen0, state)
    requires NoneOvertaken(q, heap0) && !Overtaken(q, state.ids)
    ensures Tracked(q, heap, bestSeen) && NoneOvertaken(q, heap)
    ensures HeapOk(q, heap) && heap0 <= heap && SeenOk(q, bestSeen, seenBy)
    ensures HeapWeight(|q.registry|, heap) < HeapWeight(|q.registry|, heap0) + StateWeight(|q.registry|, state)
    ensures costOverflow0 ==> costOverflow
    ensures costOverflow && !costOverflow0 ==> exists v :: TooCostly(q, v)
    ensures HandedOver(q, costOverflow, state, nextEdges, |nextEdges|, heap)
  {
    heap, bestSeen, costOverflow, seenBy := heap0, bestSeen0, costOverflow0, seenBy0;
    WalkUsable(q, q.start, state.ids, state.node);
    DistinctFitsIn(state.ids, q.registry.Keys);
    ghost var n := |q.registry|;
    ghost var childWeight := ChildWeight(n, state.ids);
    assert HandedOver(q, costOverflow, state, nextEdges, 0, heap);
    BranchBound(n, |nextEdges|, state);
    hide HandedOver, TrackedOrPending, RivalsSettled, NoneOvertaken, Tracked, Overtaken, Certain, Target,
         HeapOk, StateOk, SeenOk, HeapWeight, StateWeight, ChildWeight, Distinct, Score, RawCost, Walk;
    for j := 0 to |nextEdges|
      invariant HeapOk(q, heap) && heap0 <= heap && SeenOk(q, bestSeen, seenBy)
      invariant HeapWeight(n, heap) <= HeapWeight(n, heap0) + j * childWeight
      invariant costOverflow0 ==> costOverflow
      invariant costOverflow && !costOverflow0 ==> exists v :: TooCostly(q, v)
      invariant HandedOver(q, costOverflow, state, nextEdges, j, heap)
      invariant TrackedOrPending(q, heap, bestSeen, state, nextEdges, j) && RivalsSettled(q, bestSeen, state)
      invariant NoneOvertaken(q, heap)
    {
      ghost var before, overflowBefore, seenBefore := heap, costOverflow, bestSeen;
      heap, bestSeen, costOverflow, seenBy := Relax(q, state, nextEdges[j], heap, bestSeen, costOverflow, seenBy);
      assert (j + 1) * childWeight == j * childWeight + childWeight;
      PushedWeight(q, state, nextEdges[j], before, heap);
      RelaxKeepsRivals(q, state, nextEdges, j, before, seenBefore, heap, bestSeen);
      HandOverStep(q, overflowBefore, costOverflow, state, nextEdges, j, before, heap);
    }
  }

  /** `BinaryHeap::pop`. The source breaks ties by raw cost, node and ids; here any state
      with a least (score, hops) may come out, so nothing below depends on the tie-break. */
  method Pop(q: Query, heap: seq<SearchState>) returns (state: SearchState, rest: seq<SearchState>)
    requires HeapOk(q, heap) && heap != []
    ensures HeapOk(q, rest) && StateOk(q, state) && PoppedMinimum(heap, state)
    ensures multiset(heap) == multiset(rest) + multiset{state}
    ensures HeapWeight(|q.registry|, heap) == HeapWeight(|q.registry|, rest) + StateWeight(|q.registry|, state)
    ensures HeapWeight(|q.registry|, rest) < HeapWeight(|q.registry|, heap)
    ensures forall w :: Open(heap, w) ==> Open(rest, w) || state.ids <= w
  {
    HeapHasMinimum(heap);
    var i :| 0 <= i < |heap| && forall j :: 0 <= j < |heap| ==> HeapLe(heap[i], heap[j]);
    state, rest := heap[i], heap[..i] + heap[i + 1..];
    HeapWeightRemove(|q.registry|, heap, i);
    assert StateWeight(|q.registry|, state) >= 1;
    PopKeepsOpen(heap, i, rest);
    PopContents(heap, i, rest);
  }

  method Search(q: Query) returns (goalPaths: seq<seq<string>>, costOverflow: bool)
    requires KeysMatch(q) && q.start != q.goal
    ensures forall g :: g in goalPaths ==> GoalPathOk(q, g)
    // the main result: without overflow every best walk and nothing else is collected
    ensures !costOverflow ==> forall w :: w in goalPaths <==> Minimal(q, w)
    // overflow or not, best walks that fit are never lost, and one of them keeps all others out
    ensures forall w :: Finite(q, w) ==> w in goalPaths
    ensures (exists w :: Finite(q, w)) ==> forall w :: w in goalPaths <==> Finite(q, w)
    ensures costOverflow ==> exists v :: TooCostly(q, v)
    // what an earlier and cheaper arrival shuts out stays out
    ensures forall g :: g in goalPaths ==> !Overtaken(q, g)
  {
    hide Overtaken, HeapWeight, TooCostly, Minimal;
    var edges := BuildEdges(q);
    var heap := [SearchState(0, 0, 0, q.start, [])];
    var bestSeen: BestSeen := map[(q.start, 0) := 0];
    ghost var seenBy: map<(Node, nat), seq<string>> := map[(q.start, 0) := []];
    costOverflow := false;
    var bestGoal: Option<(U64, nat)> := None;
    goalPaths := [];
    InitialFrontier(q, heap);
    InitialRivals(q, heap, bestSeen);

    while heap != []
      invariant HeapOk(q, heap) && SeenOk(q, bestSeen, seenBy)
      invariant GoalsOk(q, costOverflow, goalPaths, bestGoal)
      invariant Frontier(q, costOverflow, goalPaths, heap)
      invariant costOverflow ==> exists v :: TooCostly(q, v)
      invariant Tracked(q, heap, bestSeen) && NoneOvertaken(q, heap)
      invariant forall g :: g in goalPaths ==> !Overtaken(q, g)
      decreases HeapWeight(|q.registry|, heap)
    {
      ghost var full := heap;
      var state;
      state, heap := Pop(q, heap);

      if bestGoal.Some? && !KeyLe(state.score, state.hops, bestGoal.value.0, bestGoal.value.1) {
        BreakLosesNothing(q, costOverflow, goalPaths, bestGoal, full, state);
        heap := [];
        break;
      }
      PoppedRivals(q, full, state, heap, bestSeen, edges);
      if state.node == q.goal {
        GoalPopped(q, costOverflow, goalPaths, bestGoal, full, state, heap, edges);
        if bestGoal.None? {
          bestGoal := Some((state.score, state.hops));
        }
        goalPaths := goalPaths + [state.ids];
        continue;
      }
      InnerPopped(q, costOverflow, goalPaths, full, state, heap, edges);
      if q.policy.maxHops.Some? && state.hops >= q.policy.maxHops.value {
        continue;
      }
      if state.node !in edges {
        continue;
      }
      ghost var popped, overflowBefore := heap, costOverflow;
      heap, bestSeen, costOverflow, seenBy := Expand(q, state, edges[state.node], heap, bestSeen, costOverflow, seenBy);
      ExpandKeepsFrontier(q, overflowBefore, costOverflow, goalPaths, state, edges[state.node], popped, heap);
    }
    CollectedExactly(q, costOverflow, goalPaths, bestGoal);
  }

  // ----- the invariants of the main loop, and what each branch does to them -----

  /** Every collected path is sound and no worse than the first one, and best if some best
      walk is owed. */
  ghost predicate GoalsOk(q: Query, costOverflow: bool, goalPaths: seq<seq<string>>, bestGoal: Option<(U64, nat)>) {
    && (forall g :: g in goalPaths ==> GoalPathOk(q, g))
    && (bestGoal.None? <==> goalPaths == [])
    && (bestGoal.Some? ==> bestGoal.value == (Score(q, goalPaths[0]), |goalPaths[0]|))
    && (SomeTarget(q, costOverflow) ==> forall g :: g in goalPaths ==> Minimal(q, g))
  }

  /** With an empty queue, what was owed is what was collected. */
  lemma CollectedExactly(q: Query, costOverflow: bool, goalPaths: seq<seq<string>>, bestGoal: Option<(U64, nat)>)
    requires GoalsOk(q, costOverflow, goalPaths, bestGoal) && Frontier(q, costOverflow, goalPaths, [])
    ensures forall w :: Finite(q, w) ==> w in goalPaths
    ensures !costOverflow ==> forall w :: w in goalPaths <==> Minimal(q, w)
    ensures (exists w :: Finite(q, w)) ==> forall w :: w in goalPaths <==> Finite(q, w)
  {
    hide Minimal;
    forall w | Target(q, costOverflow, w)
      ensures w in goalPaths
    {
      assert !Open([], w);
    }
    forall w | Finite(q, w)
      ensures w in goalPaths
    {
      assert Target(q, costOverflow, w);
    }
    if !costOverflow {
      forall w | Minimal(q, w)
        ensures w in goalPaths
      {
        assert Target(q, costOverflow, w);
      }
    }
  }

  /** Every owed best walk has been collected or has a prefix in the queue. */
  ghost predicate Frontier(q: Query, costOverflow: bool, goalPaths: seq<seq<string>>, heap: seq<SearchState>) {
    forall w :: Target(q, costOverflow, w) ==> w in goalPaths || Open(heap, w)
  }

  ghost predicate PoppedMinimum(heap: seq<SearchState>, state: SearchState) {
    state in heap && forall j :: 0 <= j < |heap| ==> HeapLe(state, heap[j])
  }

  /** The early break: whatever is still owed would be in the queue with a key no larger
      than the best goal's, yet the queue's minimum is larger. */
  lemma BreakLosesNothing(q: Query, costOverflow: bool, goalPaths: seq<seq<string>>, bestGoal: Option<(U64, nat)>,
                          heap: seq<SearchState>, state: SearchState)
    requires HeapOk(q, heap) && PoppedMinimum(heap, state)
    requires GoalsOk(q, costOverflow, goalPaths, bestGoal) && Frontier(q, costOverflow, goalPaths, heap)
    requires bestGoal.Some? && !KeyLe(state.score, state.hops, bestGoal.value.0, bestGoal.value.1)
    ensures Frontier(q, costOverflow, goalPaths, [])
  {
    forall w | Target(q, costOverflow, w)
      ensures w in goalPaths
    {
      if w !in goalPaths {
        assert NoWorse(q, w, goalPaths[0]) by { assert goalPaths[0] in goalPaths; }
        OpenBounds(q, heap, state, w);
      }
    }
  }

  lemma GoalPopped(q: Query, costOverflow: bool, goalPaths: seq<seq<string>>, bestGoal: Option<(U64, nat)>,
                   heap: seq<SearchState>, state: SearchState, rest: seq<SearchState>, edges: Edges)
    requires HeapOk(q, heap) && PoppedMinimum(heap, state) && state.node == q.goal
    requires EdgesOk(q, edges) && KeysMatch(q)
    requires GoalsOk(q, costOverflow, goalPaths, bestGoal) && Frontier(q, costOverflow, goalPaths, heap)
    requires forall w :: Open(heap, w) ==> Open(rest, w) || state.ids <= w
    requires bestGoal.Some? ==> KeyLe(state.score, state.hops, bestGoal.value.0, bestGoal.value.1)
    ensures SomeTarget(q, costOverflow) ==> Minimal(q, state.ids)
    ensures Frontier(q, costOverflow, goalPaths + [state.ids], rest)
  {
    if SomeTarget(q, costOverflow) {
      if bestGoal.None? {
        FirstGoalIsMinimal(q, heap, state, costOverflow);
      } else {
        assert goalPaths[0] in goalPaths;
      }
    }
    forall w | Target(q, costOverflow, w)
      ensures w in goalPaths + [state.ids] || Open(rest, w)
    {
      if state.ids <= w {
        if |state.ids| < |w| {
          PrefixContinues(q, edges, state, w);
        } else {
          assert (goalPaths + [state.ids])[|goalPaths|] == w;
        }
      }
    }
  }

  /** A popped inner state may leave the queue unexpanded only when nothing owed runs through it. */
  lemma InnerPopped(q: Query, costOverflow: bool, goalPaths: seq<seq<string>>,
                    heap: seq<SearchState>, state: SearchState, rest: seq<SearchState>, edges: Edges)
    requires HeapOk(q, heap) && PoppedMinimum(heap, state) && state.node != q.goal
    requires EdgesOk(q, edges) && KeysMatch(q)
    requires Frontier(q, costOverflow, goalPaths, heap)
    requires forall w :: Open(heap, w) ==> Open(rest, w) || state.ids <= w
    ensures forall w :: Target(q, costOverflow, w) ==>
      || w in goalPaths
      || Open(rest, w)
      || (&& state.node in edges && Pending(state, edges[state.node], 0, w)
          && (q.policy.maxHops.Some? ==> state.hops < q.policy.maxHops.value))
  {
    forall w | Target(q, costOverflow, w) && w !in goalPaths && !Open(rest, w)
      ensures state.node in edges && Pending(state, edges[state.node], 0, w)
      ensures q.policy.maxHops.Some? ==> state.hops < q.policy.maxHops.value
    {
      assert state.ids <= w;
      if |state.ids| == |w| {
        WalkEndUnique(q, q.start, w, state.node, q.goal);
      }
      PrefixContinues(q, edges, state, w);
    }
  }

  lemma ExpandKeepsFrontier(q: Query, overflowBefore: bool, costOverflow: bool, goalPaths: seq<seq<string>>,
                            state: SearchState, next: seq<Adapter>, before: seq<SearchState>, heap: seq<SearchState>)
    requires overflowBefore ==> costOverflow
    requires before <= heap
    requires HandedOver(q, costOverflow, state, next, |next|, heap)
    requires forall w :: Target(q, overflowBefore, w) ==>
      w in goalPaths || Open(before, w) || Pending(state, next, 0, w)
    ensures Frontier(q, costOverflow, goalPaths, heap)
  {
    forall w | Target(q, costOverflow, w)
      ensures w in goalPaths || Open(heap, w)
    {
      assert Target(q, overflowBefore, w);
    }
  }

  lemma InitialFrontier(q: Query, heap: seq<SearchState>)
    requires |heap| == 1 && heap[0].ids == []
    ensures Frontier(q, false, [], heap)
  {
    forall w | Target(q, false, w)
      ensures Open(heap, w)
    {
      assert heap[0].ids <= w;
    }
  }

  lemma HandOverStep(q: Query, overflowBefore: bool, costOverflow: bool, state: SearchState, next: seq<Adapter>, j: nat,
                     before: seq<SearchState>, heap: seq<SearchState>)
    requires j < |next| && before <= heap && (overflowBefore ==> costOverflow)
    requires HandedOver(q, overflowBefore, state, next, j, before)
    requires forall w :: Target(q, costOverflow, w) && Wants(state, next[j], w) ==>
      |heap| == |before| + 1 && heap[|before|].ids <= w
    ensures HandedOver(q, costOverflow, state, next, j + 1, heap)
  {
    forall w | Target(q, costOverflow, w) && Pending(state, next, 0, w)
      ensures Open(heap, w) || Pending(state, next, j + 1, w)
    {
      assert Target(q, overflowBefore, w);
      if Pending(state, next, j, w) {
        if Wants(state, next[j], w) {
          assert heap[|before|].ids <= w;
        } else {
          var m :| j <= m < |next| && next[m].id == w[|state.ids|];
          assert m > j;
        }
      }
    }
  }

  lemma PushedWeight(q: Query, state: SearchState, a: Adapter, before: seq<SearchState>, heap: seq<SearchState>)
    requires StateOk(q, state) && Usable(q, a.id) && HeapOk(q, before)
    requires heap == before ||
             (&& |heap| == |before| + 1 && heap[..|before|] == before
              && StateOk(q, heap[|before|]) && heap[|before|].ids == state.ids + [a.id])
    requires a.id in state.ids ==> heap == before
    ensures HeapOk(q, heap) && before <= heap
    ensures HeapWeight(|q.registry|, heap) <= HeapWeight(|q.registry|, before) + ChildWeight(|q.registry|, state.ids)
  {
    hide Walk, Score, RawCost, Weight, Usable;
    if heap != before {
      WalkUsable(q, q.start, state.ids, state.node);
      ChildFits(q, state.ids, a.id);
      assert heap == before + [heap[|before|]];
      assert heap[..|heap| - 1] == before;
    }
  }

  lemma PopContents(full: seq<SearchState>, i: nat, rest: seq<SearchState>)
    requires i < |full| && rest == full[..i] + full[i + 1..]
    ensures multiset(full) == multiset(rest) + multiset{full[i]}
    ensures forall s :: s in rest ==> s in full
  {
    assert full == full[..i] + ([full[i]] + full[i + 1..]);
  }

  lemma PopKeepsOpen(full: seq<SearchState>, i: nat, rest: seq<SearchState>)
    requires i < |full| && rest == full[..i] + full[i + 1..]
    ensures forall w :: Open(full, w) ==> Open(rest, w) || full[i].ids <= w
  {
    forall w | Open(full, w)
      ensures Open(rest, w) || full[i].ids <= w
    {
      var m :| 0 <= m < |full| && full[m].ids <= w;
      if m < i {
        assert rest[m] == full[m];
      } else if m > i {
        assert rest[m - 1] == full[m];
      }
    }
  }

  lemma ChildFits(q: Query, ids: seq<string>, id: string)
    requires AllUsable(q, ids) && Distinct(ids) && Usable(q, id) && id !in ids
    ensures AllUsable(q, ids + [id]) && Distinct(ids + [id])
    ensures |ids| < |q.registry|
  {
    DistinctFitsIn(ids + [id], q.registry.Keys);
  }

  // ----- rivals: the steps -----

  lemma InitialRivals(q: Query, heap: seq<SearchState>, bestSeen: BestSeen)
    requires |heap| == 1 && heap[0].ids == []
    ensures Tracked(q, heap, bestSeen) && NoneOvertaken(q, heap)
  {
    forall r, end | Certain(q, r, end) && r != []
      ensures ProperOpen(heap, r)
    {
      assert heap[0].ids <= r;
    }
  }

  /** Relaxing the next adapter of a certain walk is never refused either. */
  lemma CertainStepSurvives(q: Query, s: SearchState, a: Adapter, r: seq<string>, end: Node,
                            bestSeen: BestSeen, seenBy: map<(Node, nat), seq<string>>)
    requires StateOk(q, s) && SeenOk(q, bestSeen, seenBy) && Certain(q, r, end) && Wants(s, a, r)
    requires Usable(q, a.id) && q.registry[a.id] == a && a.source == s.node
    ensures a.id !in s.ids
    ensures Score(q, s.ids + [a.id]) <= U64_MAX && RawCost(q, s.ids + [a.id]) <= U64_MAX
    ensures (a.target, s.hops + 1) in bestSeen ==> Score(q, s.ids + [a.id]) <= bestSeen[(a.target, s.hops + 1)]
  {
    var k := |s.ids|;
    assert s.ids + [a.id] == r[..k + 1];
    PrefixTotalsMonotone(q, r, k + 1);
    WalkSnoc(q, q.start, s.ids, s.node, a.id);
  }

  lemma CertainContinues(q: Query, edges: Edges, s: SearchState, r: seq<string>, end: Node)
    requires StateOk(q, s) && EdgesOk(q, edges) && KeysMatch(q) && Certain(q, r, end)
    requires s.ids <= r && |s.ids| < |r|
    ensures s.node != q.goal
    ensures q.policy.maxHops.Some? ==> s.hops < q.policy.maxHops.value
    ensures s.node in edges && Pending(s, edges[s.node], 0, r)
  {
    var k := |s.ids|;
    assert s.ids == r[..k];
    var mid := WalkSplit(q, q.start, r, end, k);
    WalkEndUnique(q, q.start, s.ids, mid, s.node);
    var a := q.registry[r[k]];
    assert Usable(q, r[k]) && a in edges[s.node];
    var m :| 0 <= m < |edges[s.node]| && edges[s.node][m] == a;
    assert edges[s.node][m].id == r[k];
  }

  /** A rival that could overtake a child of the popped minimum cannot still be queued. */
  lemma PoppedRivals(q: Query, heap: seq<SearchState>, state: SearchState, rest: seq<SearchState>,
                     bestSeen: BestSeen, edges: Edges)
    requires HeapOk(q, heap) && PoppedMinimum(heap, state) && EdgesOk(q, edges) && KeysMatch(q)
    requires multiset(heap) == multiset(rest) + multiset{state}
    requires Tracked(q, heap, bestSeen) && NoneOvertaken(q, heap)
    ensures RivalsSettled(q, bestSeen, state)
    ensures NoneOvertaken(q, rest) && !Overtaken(q, state.ids)
    ensures forall r, end :: Certain(q, r, end) && r != [] ==>
      || ProperOpen(rest, r)
      || Settled(q, bestSeen, r, end)
      || (&& state.node in edges && Pending(state, edges[state.node], 0, r)
          && state.node != q.goal && (q.policy.maxHops.Some? ==> state.hops < q.policy.maxHops.value))
  {
    forall s | s in rest
      ensures s in heap
    {
      assert s in multiset(rest);
      assert s in multiset(heap);
    }
    forall r, end | Certain(q, r, end) && |r| == |state.ids| + 1 && Score(q, r[..|r| - 1]) < state.score
      ensures Settled(q, bestSeen, r, end)
    {
      if ProperOpen(heap, r) {
        var i :| 0 <= i < |heap| && heap[i].ids <= r && |heap[i].ids| < |r|;
        assert heap[i] in heap && HeapLe(state, heap[i]);
        assert heap[i].ids == r[..|r| - 1][..|heap[i].ids|];
        PrefixTotalsMonotone(q, r[..|r| - 1], |heap[i].ids|);
      }
    }
    forall r, end | Certain(q, r, end) && r != [] && !ProperOpen(rest, r) && !Settled(q, bestSeen, r, end)
      ensures state.node in edges && Pending(state, edges[state.node], 0, r)
      ensures state.node != q.goal && (q.policy.maxHops.Some? ==> state.hops < q.policy.maxHops.value)
    {
      PopKeepsProperOpen(heap, state, rest, r);
      CertainContinues(q, edges, state, r, end);
    }
  }

  lemma PopKeepsProperOpen(heap: seq<SearchState>, state: SearchState, rest: seq<SearchState>, r: seq<string>)
    requires multiset(heap) == multiset(rest) + multiset{state} && ProperOpen(heap, r)
    ensures ProperOpen(rest, r) || (state.ids <= r && |state.ids| < |r|)
  {
    var i :| 0 <= i < |heap| && heap[i].ids <= r && |heap[i].ids| < |r|;
    assert heap[i] in multiset(heap);
    if heap[i] in rest {
      var m :| 0 <= m < |rest| && rest[m] == heap[i];
      assert rest[m].ids <= r;
    }
  }

  lemma RelaxKeepsRivals(q: Query, state: SearchState, next: seq<Adapter>, j: nat,
                         before: seq<SearchState>, seenBefore: BestSeen, heap: seq<SearchState>, bestSeen: BestSeen)
    requires StateOk(q, state) && j < |next|
    requires Usable(q, next[j].id) && q.registry[next[j].id] == next[j] && next[j].source == state.node
    requires TrackedOrPending(q, before, seenBefore, state, next, j) && RivalsSettled(q, seenBefore, state)
    requires NoneOvertaken(q, before) && !Overtaken(q, state.ids)
    requires Tightened(seenBefore, bestSeen)
    requires heap == before ||
             (&& |heap| == |before| + 1 && heap[..|before|] == before
              && heap[|before|].ids == state.ids + [next[j].id])
    requires heap != before && (next[j].target, state.hops + 1) in seenBefore ==>
      Score(q, state.ids + [next[j].id]) <= seenBefore[(next[j].target, state.hops + 1)]
    requires forall r, end :: Certain(q, r, end) && Wants(state, next[j], r) ==>
      heap != before && Settled(q, bestSeen, state.ids + [next[j].id], next[j].target)
    ensures TrackedOrPending(q, heap, bestSeen, state, next, j + 1) && RivalsSettled(q, bestSeen, state)
    ensures NoneOvertaken(q, heap)
  {
    hide Certain, Walk, Score, AdapterScore, Distinct;
    var child := state.ids + [next[j].id];
    WalkSnoc(q, q.start, state.ids, state.node, next[j].id);
    forall r, end | Certain(q, r, end) && r != []
      ensures ProperOpen(heap, r) || Settled(q, bestSeen, r, end) || Pending(state, next, j + 1, r)
    {
      if ProperOpen(before, r) {
        var i :| 0 <= i < |before| && before[i].ids <= r && |before[i].ids| < |r|;
        assert heap[i] == before[i];
      } else if !Settled(q, seenBefore, r, end) && Pending(state, next, j, r) {
        StepTowards(q, state, next, j, r, end, before, heap, bestSeen);
      }
    }
    if heap != before && Overtaken(q, child) {
      ChildOvertaken(q, state.ids, next[j].id, next[j].target);
    }
    forall s | s in heap
      ensures !Overtaken(q, s.ids)
    {
      if s !in before { assert s == heap[|before|]; }
    }
  }

  /** What overtakes an extended walk overtakes the walk already, or takes the new step more cheaply. */
  lemma ChildOvertaken(q: Query, ids: seq<string>, id: string, end: Node)
    requires Walk(q, q.start, ids + [id], end) && Overtaken(q, ids + [id])
    ensures !Overtaken(q, ids) ==>
      exists r :: Certain(q, r, end) && |r| == |ids| + 1
                  && Score(q, r[..|r| - 1]) < Score(q, ids) && Score(q, r) < Score(q, ids + [id])
  {
    hide Certain, Walk, Score;
    var child := ids + [id];
    var r, node :| Overtakes(q, r, child, node);
    if |r| <= |ids| {
      assert child[..|r|] == ids[..|r|] && child[..|r| - 1] == ids[..|r| - 1];
      assert Overtakes(q, r, ids, node);
    } else {
      assert child[..|r|] == child && child[..|r| - 1] == ids;
      WalkEndUnique(q, q.start, child, node, end);
    }
  }

  lemma StepTowards(q: Query, state: SearchState, next: seq<Adapter>, j: nat, r: seq<string>, end: Node,
                    before: seq<SearchState>, heap: seq<SearchState>, bestSeen: BestSeen)
    requires StateOk(q, state) && j < |next|
    requires Usable(q, next[j].id) && q.registry[next[j].id] == next[j] && next[j].source == state.node
    requires Certain(q, r, end) && Pending(state, next, j, r)
    requires heap == before ||
             (&& |heap| == |before| + 1 && heap[..|before|] == before
              && heap[|before|].ids == state.ids + [next[j].id])
    requires Wants(state, next[j], r) ==>
      heap != before && Settled(q, bestSeen, state.ids + [next[j].id], next[j].target)
    ensures ProperOpen(heap, r) || Settled(q, bestSeen, r, end) || Pending(state, next, j + 1, r)
  {
    if Wants(state, next[j], r) {
      var child := state.ids + [next[j].id];
      assert child <= r;
      if |child| == |r| {
        assert child == r;
        WalkSnoc(q, q.start, state.ids, state.node, next[j].id);
        WalkEndUnique(q, q.start, r, end, next[j].target);
      } else {
        assert heap[|before|].ids <= r;
      }
    } else {
      var m :| j <= m < |next| && next[m].id == r[|state.ids|];
      assert m > j;
    }
  }
}
