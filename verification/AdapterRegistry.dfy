/** The adapter registry, `find_path`, and what its answer means to a caller
    (crates/dag-ml-data-core/src/adapter.rs). */
module AdapterRegistry {
  import opened AdapterRoutes
  import opened AdapterSearch
  import opened AdapterWalks
  import opened Ordering
  import opened Sequences
  import opened Words
  import opened Wrappers

  datatype IssueCode = NoPath | CostOverflow | AmbiguousPath

  datatype PathResolution =
    | Resolved(adapters: seq<Adapter>, totalCost: U64, effectiveScore: U64)
    | Unresolved(code: IssueCode, choices: seq<string>, requiresUserChoice: bool)

  // ----- what an answer means -----

  function Ids(adapters: seq<Adapter>): seq<string> {
    seq(|adapters|, i requires 0 <= i < |adapters| => adapters[i].id)
  }

  /** One choice line: the ids of a path joined with arrows. */
  function Join(path: seq<string>): string {
    if path == [] then ""
    else if |path| == 1 then path[0]
    else path[0] + " -> " + Join(path[1..])
  }

  function JoinAll(paths: seq<seq<string>>): seq<string> {
    seq(|paths|, i requires 0 <= i < |paths| => Join(paths[i]))
  }

  /** A best goal walk that 64-bit scores can express. */
  ghost predicate Best(q: Query, w: seq<string>) {
    Minimal(q, w) && Score(q, w) <= U64_MAX
  }

  /** What holds of every path the search collects. */
  ghost predicate Collectable(q: Query, g: seq<string>) {
    GoalPathOk(q, g) && !Overtaken(q, g)
  }

  ghost predicate Offers(q: Query, paths: seq<seq<string>>, choices: seq<string>) {
    && |paths| > 1
    && StrictlyAscending(PathLess, paths)
    && choices == JoinAll(paths)
    && forall i :: 0 <= i < |paths| ==> Collectable(q, paths[i])
  }

  ghost predicate Describes(q: Query, ids: seq<string>, res: PathResolution)
    requires res.Resolved?
  {
    && AllUsable(q, ids)
    && |res.adapters| == |ids|
    && (forall i :: 0 <= i < |ids| ==> res.adapters[i] == q.registry[ids[i]])
    && res.totalCost == RawCost(q, ids)
    && res.effectiveScore == Score(q, ids)
  }

  /** What holds of every answer, overflow or not. */
  ghost predicate Sound(q: Query, res: PathResolution) {
    match res
    case Resolved(adapters, _, _) => Collectable(q, Ids(adapters)) && Describes(q, Ids(adapters), res)
    case Unresolved(AmbiguousPath, choices, needsChoice) =>
      needsChoice && q.policy.requireUserChoice && exists paths :: Offers(q, paths, choices)
    case Unresolved(_, choices, needsChoice) => choices == [] && !needsChoice
  }

  ghost function BestWalks(q: Query): iset<seq<string>> {
    iset w | Best(q, w)
  }

  ghost function FiniteWalks(q: Query): iset<seq<string>> {
    iset w | Finite(q, w)
  }

  ghost function Elements(paths: seq<seq<string>>): iset<seq<string>> {
    iset w | w in paths
  }

  /** The verdict `among` equally good walks: the least id sequence, or all of them as choices
      if there are several and the policy wants the user to choose. */
  ghost predicate Picks(q: Query, among: iset<seq<string>>, res: PathResolution) {
    match res
    case Resolved(adapters, _, _) =>
      && Ids(adapters) in among
      && Describes(q, Ids(adapters), res)
      && (forall w :: w in among ==> w == Ids(adapters) || PathLess(Ids(adapters), w))
      && (q.policy.requireUserChoice ==> forall w :: w in among ==> w == Ids(adapters))
    case Unresolved(code, choices, needsChoice) =>
      && code == AmbiguousPath
      && needsChoice
      && q.policy.requireUserChoice
      && exists paths :: Offers(q, paths, choices) && forall w :: w in paths <==> w in among
  }

  /** The full meaning of an answer, in terms of the best walks alone. */
  ghost predicate IsAnswer(q: Query, res: PathResolution) {
    match res
    case Unresolved(NoPath, choices, needsChoice) =>
      choices == [] && !needsChoice && forall w :: !GoalWalk(q, w)
    case Unresolved(CostOverflow, choices, needsChoice) =>
      choices == [] && !needsChoice && forall w :: GoalWalk(q, w) ==> Score(q, w) > U64_MAX
    case _ => Picks(q, BestWalks(q), res)
  }

  /** When overflow cannot spoil an answer: the raw cost of every best walk fits, or, if a
      single path is asked for, at least of one that precedes all those whose cost does not. */
  ghost predicate Exact(q: Query) {
    || (forall w :: !Best(q, w))
    || (if q.policy.requireUserChoice then forall w :: Best(q, w) ==> Finite(q, w)
        else exists w :: Finite(q, w) && forall v :: Best(q, v) && !Finite(q, v) ==> PathLess(w, v))
  }

  // ----- when 64 bits are enough, as a caller can check it -----

  ghost predicate ListsUsable(q: Query, all: seq<string>) {
    Distinct(all) && forall id :: id in all <==> Usable(q, id)
  }

  /** No raw cost can overflow before its score does: either no usable adapter scores
      below its cost, or all usable costs together fit 64 bits. */
  ghost predicate RawCostSafe(q: Query) {
    || (forall id :: Usable(q, id) ==> q.registry[id].cost <= AdapterScore(q.registry[id], q.policy))
    || (exists all :: ListsUsable(q, all) && RawCost(q, all) <= U64_MAX)
  }

  /** What a caller can look for: no adapter that the policy lets through is preferred, costs
      something and has no flag. */
  lemma RawCostSafeInFields(q: Query)
    requires RegistryOk(q.registry)
    requires forall id :: id in q.registry && id in q.policy.preferred && id !in q.policy.forbidden ==>
      q.registry[id].cost == 0 || q.registry[id].lossy || q.registry[id].stateful || q.registry[id].supervised
    ensures RawCostSafe(q)
  {
    forall id | Usable(q, id)
      ensures q.registry[id].cost <= AdapterScore(q.registry[id], q.policy)
    {
      ScoreBelowCost(q.registry[id], q.policy);
    }
  }

  /** Scores and costs of all usable adapters together fit 64 bits. */
  ghost predicate TotalsFit(q: Query) {
    exists all :: ListsUsable(q, all) && RawCost(q, all) <= U64_MAX && Score(q, all) <= U64_MAX
  }

  lemma TotalsWithout(q: Query, all: seq<string>, i: nat)
    requires i < |all|
    ensures Score(q, all) == Score(q, all[..i] + all[i + 1..]) + Score(q, [all[i]])
    ensures RawCost(q, all) == RawCost(q, all[..i] + all[i + 1..]) + RawCost(q, [all[i]])
  {
    assert all == all[..i] + ([all[i]] + all[i + 1..]);
    TotalsAdd(q, all[..i], [all[i]] + all[i + 1..]);
    TotalsAdd(q, [all[i]], all[i + 1..]);
    TotalsAdd(q, all[..i], all[i + 1..]);
  }

  lemma OthersRemain(all: seq<string>, i: nat, id: string)
    requires i < |all| && id in all && id != all[i]
    ensures id in all[..i] + all[i + 1..]
  {
    var k :| 0 <= k < |all| && all[k] == id;
    var others := all[..i] + all[i + 1..];
    if k < i { assert others[k] == id; } else { assert others[k - 1] == id; }
  }

  lemma {:induction false} TotalsOfPart(q: Query, part: seq<string>, all: seq<string>)
    requires Distinct(part) && forall id :: id in part ==> id in all
    ensures Score(q, part) <= Score(q, all) && RawCost(q, part) <= RawCost(q, all)
    decreases |part|
  {
    if part != [] {
      var last := part[|part| - 1];
      var front := part[..|part| - 1];
      assert part == front + [last] && last in part;
      var i :| 0 <= i < |all| && all[i] == last;
      forall id | id in front
        ensures id in all[..i] + all[i + 1..]
      {
        OthersRemain(all, i, id);
      }
      TotalsOfPart(q, front, all[..i] + all[i + 1..]);
      TotalsWithout(q, all, i);
      TotalsAdd(q, front, [last]);
    }
  }

  lemma {:induction false} RawAtMostScore(q: Query, v: seq<string>)
    requires AllUsable(q, v)
    requires forall id :: Usable(q, id) ==> q.registry[id].cost <= AdapterScore(q.registry[id], q.policy)
    ensures RawCost(q, v) <= Score(q, v)
    decreases |v|
  {
    if v != [] {
      assert v == v[..|v| - 1] + [v[|v| - 1]];
      assert Usable(q, v[|v| - 1]);
      RawAtMostScore(q, v[..|v| - 1]);
    }
  }

  lemma RawCostSafeKeepsRawInRange(q: Query, v: seq<string>)
    requires RawCostSafe(q) && AllUsable(q, v) && Distinct(v) && Score(q, v) <= U64_MAX
    ensures RawCost(q, v) <= U64_MAX
  {
    if forall id :: Usable(q, id) ==> q.registry[id].cost <= AdapterScore(q.registry[id], q.policy) {
      RawAtMostScore(q, v);
    } else {
      var all :| ListsUsable(q, all) && RawCost(q, all) <= U64_MAX;
      TotalsOfPart(q, v, all);
    }
  }

  /** The condition a caller can check before the call is enough. */
  lemma RawCostSafeIsExact(q: Query)
    requires RawCostSafe(q)
    ensures Exact(q)
  {
    forall w | Best(q, w)
      ensures Finite(q, w)
    {
      MinimalDistinct(q, w);
      WalkUsable(q, q.start, w, q.goal);
      RawCostSafeKeepsRawInRange(q, w);
    }
  }

  lemma TotalsFitKeepsTotalsInRange(q: Query, v: seq<string>)
    requires TotalsFit(q)
    ensures !TooCostly(q, v)
  {
    if AllUsable(q, v) && Distinct(v) {
      var all :| ListsUsable(q, all) && RawCost(q, all) <= U64_MAX && Score(q, all) <= U64_MAX;
      TotalsOfPart(q, v, all);
    }
  }

  // ----- from the collected paths to the answer -----

  lemma EmptyWalkIsBest(q: Query)
    requires q.start == q.goal
    ensures Sound(q, Resolved([], 0, 0))
    ensures Picks(q, FiniteWalks(q), Resolved([], 0, 0)) && Picks(q, BestWalks(q), Resolved([], 0, 0))
  {
    assert GoalWalk(q, []);
    assert Ids([]) == [];
    forall w | Best(q, w)
      ensures w == []
    {
      assert NoWorse(q, w, []);
    }
  }

  lemma NothingFound(q: Query, costOverflow: bool)
    requires forall w :: !Best(q, w)
    requires !costOverflow ==> forall w :: !Minimal(q, w)
    ensures IsAnswer(q, Unresolved(if costOverflow then CostOverflow else NoPath, [], false))
  {
    forall w | GoalWalk(q, w)
      ensures costOverflow && Score(q, w) > U64_MAX
    {
      var best := MinimalExists(q, w);
      assert NoWorse(q, best, w) && !Best(q, best);
    }
  }

  lemma ChosenIsLeast(q: Query, among: iset<seq<string>>, sorted: seq<seq<string>>, res: PathResolution)
    requires sorted != [] && StrictlyAscending(PathLess, sorted)
    requires forall w :: w in sorted <==> w in among
    requires |sorted| > 1 ==> !q.policy.requireUserChoice
    requires res.Resolved? && Ids(res.adapters) == sorted[0] && Describes(q, sorted[0], res)
    ensures Picks(q, among, res)
  {
    assert sorted[0] in sorted;
    forall w | w in among
      ensures w == sorted[0] || (PathLess(sorted[0], w) && !q.policy.requireUserChoice)
    {
      var i :| 0 <= i < |sorted| && sorted[i] == w;
    }
  }

  /** A sound answer that picks among the finite best walks, where there are any, and reports
      when there is no best walk at all, has its full meaning exactly if overflow cannot spoil it. */
  lemma AnswerExact(q: Query, res: PathResolution)
    requires Sound(q, res)
    requires (exists w :: Finite(q, w)) ==> Picks(q, FiniteWalks(q), res)
    requires (forall w :: !Best(q, w)) ==> IsAnswer(q, res)
    ensures IsAnswer(q, res) <==> Exact(q)
  {
    hide Minimal, Overtaken, PathLess, Describes;
    if Exact(q) && exists w :: Best(q, w) {
      if q.policy.requireUserChoice {
        assert FiniteWalks(q) == BestWalks(q);
      } else {
        LeastFiniteIsLeast(q, Ids(res.adapters));
      }
    }
    if IsAnswer(q, res) {
      AnswerMeansExact(q, res);
    }
  }

  lemma LeastFiniteIsLeast(q: Query, ids: seq<string>)
    requires !q.policy.requireUserChoice && Exact(q) && Finite(q, ids)
    requires forall w :: Finite(q, w) ==> w == ids || PathLess(ids, w)
    ensures forall v :: Best(q, v) ==> v == ids || PathLess(ids, v)
  {
    PathOrder();
    hide Minimal, PathLess;
    var w :| Finite(q, w) && forall v :: Best(q, v) && !Finite(q, v) ==> PathLess(w, v);
  }

  lemma AnswerMeansExact(q: Query, res: PathResolution)
    requires Sound(q, res) && IsAnswer(q, res)
    ensures Exact(q)
  {
    hide Overtaken, PathLess, Describes;
    if res.Resolved? {
      assert Finite(q, Ids(res.adapters));
      forall w | Best(q, w)
        ensures w == Ids(res.adapters) || (PathLess(Ids(res.adapters), w) && !q.policy.requireUserChoice)
      {
        assert w in BestWalks(q);
      }
    } else if res.code == AmbiguousPath {
      var paths :| Offers(q, paths, res.choices) && forall w :: w in paths <==> w in BestWalks(q);
      forall w | Best(q, w)
        ensures Finite(q, w)
      {
        assert w in paths;
      }
    } else {
      forall w ensures !Best(q, w) {
        assert Best(q, w) ==> GoalWalk(q, w);
      }
    }
  }

  // ----- registration -----

  predicate NameChar(c: char) {
    || 'a' <= c <= 'z' || 'A' <= c <= 'Z' || '0' <= c <= '9'
    || c == '_' || c == '-' || c == '.' || c == ':' || c == '/'
  }

  predicate ValidName(value: string) {
    value != "" && forall i :: 0 <= i < |value| ==> NameChar(value[i])
  }

  predicate ValidAdapter(a: Adapter) {
    && ValidName(a.id)
    && ValidName(a.version)
    && a.deterministic
    && !(a.stateful && a.fitScope == Stateless)
  }

  ghost predicate RegistryOk(m: map<string, Adapter>) {
    forall id :: id in m ==> m[id].id == id && ValidAdapter(m[id])
  }

  ghost predicate DistinctIds(spec: seq<Adapter>) {
    forall i, j :: 0 <= i < j < |spec| ==> spec[i].id != spec[j].id
  }

  /** `m` registers exactly the adapters of `spec`, each under its own id. */
  ghost predicate Registers(m: map<string, Adapter>, spec: seq<Adapter>) {
    && (forall a :: a in spec ==> a.id in m && m[a.id] == a)
    && (forall id :: id in m ==> m[id] in spec && m[id].id == id)
  }

  /** All adapters of `spec` can be registered together. */
  ghost predicate Registrable(spec: seq<Adapter>) {
    (forall i :: 0 <= i < |spec| ==> ValidAdapter(spec[i])) && DistinctIds(spec)
  }

  lemma RegistersNext(m: map<string, Adapter>, spec: seq<Adapter>, i: nat)
    requires i < |spec| && Registers(m, spec[..i]) && Registrable(spec[..i])
    ensures !ValidAdapter(spec[i]) || spec[i].id in m ==> !Registrable(spec)
    ensures ValidAdapter(spec[i]) && spec[i].id !in m ==>
      Registers(m[spec[i].id := spec[i]], spec[..i + 1]) && Registrable(spec[..i + 1])
  {
    assert spec[..i + 1] == spec[..i] + [spec[i]];
    if spec[i].id in m {
      var k :| 0 <= k < i && spec[k] == m[spec[i].id];
      assert spec[k].id == spec[i].id;
    } else {
      forall k | 0 <= k < i
        ensures spec[k].id != spec[i].id
      {
        assert spec[k] in spec[..i];
      }
    }
  }

  /** What the names of an adapter may hold, by character code, and which flags exclude
      each other. */
  lemma ValidAdapterInFields(a: Adapter)
    ensures ValidAdapter(a) <==>
      && a.id != "" && a.version != "" && a.deterministic
      && (a.stateful ==> a.fitScope != Stateless)
      && (forall c :: c in a.id || c in a.version ==>
            var code := c as int;
            45 <= code <= 58 || 65 <= code <= 90 || code == 95 || 97 <= code <= 122)
  {
    assert forall i :: 0 <= i < |a.id| ==> a.id[i] in a.id;
    assert forall i :: 0 <= i < |a.version| ==> a.version[i] in a.version;
  }

  class Registry {
    var adapters: map<string, Adapter>

    ghost predicate Valid()
      reads this
    {
      RegistryOk(adapters)
    }

    constructor ()
      ensures Valid() && adapters == map[]
    {
      adapters := map[];
    }

    method RegisterAdapter(adapter: Adapter) returns (ok: bool)
      requires Valid()
      modifies this
      ensures Valid()
      ensures ok <==> ValidAdapter(adapter) && adapter.id !in old(adapters)
      ensures adapters == if ok then old(adapters)[adapter.id := adapter] else old(adapters)
    {
      if !ValidAdapter(adapter) || adapter.id in adapters {
        return false;
      }
      adapters := adapters[adapter.id := adapter];
      return true;
    }

    static method FromSpec(spec: seq<Adapter>) returns (r: Result<Registry>)
      ensures r.Ok? <==> Registrable(spec)
      ensures r.Ok? ==> fresh(r.value) && r.value.Valid() && Registers(r.value.adapters, spec)
    {
      var registry := new Registry();
      assert Registers(registry.adapters, spec[..0]) && Registrable(spec[..0]);
      hide Registers, Registrable, ValidAdapter, RegistryOk;
      for i := 0 to |spec|
        invariant fresh(registry) && registry.Valid()
        invariant Registers(registry.adapters, spec[..i]) && Registrable(spec[..i])
      {
        RegistersNext(registry.adapters, spec, i);
        var ok := registry.RegisterAdapter(spec[i]);
        if !ok {
          return ValidationError;
        }
      }
      assert spec[..|spec|] == spec;
      return Ok(registry);
    }

    /** `find_path`. The ghost result is the overflow flag of the search. */
    method FindPath(start: Node, goal: Node, policy: Policy) returns (res: PathResolution, ghost costOverflow: bool)
      requires Valid()
      ensures Sound(Query(adapters, policy, start, goal), res)
      ensures IsAnswer(Query(adapters, policy, start, goal), res) <==> Exact(Query(adapters, policy, start, goal))
      ensures (exists w :: Finite(Query(adapters, policy, start, goal), w)) ==>
        Picks(Query(adapters, policy, start, goal), FiniteWalks(Query(adapters, policy, start, goal)), res)
      ensures RawCostSafe(Query(adapters, policy, start, goal)) || !costOverflow ==>
        IsAnswer(Query(adapters, policy, start, goal), res)
      ensures TotalsFit(Query(adapters, policy, start, goal)) ==> !costOverflow
      ensures res.Unresolved? && res.code == CostOverflow ==> costOverflow
      ensures res.Unresolved? && res.code == NoPath ==> forall w :: !GoalWalk(Query(adapters, policy, start, goal), w)
      // the same in the fields of the adapters: what is delivered is a chain the policy lets through
      ensures res.Resolved? ==> forall a :: a in res.adapters ==>
        && a.id in adapters && adapters[a.id] == a
        && a.id !in policy.forbidden
        && (a.lossy ==> policy.allowLossy)
        && (a.stateful ==> policy.allowStateful)
        && (a.supervised ==> policy.allowSupervised)
      ensures res.Resolved? && res.adapters == [] ==> start == goal
      ensures res.Resolved? && res.adapters != [] ==>
        res.adapters[0].source == start && res.adapters[|res.adapters| - 1].target == goal
      ensures res.Resolved? ==> forall i :: 0 <= i && i + 1 < |res.adapters| ==>
        res.adapters[i].target == res.adapters[i + 1].source
      ensures res.Resolved? && policy.maxHops.Some? ==> |res.adapters| <= policy.maxHops.value
    {
      assert RegistryOk(adapters);
      hide *;
      var q := Query(adapters, policy, start, goal);
      res, costOverflow := Resolve(q);
      DeliveredInFields(q, res);
    }
  }

  /** The body of `find_path`, for a query against the registered adapters. */
  method Resolve(q: Query) returns (res: PathResolution, ghost costOverflow: bool)
    requires RegistryOk(q.registry)
    ensures Sound(q, res)
    ensures IsAnswer(q, res) <==> Exact(q)
    ensures (exists w :: Finite(q, w)) ==> Picks(q, FiniteWalks(q), res)
    ensures RawCostSafe(q) || !costOverflow ==> IsAnswer(q, res)
    ensures TotalsFit(q) ==> !costOverflow
    ensures res.Unresolved? && res.code == CostOverflow ==> costOverflow
    ensures res.Unresolved? && res.code == NoPath ==> forall w :: !GoalWalk(q, w)
  {
    hide Sound, IsAnswer, Exact, Picks, Overtaken;
    if RawCostSafe(q) { RawCostSafeIsExact(q); }
    if q.start == q.goal {
      EmptyWalkIsBest(q);
      res, costOverflow := Resolved([], 0, 0), false;
      PickedIsAnswer(q, res);
      AnswerExact(q, res);
      return;
    }
    var goalPaths, overflow := Search(q);
    costOverflow := overflow;
    if costOverflow && TotalsFit(q) {
      var v :| TooCostly(q, v);
      TotalsFitKeepsTotalsInRange(q, v);
    }
    res := Conclude(q, goalPaths, overflow);
    CollectedAnswers(q, goalPaths, overflow, res);
    AnswerExact(q, res);
  }

  /** After a "no path" answer every chain of registered adapters from start to goal that the
      policy lets through has too many hops. */
  lemma NoPathInFields(q: Query, path: seq<Adapter>)
    requires forall w :: !GoalWalk(q, w)
    requires forall i :: 0 <= i < |path| ==>
      && path[i].id in q.registry && q.registry[path[i].id] == path[i]
      && path[i].id !in q.policy.forbidden
      && (path[i].lossy ==> q.policy.allowLossy)
      && (path[i].stateful ==> q.policy.allowStateful)
      && (path[i].supervised ==> q.policy.allowSupervised)
    requires if path == [] then q.start == q.goal else path[0].source == q.start && path[|path| - 1].target == q.goal
    requires forall i :: 0 <= i && i + 1 < |path| ==> path[i].target == path[i + 1].source
    ensures q.policy.maxHops.Some? && |path| > q.policy.maxHops.value
  {
    RouteIsWalk(q, path, Ids(path), q.start, q.goal);
    assert !GoalWalk(q, Ids(path));
  }

  lemma DeliveredInFields(q: Query, res: PathResolution)
    requires Sound(q, res) && RegistryOk(q.registry)
    ensures res.Resolved? ==> forall a :: a in res.adapters ==>
      && a.id in q.registry && q.registry[a.id] == a
      && a.id !in q.policy.forbidden
      && (a.lossy ==> q.policy.allowLossy)
      && (a.stateful ==> q.policy.allowStateful)
      && (a.supervised ==> q.policy.allowSupervised)
    ensures res.Resolved? && res.adapters == [] ==> q.start == q.goal
    ensures res.Resolved? && res.adapters != [] ==>
      res.adapters[0].source == q.start && res.adapters[|res.adapters| - 1].target == q.goal
    ensures res.Resolved? ==> forall i :: 0 <= i && i + 1 < |res.adapters| ==>
      res.adapters[i].target == res.adapters[i + 1].source
    ensures res.Resolved? && q.policy.maxHops.Some? ==> |res.adapters| <= q.policy.maxHops.value
  {
    hide Overtaken, Walk, Score, RawCost, ValidAdapter, Offers, Eligible;
    if res.Resolved? {
      WalkIsRoute(q, res.adapters, Ids(res.adapters), q.start, q.goal);
      forall i | 0 <= i < |res.adapters|
        ensures res.adapters[i].id in q.registry && q.registry[res.adapters[i].id] == res.adapters[i]
      {
        assert Usable(q, Ids(res.adapters)[i]);
      }
    }
  }

  /** Every adapter on an offered path is one the policy lets through. */
  lemma OfferedInFields(q: Query, paths: seq<seq<string>>, choices: seq<string>, i: nat, id: string)
    requires Offers(q, paths, choices) && RegistryOk(q.registry) && i < |paths| && id in paths[i]
    ensures id in q.registry && id !in q.policy.forbidden
    ensures q.registry[id].lossy ==> q.policy.allowLossy
    ensures q.registry[id].stateful ==> q.policy.allowStateful
    ensures q.registry[id].supervised ==> q.policy.allowSupervised
  {
    hide Overtaken, Walk;
    WalkUsable(q, q.start, paths[i], q.goal);
    assert Usable(q, id);
  }

  /** What is delivered costs what its adapters cost, and scores what they score. */
  lemma DeliveredTotals(q: Query, res: PathResolution, costs: seq<int>, scores: seq<int>)
    requires Sound(q, res) && RegistryOk(q.registry) && res.Resolved?
    requires |costs| == |res.adapters| + 1 && costs[0] == 0 && |scores| == |res.adapters| + 1 && scores[0] == 0
    requires forall i :: 0 <= i < |res.adapters| ==> costs[i + 1] == costs[i] + res.adapters[i].cost
    requires forall i :: 0 <= i < |res.adapters| ==>
      scores[i + 1] == scores[i]
        + (if res.adapters[i].cost == 0 then 1 else res.adapters[i].cost)
        + (if res.adapters[i].lossy then 1_000_000 else 0)
        + (if res.adapters[i].stateful then 100_000 else 0)
        + (if res.adapters[i].supervised then 100_000 else 0)
        - (if res.adapters[i].id in q.policy.preferred then 1 else 0)
    ensures res.totalCost == costs[|res.adapters|] && res.effectiveScore == scores[|res.adapters|]
  {
    var ids, n := Ids(res.adapters), |res.adapters|;
    DeliveredInFields(q, res);
    hide RegistryOk, Overtaken, Walk, Score, RawCost, Collectable;
    RunningTotals(q, res.adapters, ids, costs, scores, n);
    assert ids[..n] == ids;
  }

  /** No chain that the policy lets through, within the budget, has a smaller score, nor fewer
      hops at the same score. */
  lemma NoRouteBeats(q: Query, res: PathResolution, path: seq<Adapter>, costs: seq<int>, scores: seq<int>)
    requires IsAnswer(q, res) && res.Resolved?
    requires forall i :: 0 <= i < |path| ==>
      && path[i].id in q.registry && q.registry[path[i].id] == path[i]
      && path[i].id !in q.policy.forbidden
      && (path[i].lossy ==> q.policy.allowLossy)
      && (path[i].stateful ==> q.policy.allowStateful)
      && (path[i].supervised ==> q.policy.allowSupervised)
    requires if path == [] then q.start == q.goal else path[0].source == q.start && path[|path| - 1].target == q.goal
    requires forall i :: 0 <= i && i + 1 < |path| ==> path[i].target == path[i + 1].source
    requires q.policy.maxHops.Some? ==> |path| <= q.policy.maxHops.value
    requires |costs| == |path| + 1 && costs[0] == 0 && |scores| == |path| + 1 && scores[0] == 0
    requires forall i :: 0 <= i < |path| ==> costs[i + 1] == costs[i] + path[i].cost
    requires forall i :: 0 <= i < |path| ==>
      scores[i + 1] == scores[i]
        + (if path[i].cost == 0 then 1 else path[i].cost)
        + (if path[i].lossy then 1_000_000 else 0)
        + (if path[i].stateful then 100_000 else 0)
        + (if path[i].supervised then 100_000 else 0)
        - (if path[i].id in q.policy.preferred then 1 else 0)
    ensures res.effectiveScore < scores[|path|]
         || (res.effectiveScore == scores[|path|] && |res.adapters| <= |path|)
  {
    var ids := Ids(path);
    RouteIsWalk(q, path, ids, q.start, q.goal);
    RunningTotals(q, path, ids, costs, scores, |path|);
    assert ids[..|path|] == ids;
    assert NoWorse(q, Ids(res.adapters), ids);
  }

  /** Of chains with the delivered score and hops the delivered one has the least ids, and it is the
      only one if the policy wants the user to choose. */
  lemma TiesByName(q: Query, res: PathResolution, path: seq<Adapter>)
    requires IsAnswer(q, res) && res.Resolved?
    requires forall i :: 0 <= i < |path| ==>
      && path[i].id in q.registry && q.registry[path[i].id] == path[i]
      && path[i].id !in q.policy.forbidden
      && (path[i].lossy ==> q.policy.allowLossy)
      && (path[i].stateful ==> q.policy.allowStateful)
      && (path[i].supervised ==> q.policy.allowSupervised)
    requires if path == [] then q.start == q.goal else path[0].source == q.start && path[|path| - 1].target == q.goal
    requires forall i :: 0 <= i && i + 1 < |path| ==> path[i].target == path[i + 1].source
    requires Score(q, Ids(path)) == res.effectiveScore && |path| == |res.adapters| && path != res.adapters
    ensures !q.policy.requireUserChoice
    ensures exists i ::
      && 0 <= i < |path|
      && (forall k :: 0 <= k < i ==> res.adapters[k].id == path[k].id)
      && StringLess(res.adapters[i].id, path[i].id)
  {
    hide Walk, Score, StringLess, PathLess, IsAnswer;
    var ids, delivered := Ids(path), Ids(res.adapters);
    RouteIsWalk(q, path, ids, q.start, q.goal);
    DeliveredDescribed(q, res);
    if ids == delivered { SameRoute(q, res, path); }
    TiePicked(q, res, ids);
    FirstOtherId(res.adapters, path);
  }

  lemma FirstOtherId(a: seq<Adapter>, b: seq<Adapter>)
    requires |a| == |b| && PathLess(Ids(a), Ids(b))
    ensures exists i ::
      && 0 <= i < |b|
      && (forall k :: 0 <= k < i ==> a[k].id == b[k].id)
      && StringLess(a[i].id, b[i].id)
  {
    hide StringLess, PathLess;
    PathLessMeans(Ids(a), Ids(b));
    var i :| 0 <= i < |b| && Ids(a)[..i] == Ids(b)[..i] && StringLess(Ids(a)[i], Ids(b)[i]);
    assert forall k :: 0 <= k < i ==> Ids(a)[..i][k] == a[k].id && Ids(b)[..i][k] == b[k].id;
  }

  lemma DeliveredDescribed(q: Query, res: PathResolution)
    requires IsAnswer(q, res) && res.Resolved?
    ensures Describes(q, Ids(res.adapters), res) && Best(q, Ids(res.adapters))
  {
    hide Describes, Best;
  }

  lemma TiePicked(q: Query, res: PathResolution, ids: seq<string>)
    requires IsAnswer(q, res) && res.Resolved? && GoalWalk(q, ids) && ids != Ids(res.adapters)
    requires Score(q, ids) == res.effectiveScore && |ids| == |res.adapters|
    ensures !q.policy.requireUserChoice && PathLess(Ids(res.adapters), ids)
  {
    hide GoalWalk, Score, RawCost, PathLess;
    DeliveredDescribed(q, res);
    BestAlike(q, Ids(res.adapters), ids);
    assert ids in BestWalks(q);
  }

  lemma BestAlike(q: Query, v: seq<string>, w: seq<string>)
    requires Best(q, v) && GoalWalk(q, w) && Score(q, w) == Score(q, v) && |w| == |v|
    ensures Best(q, w)
  {
    hide GoalWalk, Score;
    forall u | GoalWalk(q, u)
      ensures NoWorse(q, w, u)
    {
      assert NoWorse(q, v, u);
    }
  }

  lemma SameRoute(q: Query, res: PathResolution, path: seq<Adapter>)
    requires res.Resolved? && Describes(q, Ids(res.adapters), res)
    requires Ids(path) == Ids(res.adapters)
    requires forall i :: 0 <= i < |path| ==> path[i].id in q.registry && q.registry[path[i].id] == path[i]
    ensures path == res.adapters
  {
    assert |path| == |Ids(path)| == |res.adapters|;
    forall i | 0 <= i < |path|
      ensures path[i] == res.adapters[i]
    {
      assert Ids(path)[i] == path[i].id;
    }
  }

  lemma PickedIsAnswer(q: Query, res: PathResolution)
    requires Picks(q, BestWalks(q), res)
    ensures IsAnswer(q, res)
  {}

  /** What the verdict on the collected paths means for the best walks. */
  lemma CollectedAnswers(q: Query, goalPaths: seq<seq<string>>, costOverflow: bool, res: PathResolution)
    requires Concluded(q, goalPaths, costOverflow, res)
    requires forall g :: g in goalPaths ==> Collectable(q, g)
    requires !costOverflow ==> forall w :: w in goalPaths <==> Minimal(q, w)
    requires (exists w :: Finite(q, w)) ==> forall w :: w in goalPaths <==> Finite(q, w)
    ensures (exists w :: Finite(q, w)) ==> Picks(q, FiniteWalks(q), res)
    ensures (forall w :: !Best(q, w)) || !costOverflow ==> IsAnswer(q, res)
    ensures res.Unresolved? && res.code == NoPath ==> !costOverflow && forall w :: !GoalWalk(q, w)
  {
    hide Overtaken, Minimal, Describes, Offers;
    var collected := Elements(goalPaths);
    if w :| Finite(q, w) {
      assert w in goalPaths && collected == FiniteWalks(q);
    }
    if !costOverflow && goalPaths != [] {
      assert forall w :: w in goalPaths <==> Best(q, w);
      assert collected == BestWalks(q);
      PickedIsAnswer(q, res);
    }
    if goalPaths != [] && forall w :: !Best(q, w) {
      assert goalPaths[0] in goalPaths;
      NothingUnlessBest(q, goalPaths[0]);
    }
    if goalPaths == [] && ((forall w :: !Best(q, w)) || !costOverflow) {
      NothingFound(q, costOverflow);
    }
  }

  lemma NothingUnlessBest(q: Query, g: seq<string>)
    requires GoalPathOk(q, g)
    ensures exists w :: Best(q, w)
  {
    var best := MinimalExists(q, g);
    assert NoWorse(q, best, g) && Best(q, best);
  }

  /** The answer to a set of collected paths. */
  ghost predicate Concluded(q: Query, goalPaths: seq<seq<string>>, costOverflow: bool, res: PathResolution) {
    if goalPaths == [] then res == Unresolved(if costOverflow then CostOverflow else NoPath, [], false)
    else Picks(q, Elements(goalPaths), res)
  }

  /** The second half of `find_path`: from the collected goal paths to the answer. */
  method Conclude(q: Query, goalPaths: seq<seq<string>>, costOverflow: bool) returns (res: PathResolution)
    requires RegistryOk(q.registry) && forall g :: g in goalPaths ==> Collectable(q, g)
    ensures Sound(q, res)
    ensures Concluded(q, goalPaths, costOverflow, res)
    ensures res.Unresolved? && res.code == CostOverflow ==> costOverflow
    ensures res.Unresolved? && res.code == NoPath ==> !costOverflow && goalPaths == []
  {
    if goalPaths == [] {
      return Unresolved(if costOverflow then CostOverflow else NoPath, [], false);
    }
    PathOrder();
    var sorted := SortDedup(PathLess, goalPaths);
    assert goalPaths[0] in sorted;
    assert forall i :: 0 <= i < |sorted| ==> sorted[i] in sorted && Collectable(q, sorted[i]);
    if |sorted| > 1 && q.policy.requireUserChoice {
      res := Unresolved(AmbiguousPath, JoinAll(sorted), true);
      assert Offers(q, sorted, res.choices);
      return;
    }
    res := Materialize(q, sorted[0]);
    ChosenIsLeast(q, Elements(goalPaths), sorted, res);
  }

  function CheckedAdd(sum: Option<U64>, x: nat): Option<U64> {
    if sum.Some? && sum.value + x <= U64_MAX then Some(sum.value + x) else None
  }

  lemma PrefixTotals(q: Query, ids: seq<string>, i: nat)
    requires i < |ids| && Usable(q, ids[i])
    ensures Score(q, ids[..i + 1]) == Score(q, ids[..i]) + AdapterScore(q.registry[ids[i]], q.policy) <= Score(q, ids)
    ensures RawCost(q, ids[..i + 1]) == RawCost(q, ids[..i]) + q.registry[ids[i]].cost <= RawCost(q, ids)
  {
    TotalsAdd(q, ids[..i + 1], ids[i + 1..]);
    assert ids == ids[..i + 1] + ids[i + 1..];
    assert ids[..i + 1][..i] == ids[..i];
  }

  /** The two closing `try_fold`s over the selected adapters. */
  method CheckedTotals(q: Query, ids: seq<string>, chosen: seq<Adapter>)
    returns (totalCost: Option<U64>, effectiveScore: Option<U64>)
    requires AllUsable(q, ids) && |chosen| == |ids|
    requires forall i :: 0 <= i < |ids| ==> chosen[i] == q.registry[ids[i]]
    requires Score(q, ids) <= U64_MAX && RawCost(q, ids) <= U64_MAX
    ensures totalCost == Some(RawCost(q, ids)) && effectiveScore == Some(Score(q, ids))
  {
    totalCost, effectiveScore := Some(0), Some(0);
    for i := 0 to |chosen|
      invariant totalCost == Some(RawCost(q, ids[..i])) && effectiveScore == Some(Score(q, ids[..i]))
    {
      PrefixTotals(q, ids, i);
      totalCost := CheckedAdd(totalCost, chosen[i].cost);
      effectiveScore := CheckedAdd(effectiveScore, AdapterScore(chosen[i], q.policy));
    }
    assert ids[..|ids|] == ids;
  }

  /** Looks up the selected ids and totals them. The last overflow exit is never taken. */
  method Materialize(q: Query, adapterIds: seq<string>) returns (res: PathResolution)
    requires RegistryOk(q.registry) && GoalPathOk(q, adapterIds)
    ensures res.Resolved? && Ids(res.adapters) == adapterIds && Describes(q, adapterIds, res)
  {
    WalkUsable(q, q.start, adapterIds, q.goal);
    var chosen := seq(|adapterIds|, i requires 0 <= i < |adapterIds| => q.registry[adapterIds[i]]);
    assert Ids(chosen) == adapterIds;
    var totalCost, effectiveScore := CheckedTotals(q, adapterIds, chosen);
    if totalCost.None? || effectiveScore.None? {
      res := Unresolved(CostOverflow, [], false);
    } else {
      res := Resolved(chosen, totalCost.value, effectiveScore.value);
    }
  }

  // ----- one question, one answer -----

  /** Among the same walks there is one verdict. */
  lemma PickUnique(q: Query, among: iset<seq<string>>, r1: PathResolution, r2: PathResolution)
    requires Picks(q, among, r1) && Picks(q, among, r2)
    ensures r1 == r2
  {
    PathOrder();
    if r1.Resolved? && r2.Resolved? {
      assert Ids(r1.adapters) == Ids(r2.adapters);
      assert r1.adapters == r2.adapters;
    } else if r1.Resolved? {
      AmbiguityIsReal(q, among, r2, Ids(r1.adapters));
    } else if r2.Resolved? {
      AmbiguityIsReal(q, among, r1, Ids(r2.adapters));
    } else {
      var p1 :| Offers(q, p1, r1.choices) && forall w :: w in p1 <==> w in among;
      var p2 :| Offers(q, p2, r2.choices) && forall w :: w in p2 <==> w in among;
      AscendingUnique(PathLess, p1, p2);
    }
  }

  /** An answer is determined by the registered adapters, the policy and the end points:
      neither registration order nor the queue's tie-breaks can show. Only whether a
      search without result is labelled "no path" or "cost overflow" is left open. */
  lemma AnswerUnique(q: Query, r1: PathResolution, r2: PathResolution)
    requires IsAnswer(q, r1) && IsAnswer(q, r2)
    ensures r1 == r2 || (r1.Unresolved? && r2.Unresolved? && {r1.code, r2.code} == {NoPath, CostOverflow})
  {
    hide Picks, Minimal;
    var picked1 := r1.Resolved? || r1.code == AmbiguousPath;
    var picked2 := r2.Resolved? || r2.code == AmbiguousPath;
    if picked1 && picked2 {
      PickUnique(q, BestWalks(q), r1, r2);
    } else if picked1 {
      PickedAmongSome(q, BestWalks(q), r1);
      var w :| w in BestWalks(q);
      BestIsGoalWalk(q, w);
    } else if picked2 {
      PickedAmongSome(q, BestWalks(q), r2);
      var w :| w in BestWalks(q);
      BestIsGoalWalk(q, w);
    }
  }

  lemma BestIsGoalWalk(q: Query, w: seq<string>)
    requires Best(q, w)
    ensures GoalWalk(q, w) && Score(q, w) <= U64_MAX
  {}

  lemma PickedAmongSome(q: Query, among: iset<seq<string>>, r: PathResolution)
    requires Picks(q, among, r)
    ensures exists w :: w in among
  {
    if r.Resolved? {
      assert Ids(r.adapters) in among;
    } else {
      AmbiguityIsReal(q, among, r, []);
    }
  }

  /** "Ambiguous" is the verdict exactly when two different best walks exist and the policy
      wants the user to choose; a path is delivered exactly when a best walk exists otherwise. */
  lemma VerdictExact(q: Query, r: PathResolution)
    requires IsAnswer(q, r)
    ensures r.Unresolved? && r.code == AmbiguousPath <==>
      q.policy.requireUserChoice && exists v, w :: Best(q, v) && Best(q, w) && v != w
    ensures r.Resolved? <==>
      (exists w :: Best(q, w)) && !(r.Unresolved? && r.code == AmbiguousPath)
  {
    assert forall w :: Best(q, w) ==> w in BestWalks(q);
    if r.Unresolved? && r.code == AmbiguousPath {
      AmbiguityIsReal(q, BestWalks(q), r, []);
      var v :| v in BestWalks(q) && v != [];
      AmbiguityIsReal(q, BestWalks(q), r, v);
    }
  }

  /** An ambiguity verdict means a second walk besides any given one. */
  lemma AmbiguityIsReal(q: Query, among: iset<seq<string>>, r: PathResolution, w: seq<string>)
    requires Picks(q, among, r) && r.Unresolved?
    ensures exists v :: v in among && v != w
  {
    var p :| Offers(q, p, r.choices) && forall v :: v in p <==> v in among;
    PathOrder();
    assert p[0] in p && p[1] in p && PathLess(p[0], p[1]);
  }

  /** Registries built from the same adapters in any order are the same registry. */
  lemma RegistrationOrderIrrelevant(m1: map<string, Adapter>, m2: map<string, Adapter>, s1: seq<Adapter>,
                                    s2: seq<Adapter>)
    requires Registers(m1, s1) && Registers(m2, s2) && multiset(s1) == multiset(s2)
    ensures m1 == m2
  {
    assert forall a :: a in s1 <==> a in multiset(s1);
    assert forall a :: a in s2 <==> a in multiset(s2);
    forall id | id in m1
      ensures id in m2 && m2[id] == m1[id]
    {
      assert m1[id] in s2;
    }
    forall id | id in m2
      ensures id in m1
    {
      assert m2[id] in s1;
    }
  }

  // ----- choice lines tell the paths apart -----

  ghost predicate PlainName(s: string) {
    s != "" && forall i :: 0 <= i < |s| ==> s[i] != ' '
  }

  lemma {:induction false} JoinInjective(a: seq<string>, b: seq<string>)
    requires (forall i :: 0 <= i < |a| ==> PlainName(a[i])) && (forall i :: 0 <= i < |b| ==> PlainName(b[i]))
    requires Join(a) == Join(b)
    ensures a == b
  {
    if a != [] {
      var ta := if |a| == 1 then "" else " -> " + Join(a[1..]);
      var tb := if |b| == 1 then "" else " -> " + Join(b[1..]);
      assert Join(a) == a[0] + ta && Join(b) == b[0] + tb;
      FirstWord(a[0], ta, b[0], tb);
      assert |a| == 1 <==> |b| == 1;
      if |a| > 1 {
        assert ta[4..] == Join(a[1..]) && tb[4..] == Join(b[1..]);
        JoinInjective(a[1..], b[1..]);
        assert a == [a[0]] + a[1..] && b == [b[0]] + b[1..];
      }
    }
  }

  /** A choice line names the adapters in their order, with an arrow between any two. */
  lemma {:induction false} JoinSnoc(path: seq<string>, id: string)
    ensures Join(path + [id]) == if path == [] then id else Join(path) + " -> " + id
  {
    if path == [] {
      assert [] + [id] == [id];
    } else {
      JoinSnoc(path[1..], id);
      assert (path + [id])[1..] == path[1..] + [id];
    }
  }

  lemma FirstWord(u: string, x: string, v: string, y: string)
    requires PlainName(u) && PlainName(v) && u + x == v + y
    requires (x == "" || x[0] == ' ') && (y == "" || y[0] == ' ')
    ensures u == v && x == y
  {
    var t := u + x;
    assert (forall i :: 0 <= i < |u| ==> t[i] == u[i]) && (|u| < |t| ==> t[|u|] == x[0]);
    assert (forall i :: 0 <= i < |v| ==> t[i] == v[i]) && (|v| < |t| ==> t[|v|] == y[0]);
    assert u == (u + x)[..|u|] && v == (v + y)[..|v|];
    assert x == (u + x)[|u|..] && y == (v + y)[|v|..];
  }

  /** The choices of an ambiguous answer are as many different lines as there are best walks. */
  lemma ChoicesDiffer(q: Query, paths: seq<seq<string>>, choices: seq<string>, i: nat, j: nat)
    requires RegistryOk(q.registry) && Offers(q, paths, choices) && i < j < |paths|
    ensures choices[i] != choices[j]
  {
    PathOrder();
    WalkUsable(q, q.start, paths[i], q.goal);
    WalkUsable(q, q.start, paths[j], q.goal);
    if choices[i] == choices[j] {
      JoinInjective(paths[i], paths[j]);
    }
  }
}
