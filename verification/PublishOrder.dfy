/** The publish order of the workspace crates
    (scripts/release/publish_crates.py). */
module PublishOrder {
  import opened Ordering
  import opened Sequences
  import opened Wrappers

  datatype Crate = Crate(name: string, internalDeps: seq<string>)

  type Workspace = map<string, Crate>

  function Deps(c: Crate): set<string> { set d | d in c.internalDeps }

  /** The dict the script builds: by name, a later crate replacing an earlier one. */
  function ByName(crates: seq<Crate>): Workspace {
    if crates == [] then map[]
    else ByName(crates[..|crates| - 1])[crates[|crates| - 1].name := crates[|crates| - 1]]
  }

  lemma {:induction false} ByNameKeys(crates: seq<Crate>)
    ensures forall n :: n in ByName(crates) ==> ByName(crates)[n].name == n && ByName(crates)[n] in crates
    ensures forall c :: c in crates ==> c.name in ByName(crates)
  {
    if crates != [] {
      ByNameKeys(crates[..|crates| - 1]);
      assert crates == crates[..|crates| - 1] + [crates[|crates| - 1]];
    }
  }

  // ----- dependency chains -----

  ghost predicate Closed(w: Workspace) {
    forall n, d :: n in w && d in Deps(w[n]) ==> d in w
  }

  ghost predicate Link(w: Workspace, p: seq<string>, i: nat) {
    i + 1 < |p| && p[i] in w && p[i + 1] in Deps(w[p[i]])
  }

  /** Each crate of the chain depends on the next. */
  ghost predicate Chain(w: Workspace, p: seq<string>) {
    && p != []
    && (forall i :: 0 <= i < |p| ==> p[i] in w)
    && (forall i :: 0 <= i < |p| - 1 ==> Link(w, p, i))
  }

  /** A dependency in front of a chain makes a longer chain. */
  lemma ChainPrepend(w: Workspace, n: string, p: seq<string>)
    requires n in w && Chain(w, p) && p[0] in Deps(w[n])
    ensures ChainFrom(w, n, [n] + p)
  {
    var q := [n] + p;
    forall i | 0 <= i < |q| - 1
      ensures Link(w, q, i)
    {
      if i > 0 { assert Link(w, p, i - 1); }
    }
  }

  lemma ChainSlice(w: Workspace, p: seq<string>, i: nat, j: nat)
    requires Chain(w, p) && i < j <= |p|
    ensures Chain(w, p[i..j])
  {
    var c := p[i..j];
    forall k | 0 <= k < |c| - 1
      ensures Link(w, c, k)
    {
      assert Link(w, p, i + k);
    }
  }

  ghost predicate ChainFrom(w: Workspace, n: string, p: seq<string>) {
    Chain(w, p) && p[0] == n
  }

  ghost predicate Cycle(w: Workspace, p: seq<string>) {
    Chain(w, p) && |p| >= 2 && p[0] == p[|p| - 1]
  }

  ghost predicate Cyclic(w: Workspace) {
    exists p :: Cycle(w, p)
  }

  /** The longest chain that starts at `n` has `depth` links. */
  ghost predicate LongestChain(w: Workspace, n: string, depth: nat) {
    && (exists p :: ChainFrom(w, n, p) && |p| == depth + 1)
    && (forall p :: ChainFrom(w, n, p) ==> |p| <= depth + 1)
  }

  // ----- rounds -----

  /** The names published after `k` rounds. */
  ghost function Done(w: Workspace, k: nat): set<string> {
    if k == 0 then {}
    else Done(w, k - 1) + set n | n in w && Deps(w[n]) <= Done(w, k - 1)
  }

  lemma DoneMember(w: Workspace, k: nat, n: string)
    requires n in w
    ensures n in Done(w, k + 1) <==> n in Done(w, k) || Deps(w[n]) <= Done(w, k)
  {}

  lemma {:induction false} DoneInside(w: Workspace, k: nat)
    ensures Done(w, k) <= w.Keys
  {
    if k > 0 { DoneInside(w, k - 1); }
  }

  lemma {:induction false} DoneGrows(w: Workspace, j: nat, k: nat)
    requires j <= k
    ensures Done(w, j) <= Done(w, k)
    decreases k
  {
    if j < k { DoneGrows(w, j, k - 1); }
  }

  /** A crate published within `k` rounds has all its dependencies published a round earlier. */
  lemma {:induction false} DepsDoneBefore(w: Workspace, k: nat, n: string)
    requires n in Done(w, k + 1)
    ensures n in w && Deps(w[n]) <= Done(w, k)
  {
    DoneInside(w, k + 1);
    if n in Done(w, k) {
      assert k > 0;
      DepsDoneBefore(w, k - 1, n);
      DoneGrows(w, k - 1, k);
    }
  }

  lemma {:induction false} ChainsBounded(w: Workspace, k: nat, n: string, p: seq<string>)
    requires n in Done(w, k) && ChainFrom(w, n, p)
    ensures |p| <= k
    decreases k
  {
    assert k > 0;
    DepsDoneBefore(w, k - 1, n);
    if |p| > 1 {
      assert Link(w, p, 0);
      ChainSlice(w, p, 1, |p|);
      assert p[1..|p|] == p[1..];
      ChainsBounded(w, k - 1, p[1], p[1..]);
    }
  }

  /** A crate not published after `k` rounds starts a chain of `k` links. */
  lemma {:induction false} LongChainExists(w: Workspace, k: nat, n: string) returns (p: seq<string>)
    requires Closed(w) && n in w && n !in Done(w, k)
    ensures ChainFrom(w, n, p) && |p| == k + 1
    decreases k
  {
    if k == 0 {
      p := [n];
    } else {
      DoneMember(w, k - 1, n);
      var d :| d in Deps(w[n]) && d !in Done(w, k - 1);
      var rest := LongChainExists(w, k - 1, d);
      p := [n] + rest;
      ChainPrepend(w, n, rest);
    }
  }

  /** The round in which a crate is published is its longest dependency chain. */
  lemma RoundIsLongestChain(w: Workspace, k: nat, n: string)
    requires Closed(w) && n in w && n in Done(w, k + 1) && n !in Done(w, k)
    ensures LongestChain(w, n, k)
  {
    var p := LongChainExists(w, k, n);
    forall q | ChainFrom(w, n, q)
      ensures |q| <= k + 1
    {
      ChainsBounded(w, k + 1, n, q);
    }
  }

  // ----- cycles -----

  /** A chain longer than the workspace has crates runs in a circle. */
  lemma LongChainCycles(w: Workspace, p: seq<string>)
    requires Chain(w, p) && |p| > |w|
    ensures Cyclic(w)
  {
    assert |w.Keys| == |w|;
    if Distinct(p) {
      DistinctFitsIn(p, w.Keys);
    }
    var i, j :| 0 <= i < j < |p| && p[i] == p[j];
    ChainSlice(w, p, i, j + 1);
    assert Cycle(w, p[i..j + 1]);
  }

  /** No crate on a cycle is ever published. */
  lemma {:induction false} CycleNeverDone(w: Workspace, c: seq<string>, k: nat, i: nat)
    requires Cycle(w, c) && i < |c|
    ensures c[i] !in Done(w, k)
    decreases k
  {
    if c[i] in Done(w, k) {
      assert k > 0;
      DepsDoneBefore(w, k - 1, c[i]);
      var at := if i == |c| - 1 then 0 else i;
      assert Link(w, c, at);
      CycleNeverDone(w, c, k - 1, at + 1);
    }
  }

  /** A round that publishes nothing while crates remain means a cycle or an unknown dependency. */
  lemma StuckMeansCycle(w: Workspace, k: nat, n: string)
    requires Done(w, k + 1) == Done(w, k) && n in w && n !in Done(w, k)
    ensures !Closed(w) || Cyclic(w)
  {
    hide Chain, Cyclic, Done, Link;
    if Closed(w) {
      StuckForever(w, k, k + |w|);
      DoneGrows(w, k, k + |w|);
      var p := LongChainExists(w, k + |w|, n);
      LongChainCycles(w, p);
    }
  }

  lemma {:induction false} StuckForever(w: Workspace, k: nat, m: nat)
    requires Done(w, k + 1) == Done(w, k) && k <= m
    ensures Done(w, m) == Done(w, k)
    decreases m
  {
    if k < m {
      StuckForever(w, k, m - 1);
    }
  }

  /** If every crate is published, dependencies are closed and there is no cycle. */
  lemma AllDoneMeansAcyclic(w: Workspace, k: nat)
    requires Done(w, k) == w.Keys
    ensures Closed(w) && !Cyclic(w)
  {
    forall n, d | n in w && d in Deps(w[n])
      ensures d in w
    {
      assert k > 0;
      DepsDoneBefore(w, k - 1, n);
      DoneInside(w, k - 1);
    }
    if c :| Cycle(w, c) {
      CycleNeverDone(w, c, k, 0);
    }
  }

  // ----- the order of the plan -----

  /** `a` comes before `b`: by longest chain, then by name. */
  ghost predicate Before(w: Workspace, a: string, b: string) {
    exists i, j :: LongestChain(w, a, i) && LongestChain(w, b, j) && (i < j || (i == j && StringLess(a, b)))
  }

  /** Every crate stands under its own name, as in the script's dict. */
  ghost predicate Named(w: Workspace) {
    forall n :: n in w ==> w[n].name == n
  }

  ghost predicate IsPublishPlan(w: Workspace, plan: seq<Crate>) {
    && (forall i :: 0 <= i < |plan| ==> plan[i].name in w && plan[i] == w[plan[i].name])
    && (forall n :: n in w ==> w[n] in plan)
    && (forall i, j :: 0 <= i < j < |plan| ==> Before(w, plan[i].name, plan[j].name))
  }

  lemma DependencyShorter(w: Workspace, n: string, d: string, x: nat, y: nat)
    requires n in w && d in Deps(w[n]) && LongestChain(w, n, x) && LongestChain(w, d, y)
    ensures y < x
  {
    var p :| ChainFrom(w, d, p) && |p| == y + 1;
    ChainPrepend(w, n, p);
    assert ChainFrom(w, n, [n] + p);
  }

  lemma DepthUnique(w: Workspace, n: string, x: nat, y: nat)
    requires LongestChain(w, n, x) && LongestChain(w, n, y)
    ensures x == y
  {}

  lemma BeforeDecided(w: Workspace, a: string, b: string, x: nat, y: nat)
    requires LongestChain(w, a, x) && LongestChain(w, b, y)
    ensures Before(w, a, b) <==> x < y || (x == y && StringLess(a, b))
  {
    hide StringLess, LongestChain;
    forall i, j | LongestChain(w, a, i) && LongestChain(w, b, j)
      ensures i == x && j == y
    {
      DepthUnique(w, a, i, x);
      DepthUnique(w, b, j, y);
    }
  }

  lemma BeforeAsymmetric(w: Workspace, a: string, b: string)
    requires Before(w, a, b)
    ensures !Before(w, b, a)
  {
    hide StringLess, LongestChain;
    StringOrder();
    var x, y :| LongestChain(w, a, x) && LongestChain(w, b, y);
    BeforeDecided(w, a, b, x, y);
    BeforeDecided(w, b, a, y, x);
  }

  /** In a plan every dependency comes earlier. */
  lemma DependenciesFirst(w: Workspace, plan: seq<Crate>, i: nat, d: string)
    requires Named(w) && Closed(w) && !Cyclic(w) && IsPublishPlan(w, plan)
    requires i < |plan| && d in plan[i].internalDeps
    ensures exists j :: 0 <= j < i && plan[j].name == d
  {
    var n := plan[i].name;
    assert d in Deps(w[n]) && d in w && w[d] in plan;
    var j :| 0 <= j < |plan| && plan[j] == w[d];
    if j == i {
      assert Link(w, [n, n], 0) && Cycle(w, [n, n]);
    } else if i < j {
      var x, y :| LongestChain(w, n, x) && LongestChain(w, d, y) && (x < y || (x == y && StringLess(n, d)));
      DependencyShorter(w, n, d, x, y);
    }
  }

  /** The plan is a permutation of the workspace: every crate once. */
  lemma PlanIsPermutation(w: Workspace, plan: seq<Crate>)
    requires Named(w) && IsPublishPlan(w, plan)
    ensures Distinct(plan) && |plan| == |w|
    ensures forall c :: c in plan <==> c.name in w && w[c.name] == c
  {
    forall i, j | 0 <= i < j < |plan|
      ensures plan[i] != plan[j]
    {
      BeforeAsymmetric(w, plan[i].name, plan[j].name);
    }
    var names := seq(|plan|, i requires 0 <= i < |plan| => plan[i].name);
    assert Distinct(names);
    DistinctFitsIn(names, w.Keys);
    forall n | n in w
      ensures n in names
    {
      var j :| 0 <= j < |plan| && plan[j] == w[n];
      assert names[j] == n;
    }
    SetFitsIn(w.Keys, names);
  }

  /** There is only one plan, so the order of the input list cannot matter. */
  lemma PlanUnique(w: Workspace, p1: seq<Crate>, p2: seq<Crate>)
    requires Named(w) && IsPublishPlan(w, p1) && IsPublishPlan(w, p2)
    ensures p1 == p2
  {
    PlanIsPermutation(w, p1);
    PlanIsPermutation(w, p2);
    var less := (a: Crate, b: Crate) => Before(w, a.name, b.name);
    forall a: Crate, b: Crate | less(a, b)
      ensures !less(b, a)
    {
      BeforeAsymmetric(w, a.name, b.name);
    }
    AscendingUnique(less, p1, p2);
  }

  /** The dict does not depend on the order of uniquely named crates. */
  lemma InputOrderIrrelevant(c1: seq<Crate>, c2: seq<Crate>)
    requires multiset(c1) == multiset(c2)
    requires forall a, b :: a in c1 && b in c1 && a.name == b.name ==> a == b
    ensures ByName(c1) == ByName(c2)
  {
    hide ByName;
    ByNameKeys(c1);
    ByNameKeys(c2);
    assert forall c :: c in c1 <==> c in multiset(c1);
    assert forall c :: c in c2 <==> c in multiset(c2);
    forall n | n in ByName(c1)
      ensures n in ByName(c2) && ByName(c2)[n] == ByName(c1)[n]
    {
      assert ByName(c1)[n] in c2;
    }
    forall n | n in ByName(c2)
      ensures n in ByName(c1)
    {
      assert ByName(c2)[n] in c1;
    }
  }

  // ----- the code -----

  /** Where the rounds have got to: what is out is `Done`, in plan order by round and name. */
  ghost predicate RoundsOk(w: Workspace, k: nat, ordered: seq<Crate>, rounds: seq<nat>) {
    && |rounds| == |ordered|
    && (forall i :: 0 <= i < |ordered| ==>
          && ordered[i].name in w && ordered[i] == w[ordered[i].name]
          && rounds[i] < k
          && ordered[i].name in Done(w, rounds[i] + 1) && ordered[i].name !in Done(w, rounds[i]))
    && (forall i, j :: 0 <= i < j < |ordered| ==>
          rounds[i] < rounds[j] || (rounds[i] == rounds[j] && StringLess(ordered[i].name, ordered[j].name)))
  }

  ghost predicate Covers(names: set<string>, ordered: seq<Crate>) {
    forall n :: n in names ==> exists i :: 0 <= i < |ordered| && ordered[i].name == n
  }

  function CratesNamed(w: Workspace, names: seq<string>): seq<Crate>
    requires forall i :: 0 <= i < |names| ==> names[i] in w
  {
    seq(|names|, i requires 0 <= i < |names| => w[names[i]])
  }

  /** `remaining` is the part of the workspace not published yet. */
  ghost predicate Remains(w: Workspace, published: set<string>, remaining: Workspace) {
    && (forall n :: n in remaining <==> n in w && n !in published)
    && (forall n :: n in remaining ==> remaining[n] == w[n])
  }

  ghost predicate IsReady(w: Workspace, k: nat, n: string) {
    n in w && n !in Done(w, k) && Deps(w[n]) <= Done(w, k)
  }

  /** One round: the ready crates in order of name extend the plan. */
  lemma PublishRound(w: Workspace, k: nat, ready: seq<string>, ordered: seq<Crate>, rounds: seq<nat>)
    requires Named(w) && RoundsOk(w, k, ordered, rounds) && Covers(Done(w, k), ordered)
    requires StrictlyAscending(StringLess, ready)
    requires forall n :: n in ready <==> IsReady(w, k, n)
    requires forall i :: 0 <= i < |ready| ==> ready[i] in w
    ensures RoundsOk(w, k + 1, ordered + CratesNamed(w, ready), rounds + seq(|ready|, i => k))
    ensures Covers(Done(w, k + 1), ordered + CratesNamed(w, ready))
  {
    hide Done, StringLess;
    var ordered', rounds' := ordered + CratesNamed(w, ready), rounds + seq(|ready|, i => k);
    forall i | |ordered| <= i < |ordered'|
      ensures ordered'[i].name in w && ordered'[i] == w[ordered'[i].name] && rounds'[i] == k
      ensures ordered'[i].name in Done(w, k + 1) && ordered'[i].name !in Done(w, k)
    {
      var n := ready[i - |ordered|];
      assert n in ready && IsReady(w, k, n);
      DoneMember(w, k, n);
    }
    var done := Done(w, k + 1);
    forall n | n in done
      ensures exists i :: 0 <= i < |ordered'| && ordered'[i].name == n
    {
      if n in Done(w, k) {
        var i :| 0 <= i < |ordered| && ordered[i].name == n;
        assert ordered'[i].name == n;
      } else {
        DoneInside(w, k + 1);
        DoneMember(w, k, n);
        assert IsReady(w, k, n) && n in ready;
        var i :| 0 <= i < |ready| && ready[i] == n;
        assert ordered'[|ordered| + i].name == n;
      }
    }
  }

  lemma RoundsGivePlan(w: Workspace, k: nat, ordered: seq<Crate>, rounds: seq<nat>)
    requires Named(w) && Closed(w) && RoundsOk(w, k, ordered, rounds) && Covers(w.Keys, ordered)
    ensures IsPublishPlan(w, ordered)
  {
    hide Done, LongestChain, Closed, StringLess;
    forall i, j | 0 <= i < j < |ordered|
      ensures Before(w, ordered[i].name, ordered[j].name)
    {
      RoundIsLongestChain(w, rounds[i], ordered[i].name);
      RoundIsLongestChain(w, rounds[j], ordered[j].name);
    }
    forall n | n in w
      ensures w[n] in ordered
    {
      var i :| 0 <= i < |ordered| && ordered[i].name == n;
      assert ordered[i] == w[n];
    }
  }

  method DictByName(crates: seq<Crate>) returns (w: Workspace)
    ensures w == ByName(crates) && Named(w)
  {
    w := map[];
    for i := 0 to |crates|
      invariant w == ByName(crates[..i])
    {
      assert crates[..i + 1][..i] == crates[..i];
      w := w[crates[i].name := crates[i]];
    }
    assert crates[..|crates|] == crates;
    ByNameKeys(crates);
  }

  function ReadySet(remaining: Workspace, published: set<string>): (names: set<string>)
    ensures forall n :: n in names <==> n in remaining && Deps(remaining[n]) <= published
  {
    set n | n in remaining && Deps(remaining[n]) <= published
  }

  lemma ReadySetIsReady(w: Workspace, k: nat, remaining: Workspace, published: set<string>, n: string)
    requires published == Done(w, k) && Remains(w, published, remaining)
    ensures n in ReadySet(remaining, published) <==> IsReady(w, k, n)
  {}

  /** The names whose dependencies are all published, sorted. */
  method ReadyNames(ghost w: Workspace, ghost k: nat, remaining: Workspace, published: set<string>)
    returns (ready: seq<string>)
    requires published == Done(w, k) && Remains(w, published, remaining)
    ensures StrictlyAscending(StringLess, ready) && forall n :: n in ready <==> IsReady(w, k, n)
    ensures forall i :: 0 <= i < |ready| ==> ready[i] in w
  {
    hide Done, StringLess, Deps, ReadySet, IsReady, Remains;
    StringOrder();
    ready := KeysInOrder(StringLess, ReadySet(remaining, published));
    forall n
      ensures n in ready <==> IsReady(w, k, n)
      ensures n in ready ==> n in w
    {
      ReadySetIsReady(w, k, remaining, published, n);
      ReadyInside(w, k, n);
    }
  }

  lemma ReadyInside(w: Workspace, k: nat, n: string)
    ensures IsReady(w, k, n) ==> n in w
  {}

  /** `topo_sort`: a plan exactly if dependencies are closed and free of cycles. */
  method TopoSort(crates: seq<Crate>) returns (r: Result<seq<Crate>>)
    ensures r.Ok? <==> Closed(ByName(crates)) && !Cyclic(ByName(crates))
    ensures r.Ok? ==> IsPublishPlan(ByName(crates), r.value)
  {
    hide Done, Closed, Cyclic, RoundsOk, Covers, IsReady, IsPublishPlan, StringLess, ByName;
    var w := DictByName(crates);
    var remaining := w;
    var ordered: seq<Crate> := [];
    var published: set<string> := {};
    ghost var k := 0;
    ghost var rounds: seq<nat> := [];
    NoRoundYet(w);
    while remaining != map[]
      invariant published == Done(w, k)
      invariant Remains(w, published, remaining)
      invariant RoundsOk(w, k, ordered, rounds) && Covers(published, ordered)
      decreases |remaining|
    {
      var ready := ReadyNames(w, k, remaining, published);
      if ready == [] {
        var n :| n in remaining;
        NothingReady(w, k, n);
        return ValidationError;
      }
      PublishRound(w, k, ready, ordered, rounds);
      RoundAdds(w, k, ready);
      ghost var published0, remaining0 := published, remaining;
      assert ready[0] in ready;
      ordered, published, remaining := EmitRound(w, ready, ordered, published, remaining);
      RemainingShrinks(w, published0, published, ready[0], remaining0, remaining);
      rounds := rounds + seq(|ready|, i => k);
      k := k + 1;
    }
    DoneInside(w, k);
    AllDoneMeansAcyclic(w, k);
    RoundsGivePlan(w, k, ordered, rounds);
    return Ok(ordered);
  }

  /** Moves the ready crates from `remaining` to the plan. */
  method EmitRound(w: Workspace, ready: seq<string>, ordered0: seq<Crate>, published0: set<string>,
                   remaining0: Workspace)
    returns (ordered: seq<Crate>, published: set<string>, remaining: Workspace)
    requires forall i :: 0 <= i < |ready| ==> ready[i] in w
    requires Remains(w, published0, remaining0)
    ensures ordered == ordered0 + CratesNamed(w, ready)
    ensures published == published0 + set n | n in ready
    ensures Remains(w, published, remaining)
  {
    ordered, published, remaining := ordered0, published0, remaining0;
    for i := 0 to |ready|
      invariant ordered == ordered0 + CratesNamed(w, ready)[..i]
      invariant published == published0 + set n | n in ready[..i]
      invariant Remains(w, published, remaining)
    {
      assert ready[..i + 1] == ready[..i] + [ready[i]];
      ordered := ordered + [w[ready[i]]];
      published := published + {ready[i]};
      remaining := remaining - {ready[i]};
    }
    assert ready[..|ready|] == ready && CratesNamed(w, ready)[..|ready|] == CratesNamed(w, ready);
  }

  lemma NoRoundYet(w: Workspace)
    ensures Done(w, 0) == {} && RoundsOk(w, 0, [], []) && Covers({}, [])
  {}

  lemma NothingReady(w: Workspace, k: nat, n: string)
    requires n in w && n !in Done(w, k) && forall m :: !IsReady(w, k, m)
    ensures !(Closed(w) && !Cyclic(w))
  {
    DoneInside(w, k + 1);
    DoneGrows(w, k, k + 1);
    forall m | m in Done(w, k + 1)
      ensures m in Done(w, k)
    {
      DoneMember(w, k, m);
      assert !IsReady(w, k, m);
    }
    StuckMeansCycle(w, k, n);
  }

  lemma RoundAdds(w: Workspace, k: nat, ready: seq<string>)
    requires forall n :: n in ready <==> IsReady(w, k, n)
    ensures Done(w, k + 1) == Done(w, k) + set n | n in ready
    ensures forall n :: n in ready ==> n in w && n !in Done(w, k)
  {
    DoneInside(w, k + 1);
    DoneGrows(w, k, k + 1);
    forall m | m in w
      ensures m in Done(w, k + 1) <==> m in Done(w, k) || m in ready
    {
      DoneMember(w, k, m);
    }
  }

  lemma RemainingShrinks(w: Workspace, before: set<string>, after: set<string>, n: string, big: Workspace,
                         small: Workspace)
    requires Remains(w, before, big) && Remains(w, after, small)
    requires before <= after && n in w && n !in before && n in after
    ensures |small| < |big|
  {
    assert small.Keys <= big.Keys - {n};
    SubsetSize(small.Keys, big.Keys - {n});
    assert |small.Keys| == |small| && |big.Keys| == |big|;
  }

  lemma {:induction false} SubsetSize<T>(a: set<T>, b: set<T>)
    requires a <= b
    ensures |a| <= |b|
  {
    if a != {} {
      var x :| x in a;
      SubsetSize(a - {x}, b - {x});
    }
  }

  // ----- chains and plans, in the fields of the crates -----

  /** A later crate replaces an earlier one of its name. */
  lemma {:induction false} LastOfItsName(crates: seq<Crate>, i: nat)
    requires i < |crates| && forall j :: i < j < |crates| ==> crates[j].name != crates[i].name
    ensures crates[i].name in ByName(crates) && ByName(crates)[crates[i].name] == crates[i]
  {
    var n := |crates| - 1;
    if i < n {
      LastOfItsName(crates[..n], i);
    }
  }

  lemma ClosedInFields(w: Workspace)
    ensures Closed(w) <==> forall n, d :: n in w && d in w[n].internalDeps ==> d in w
  {
    assert forall n, d :: n in w ==> (d in Deps(w[n]) <==> d in w[n].internalDeps);
  }

  lemma ChainInFields(w: Workspace, p: seq<string>)
    ensures Chain(w, p) <==>
      && p != []
      && (forall i :: 0 <= i < |p| ==> p[i] in w)
      && (forall i :: 0 <= i < |p| - 1 ==> p[i + 1] in w[p[i]].internalDeps)
  {
    assert forall i :: 0 <= i < |p| - 1 && p[i] in w ==> (Link(w, p, i) <==> p[i + 1] in w[p[i]].internalDeps);
  }

  /** A cycle is a chain that comes back to where it started. */
  lemma CyclicInFields(w: Workspace)
    ensures Cyclic(w) <==> exists p :: Chain(w, p) && |p| >= 2 && p[0] == p[|p| - 1]
  {
    assert forall p :: Cycle(w, p) <==> Chain(w, p) && |p| >= 2 && p[0] == p[|p| - 1];
  }

  lemma LongestInFields(w: Workspace, n: string, depth: nat)
    ensures LongestChain(w, n, depth) <==>
      && (exists p :: Chain(w, p) && p[0] == n && |p| == depth + 1)
      && (forall p :: Chain(w, p) && p[0] == n ==> |p| <= depth + 1)
  {
    assert forall p :: ChainFrom(w, n, p) <==> Chain(w, p) && p[0] == n;
  }

  /** A plan lists every crate, a shorter longest chain first, and by name where these are equal. */
  lemma PlanInFields(w: Workspace, plan: seq<Crate>, i: nat, j: nat, x: nat, y: nat)
    requires IsPublishPlan(w, plan) && i < j < |plan|
    requires LongestChain(w, plan[i].name, x) && LongestChain(w, plan[j].name, y)
    ensures x < y || (x == y && StringLess(plan[i].name, plan[j].name))
    ensures plan[i].name in w && plan[i] == w[plan[i].name]
  {
    assert Before(w, plan[i].name, plan[j].name);
    BeforeDecided(w, plan[i].name, plan[j].name, x, y);
  }
}
