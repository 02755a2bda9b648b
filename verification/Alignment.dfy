/** Sample alignment across sources
    (crates/dag-ml-data-core/src/alignment.rs). */
module Alignment {
  import opened Sequences
  import opened Wrappers

  datatype Mode = Inner | Left | Outer

  datatype SourceSamples = SourceSamples(sourceId: string, sampleIds: seq<string>)

  datatype PresenceMask = PresenceMask(sampleIds: seq<string>, sourceId: string, present: seq<bool>)

  datatype Plan = Plan(mode: Mode, sampleIds: seq<string>, masks: seq<PresenceMask>)

  // ----- inputs -----

  function SourceIds(sources: seq<SourceSamples>): seq<string> {
    seq(|sources|, k requires 0 <= k < |sources| => sources[k].sourceId)
  }

  ghost predicate InputsOk(sources: seq<SourceSamples>) {
    && sources != []
    && Distinct(SourceIds(sources))
    && forall k :: 0 <= k < |sources| ==> sources[k].sampleIds != [] && Distinct(sources[k].sampleIds)
  }

  method CheckInputs(sources: seq<SourceSamples>) returns (ok: bool)
    ensures ok <==> InputsOk(sources)
  {
    if sources == [] {
      return false;
    }
    var seen: set<string> := {};
    for k := 0 to |sources|
      invariant forall x :: x in seen <==> x in SourceIds(sources)[..k]
      invariant Distinct(SourceIds(sources)[..k])
      invariant forall i :: 0 <= i < k ==> sources[i].sampleIds != [] && Distinct(sources[i].sampleIds)
    {
      ghost var ids := SourceIds(sources);
      assert sources[k].sourceId in seen ==> exists i :: 0 <= i < k && ids[i] == ids[k];
      assert ids[..k + 1] == ids[..k] + [ids[k]];
      if sources[k].sourceId in seen || sources[k].sampleIds == [] {
        return false;
      }
      seen := seen + {sources[k].sourceId};
      var distinct := AllDistinct(sources[k].sampleIds);
      if !distinct {
        return false;
      }
    }
    assert SourceIds(sources)[..|sources|] == SourceIds(sources);
    return true;
  }

  // ----- which samples are aligned -----

  predicate InAll(sources: seq<SourceSamples>, id: string) {
    forall k :: 0 <= k < |sources| ==> id in sources[k].sampleIds
  }

  ghost predicate InAny(sources: seq<SourceSamples>, id: string) {
    exists k :: 0 <= k < |sources| && id in sources[k].sampleIds
  }

  /** The samples of the first source that every source has, in the first source's order. */
  function Shared(ids: seq<string>, sources: seq<SourceSamples>): (kept: seq<string>)
    ensures forall x :: x in kept <==> x in ids && InAll(sources, x)
  {
    if ids == [] then []
    else
      var last := ids[|ids| - 1];
      assert ids == ids[..|ids| - 1] + [last];
      Shared(ids[..|ids| - 1], sources) + if InAll(sources, last) then [last] else []
  }

  /** Each element where it appears first. */
  function FirstAppearances(ids: seq<string>): (kept: seq<string>)
    ensures forall x :: x in kept <==> x in ids
    ensures Distinct(kept)
  {
    if ids == [] then []
    else
      var last := ids[|ids| - 1];
      assert ids == ids[..|ids| - 1] + [last];
      var front := FirstAppearances(ids[..|ids| - 1]);
      if last in front then front else front + [last]
  }

  function SampleLists(sources: seq<SourceSamples>): seq<seq<string>> {
    seq(|sources|, k requires 0 <= k < |sources| => sources[k].sampleIds)
  }

  function Aligned(sources: seq<SourceSamples>, mode: Mode): seq<string>
    requires sources != []
  {
    match mode
    case Inner => Shared(sources[0].sampleIds, sources)
    case Left => sources[0].sampleIds
    case Outer => FirstAppearances(Flatten(SampleLists(sources)))
  }

  // ----- valid plans -----

  ghost predicate MaskOk(plan: Plan, k: nat)
    requires k < |plan.masks|
  {
    plan.masks[k].sampleIds == plan.sampleIds && |plan.masks[k].present| == |plan.sampleIds|
  }

  ghost predicate Present(plan: Plan, k: nat, i: nat) {
    k < |plan.masks| && i < |plan.masks[k].present| && plan.masks[k].present[i]
  }

  ghost predicate ModeHolds(plan: Plan, i: nat) {
    && (exists k :: Present(plan, k, i))
    && (plan.mode == Inner ==> forall k :: 0 <= k < |plan.masks| ==> Present(plan, k, i))
    && (plan.mode == Left ==> Present(plan, 0, i))
  }

  function MaskSources(masks: seq<PresenceMask>): seq<string> {
    seq(|masks|, k requires 0 <= k < |masks| => masks[k].sourceId)
  }

  /** What the closing `validate` checks. */
  ghost predicate PlanValid(plan: Plan) {
    && plan.sampleIds != [] && Distinct(plan.sampleIds)
    && plan.masks != []
    && (forall k :: 0 <= k < |plan.masks| ==> MaskOk(plan, k))
    && Distinct(MaskSources(plan.masks))
    && (forall i :: 0 <= i < |plan.sampleIds| ==> ModeHolds(plan, i))
  }

  method Validate(plan: Plan) returns (ok: bool)
    ensures ok <==> PlanValid(plan)
  {
    if plan.sampleIds == [] || plan.masks == [] {
      return false;
    }
    ok := AllDistinct(plan.sampleIds);
    if !ok {
      return;
    }
    for k := 0 to |plan.masks|
      invariant forall i :: 0 <= i < k ==> MaskOk(plan, i)
    {
      var mask := plan.masks[k];
      if |mask.sampleIds| != |mask.present| || mask.sampleIds != plan.sampleIds {
        assert !MaskOk(plan, k);
        return false;
      }
    }
    ok := AllDistinct(MaskSources(plan.masks));
    if !ok {
      return;
    }
    for i := 0 to |plan.sampleIds|
      invariant forall j :: 0 <= j < i ==> ModeHolds(plan, j)
    {
      forall k | 0 <= k < |plan.masks|
        ensures i < |plan.masks[k].present| && (Present(plan, k, i) <==> plan.masks[k].present[i])
      {
        assert MaskOk(plan, k);
      }
      var anyPresent := exists k :: 0 <= k < |plan.masks| && plan.masks[k].present[i];
      var allPresent := forall k :: 0 <= k < |plan.masks| ==> plan.masks[k].present[i];
      var valid := match plan.mode
        case Inner => allPresent
        case Left => plan.masks[0].present[i]
        case Outer => anyPresent;
      if !anyPresent || !valid {
        assert !ModeHolds(plan, i);
        return false;
      }
    }
    return true;
  }

  // ----- the plan -----

  function PresenceOf(ids: seq<string>, samples: seq<string>): seq<bool> {
    seq(|ids|, i requires 0 <= i < |ids| => ids[i] in samples)
  }

  function PlanOf(sources: seq<SourceSamples>, mode: Mode): Plan
    requires sources != []
  {
    var ids := Aligned(sources, mode);
    Plan(mode, ids, seq(|sources|, k requires 0 <= k < |sources| =>
      PresenceMask(ids, sources[k].sourceId, PresenceOf(ids, sources[k].sampleIds))))
  }

  method BuildSampleAlignmentPlan(sources: seq<SourceSamples>, mode: Mode) returns (r: Result<Plan>)
    ensures r == if InputsOk(sources) && Aligned(sources, mode) != []
                 then Ok(PlanOf(sources, mode)) else ValidationError
    ensures r.Ok? ==> PlanValid(r.value)
    ensures r.Ok? ==> r.value.mode == mode && |r.value.masks| == |sources|
    ensures r.Ok? ==> forall k :: 0 <= k < |sources| ==>
      && r.value.masks[k].sourceId == sources[k].sourceId
      && r.value.masks[k].sampleIds == r.value.sampleIds
      && |r.value.masks[k].present| == |r.value.sampleIds|
      && forall i :: 0 <= i < |r.value.sampleIds| ==>
           (r.value.masks[k].present[i] <==> r.value.sampleIds[i] in sources[k].sampleIds)
    ensures r.Ok? ==> forall x :: x in r.value.sampleIds <==>
      match mode
      case Inner => forall k :: 0 <= k < |sources| ==> x in sources[k].sampleIds
      case Left => x in sources[0].sampleIds
      case Outer => exists k :: 0 <= k < |sources| && x in sources[k].sampleIds
  {
    var ok := CheckInputs(sources);
    if !ok {
      return ValidationError;
    }
    var ids: seq<string>;
    match mode {
      case Inner => ids := Shared(sources[0].sampleIds, sources);
      case Left => ids := sources[0].sampleIds;
      case Outer => ids := OrderedUnion(sources);
    }
    if ids == [] {
      return ValidationError;
    }
    var masks := seq(|sources|, k requires 0 <= k < |sources| =>
      PresenceMask(ids, sources[k].sourceId, PresenceOf(ids, sources[k].sampleIds)));
    var plan := Plan(mode, ids, masks);
    assert plan == PlanOf(sources, mode);
    BuiltPlanValid(sources, mode);
    forall x { AlignedMembers(sources, mode, x); }
    var valid := Validate(plan);
    return if valid then Ok(plan) else ValidationError;
  }

  /** The outer union: the loop over all samples of all sources with its `seen` set. */
  method OrderedUnion(sources: seq<SourceSamples>) returns (ordered: seq<string>)
    ensures ordered == FirstAppearances(Flatten(SampleLists(sources)))
  {
    hide FirstAppearances, Flatten;
    ordered := [];
    var seen: set<string> := {};
    ghost var lists := SampleLists(sources);
    NothingAppears(lists);
    for k := 0 to |sources|
      invariant ordered == FirstAppearances(Flatten(lists[..k]))
      invariant forall x :: x in seen <==> x in ordered
    {
      ordered, seen := AddSamples(ordered, seen, sources[k].sampleIds, Flatten(lists[..k]));
      FlattenPush(lists[..k], lists[k]);
      assert lists[..k + 1] == lists[..k] + [lists[k]];
    }
    assert lists[..|lists|] == lists;
  }

  lemma NothingAppears(lists: seq<seq<string>>)
    ensures FirstAppearances(Flatten(lists[..0])) == []
  {}

  lemma AppearOnce(ids: seq<string>, x: string)
    ensures FirstAppearances(ids + [x]) == FirstAppearances(ids) + if x in FirstAppearances(ids) then [] else [x]
  {
    assert (ids + [x])[..|ids|] == ids;
  }

  method AddSamples(ordered0: seq<string>, seen0: set<string>, ids: seq<string>, ghost before: seq<string>)
    returns (ordered: seq<string>, seen: set<string>)
    requires ordered0 == FirstAppearances(before) && forall x :: x in seen0 <==> x in ordered0
    ensures ordered == FirstAppearances(before + ids) && forall x :: x in seen <==> x in ordered
  {
    hide FirstAppearances;
    ordered, seen := ordered0, seen0;
    assert before + ids[..0] == before;
    for i := 0 to |ids|
      invariant ordered == FirstAppearances(before + ids[..i])
      invariant forall x :: x in seen <==> x in ordered
    {
      AppearOnce(before + ids[..i], ids[i]);
      assert before + ids[..i + 1] == before + ids[..i] + [ids[i]];
      if ids[i] !in seen {
        seen := seen + {ids[i]};
        ordered := ordered + [ids[i]];
      }
    }
    assert ids[..|ids|] == ids;
  }

  // ----- what the plan promises -----

  lemma {:induction false} FlattenMembers(lists: seq<seq<string>>, x: string)
    ensures x in Flatten(lists) <==> exists k :: 0 <= k < |lists| && x in lists[k]
  {
    if lists != [] {
      var n := |lists| - 1;
      FlattenMembers(lists[..n], x);
      assert x in Flatten(lists) <==> x in Flatten(lists[..n]) || x in lists[n];
    }
  }

  lemma {:induction false} SharedDistinct(ids: seq<string>, sources: seq<SourceSamples>)
    requires Distinct(ids)
    ensures Distinct(Shared(ids, sources))
  {
    if ids != [] {
      SharedDistinct(ids[..|ids| - 1], sources);
      assert ids[|ids| - 1] !in ids[..|ids| - 1];
    }
  }

  /** Which samples are aligned: those in every source, in the first, or in any. */
  lemma AlignedMembers(sources: seq<SourceSamples>, mode: Mode, x: string)
    requires InputsOk(sources)
    ensures x in Aligned(sources, mode) <==>
      match mode
      case Inner => InAll(sources, x)
      case Left => x in sources[0].sampleIds
      case Outer => InAny(sources, x)
    ensures Distinct(Aligned(sources, mode))
  {
    match mode {
      case Inner => SharedDistinct(sources[0].sampleIds, sources);
      case Left =>
      case Outer =>
        var lists := SampleLists(sources);
        FlattenMembers(lists, x);
        assert forall k :: 0 <= k < |sources| ==> lists[k] == sources[k].sampleIds;
    }
  }

  /** Once the inputs are accepted and something is aligned, the closing check cannot fail. */
  lemma BuiltPlanValid(sources: seq<SourceSamples>, mode: Mode)
    requires InputsOk(sources) && Aligned(sources, mode) != []
    ensures PlanValid(PlanOf(sources, mode))
  {
    hide Aligned;
    var plan := PlanOf(sources, mode);
    AlignedMembers(sources, mode, "");
    assert MaskSources(plan.masks) == SourceIds(sources);
    forall i | 0 <= i < |plan.sampleIds|
      ensures ModeHolds(plan, i)
    {
      var id := plan.sampleIds[i];
      AlignedMembers(sources, mode, id);
      forall k | 0 <= k < |sources|
        ensures Present(plan, k, i) <==> id in sources[k].sampleIds
      {}
      assert mode == Outer || Present(plan, 0, i);
    }
  }

  lemma SharedPush(ids: seq<string>, sources: seq<SourceSamples>)
    requires ids != []
    ensures
      var last := ids[|ids| - 1];
      Shared(ids, sources) == Shared(ids[..|ids| - 1], sources) + if InAll(sources, last) then [last] else []
  {}

  ghost predicate InOrder(s: seq<string>, x: string, y: string) {
    exists p, q :: 0 <= p < q < |s| && s[p] == x && s[q] == y
  }

  lemma InOrderExtends(s: seq<string>, t: seq<string>, x: string, y: string)
    requires InOrder(s, x, y)
    ensures InOrder(s + t, x, y)
  {
    var p, q :| 0 <= p < q < |s| && s[p] == x && s[q] == y;
    assert (s + t)[p] == x && (s + t)[q] == y;
  }

  lemma InOrderLast(s: seq<string>, x: string, y: string)
    requires x in s
    ensures InOrder(s + [y], x, y)
  {
    var p :| 0 <= p < |s| && s[p] == x;
    assert (s + [y])[p] == x && (s + [y])[|s|] == y;
  }

  /** The inner samples keep the order of the first source. */
  lemma {:induction false} SharedKeepsOrder(ids: seq<string>, sources: seq<SourceSamples>, i: nat, j: nat)
    requires i < j < |ids| && InAll(sources, ids[i]) && InAll(sources, ids[j])
    ensures InOrder(Shared(ids, sources), ids[i], ids[j])
    ensures exists p, q ::
      && 0 <= p < q < |Shared(ids, sources)|
      && Shared(ids, sources)[p] == ids[i] && Shared(ids, sources)[q] == ids[j]
  {
    hide InAll, Shared;
    var n := |ids| - 1;
    var front := ids[..n];
    SharedPush(ids, sources);
    if j < n {
      SharedKeepsOrder(front, sources, i, j);
      InOrderExtends(Shared(front, sources), if InAll(sources, ids[n]) then [ids[n]] else [], ids[i], ids[j]);
    } else {
      assert front[i] in front && front[i] in Shared(front, sources);
      InOrderLast(Shared(front, sources), ids[i], ids[j]);
    }
  }

  /** The outer samples come in the order in which they appear first. */
  lemma {:induction false} UnionKeepsOrder(ids: seq<string>, i: nat, j: nat)
    requires i < j < |ids| && ids[i] !in ids[..i] && ids[j] !in ids[..j]
    ensures InOrder(FirstAppearances(ids), ids[i], ids[j])
    ensures exists p, q ::
      && 0 <= p < q < |FirstAppearances(ids)|
      && FirstAppearances(ids)[p] == ids[i] && FirstAppearances(ids)[q] == ids[j]
  {
    hide FirstAppearances;
    var n := |ids| - 1;
    var front := ids[..n];
    assert ids == front + [ids[n]];
    AppearOnce(front, ids[n]);
    var kept := FirstAppearances(front);
    if j < n {
      assert front[..i] == ids[..i] && front[..j] == ids[..j];
      UnionKeepsOrder(front, i, j);
      InOrderExtends(kept, if ids[n] in kept then [] else [ids[n]], ids[i], ids[j]);
    } else {
      assert front == ids[..j] && front[i] in front && front[i] in kept;
      InOrderLast(kept, ids[i], ids[j]);
    }
  }

  /** What the inputs have to satisfy. */
  lemma InputsInFields(sources: seq<SourceSamples>)
    ensures InputsOk(sources) <==>
      && sources != []
      && (forall i, j :: 0 <= i < j < |sources| ==> sources[i].sourceId != sources[j].sourceId)
      && (forall k :: 0 <= k < |sources| ==> sources[k].sampleIds != [])
      && (forall k, i, j :: 0 <= k < |sources| && 0 <= i < j < |sources[k].sampleIds| ==>
            sources[k].sampleIds[i] != sources[k].sampleIds[j])
  {
    assert forall i :: 0 <= i < |sources| ==> SourceIds(sources)[i] == sources[i].sourceId;
  }

  lemma ModeInFields(plan: Plan, i: nat)
    requires plan.masks != [] && i < |plan.sampleIds|
    requires forall k :: 0 <= k < |plan.masks| ==> |plan.masks[k].present| == |plan.sampleIds|
    ensures ModeHolds(plan, i) <==>
      && (exists k :: 0 <= k < |plan.masks| && plan.masks[k].present[i])
      && (plan.mode == Inner ==> forall k :: 0 <= k < |plan.masks| ==> plan.masks[k].present[i])
      && (plan.mode == Left ==> plan.masks[0].present[i])
  {
    assert forall k :: 0 <= k < |plan.masks| ==> (Present(plan, k, i) <==> plan.masks[k].present[i]);
  }

  lemma MasksInFields(plan: Plan)
    ensures (forall k :: 0 <= k < |plan.masks| ==> MaskOk(plan, k)) <==> forall k :: 0 <= k < |plan.masks| ==>
      plan.masks[k].sampleIds == plan.sampleIds && |plan.masks[k].present| == |plan.sampleIds|
    ensures Distinct(MaskSources(plan.masks)) <==>
      forall i, j :: 0 <= i < j < |plan.masks| ==> plan.masks[i].sourceId != plan.masks[j].sourceId
  {
    assert forall k :: 0 <= k < |plan.masks| ==> MaskSources(plan.masks)[k] == plan.masks[k].sourceId;
    if forall k :: 0 <= k < |plan.masks| ==> MaskOk(plan, k) {
      forall k | 0 <= k < |plan.masks|
        ensures plan.masks[k].sampleIds == plan.sampleIds && |plan.masks[k].present| == |plan.sampleIds|
      {
        assert MaskOk(plan, k);
      }
    }
  }

  lemma ModesInFields(plan: Plan)
    requires plan.masks != []
    requires forall k :: 0 <= k < |plan.masks| ==> |plan.masks[k].present| == |plan.sampleIds|
    ensures (forall i :: 0 <= i < |plan.sampleIds| ==> ModeHolds(plan, i)) <==>
      && (forall i :: 0 <= i < |plan.sampleIds| ==>
            plan.masks[0].present[i] || exists k :: 0 < k < |plan.masks| && plan.masks[k].present[i])
      && (plan.mode == Inner ==> forall i, k :: 0 <= i < |plan.sampleIds| && 0 <= k < |plan.masks| ==>
            plan.masks[k].present[i])
      && (plan.mode == Left ==> forall i :: 0 <= i < |plan.sampleIds| ==> plan.masks[0].present[i])
  {
    hide ModeHolds;
    if forall i :: 0 <= i < |plan.sampleIds| ==> ModeHolds(plan, i) {
      forall i | 0 <= i < |plan.sampleIds|
        ensures plan.masks[0].present[i] || exists k :: 0 < k < |plan.masks| && plan.masks[k].present[i]
      {
        ModeInFields(plan, i);
      }
      forall i, k | plan.mode == Inner && 0 <= i < |plan.sampleIds| && 0 <= k < |plan.masks|
        ensures plan.masks[k].present[i]
      {
        ModeInFields(plan, i);
      }
      forall i | plan.mode == Left && 0 <= i < |plan.sampleIds|
        ensures plan.masks[0].present[i]
      {
        ModeInFields(plan, i);
      }
    } else {
      var i :| 0 <= i < |plan.sampleIds| && !ModeHolds(plan, i);
      ModeInFields(plan, i);
      var first := plan.masks[0].present[i];
    }
  }

  /** What a plan has to satisfy. */
  lemma PlanInFields(plan: Plan)
    ensures PlanValid(plan) <==>
      && plan.sampleIds != [] && plan.masks != []
      && (forall i, j :: 0 <= i < j < |plan.sampleIds| ==> plan.sampleIds[i] != plan.sampleIds[j])
      && (forall i, j :: 0 <= i < j < |plan.masks| ==> plan.masks[i].sourceId != plan.masks[j].sourceId)
      && (forall k :: 0 <= k < |plan.masks| ==>
            plan.masks[k].sampleIds == plan.sampleIds && |plan.masks[k].present| == |plan.sampleIds|)
      && (forall i :: 0 <= i < |plan.sampleIds| ==>
            plan.masks[0].present[i] || exists k :: 0 < k < |plan.masks| && plan.masks[k].present[i])
      && (plan.mode == Inner ==> forall i, k :: 0 <= i < |plan.sampleIds| && 0 <= k < |plan.masks| ==>
            plan.masks[k].present[i])
      && (plan.mode == Left ==> forall i :: 0 <= i < |plan.sampleIds| ==> plan.masks[0].present[i])
  {
    hide ModeHolds, MaskOk;
    MasksInFields(plan);
    if plan.masks != [] && forall k :: 0 <= k < |plan.masks| ==>
         plan.masks[k].sampleIds == plan.sampleIds && |plan.masks[k].present| == |plan.sampleIds|
    {
      ModesInFields(plan);
    }
  }
}
