/** Why the answer of `find_path` is not always exact: a registry on which an
    overflowing branch hides a finite path (crates/dag-ml-data-core/src/adapter.rs). */
module AdapterOverflow {
  import opened AdapterRegistry
  import opened AdapterSearch
  import opened AdapterWalks
  import opened Words
  import opened Wrappers

  const BIG: U64 := U64_MAX - 1_000_001

  function At(name: string): Node { Node("table", name) }

  function Edge(id: string, from: string, to: string, cost: U64, lossy: bool): Adapter {
    Adapter(id, "1", At(from), At(to), cost, lossy, false, false, true, Stateless)
  }

  /** Two ways from s to m, then one adapter from m to g. The way through x is cheaper by
      score, the way through y by raw cost, and only the latter leaves room for the last step. */
  const ROUTES: Query := Query(
    map["sx" := Edge("sx", "s", "x", 1, false),
        "xm" := Edge("xm", "x", "m", 1_000_001, false),
        "sy" := Edge("sy", "s", "y", 1, true),
        "ym" := Edge("ym", "y", "m", 1, false),
        "mg" := Edge("mg", "m", "g", BIG, false)],
    Policy(true, false, false, {}, {"xm", "mg"}, true, None),
    At("s"), At("g"))

  const VIA_X := ["sx", "xm"]
  const VIA_Y := ["sy", "ym"]

  lemma Nodes()
    ensures At("s") != At("x") && At("s") != At("y") && At("s") != At("m") && At("s") != At("g")
    ensures At("x") != At("y") && At("x") != At("m") && At("x") != At("g")
    ensures At("y") != At("m") && At("y") != At("g") && At("m") != At("g")
  {
    assert "s"[0] != "x"[0] && "s"[0] != "y"[0] && "s"[0] != "m"[0] && "s"[0] != "g"[0];
    assert "x"[0] != "y"[0] && "x"[0] != "m"[0] && "x"[0] != "g"[0];
    assert "y"[0] != "m"[0] && "y"[0] != "g"[0] && "m"[0] != "g"[0];
  }

  /** The last step of a walk, by the adapter it takes. */
  lemma LastStep(v: seq<string>, to: Node)
    requires v != [] && Walk(ROUTES, At("s"), v, to)
    ensures
      var id, front := v[|v| - 1], v[..|v| - 1];
      || (id == "sx" && to == At("x") && Walk(ROUTES, At("s"), front, At("s")))
      || (id == "xm" && to == At("m") && Walk(ROUTES, At("s"), front, At("x")))
      || (id == "sy" && to == At("y") && Walk(ROUTES, At("s"), front, At("s")))
      || (id == "ym" && to == At("m") && Walk(ROUTES, At("s"), front, At("y")))
      || (id == "mg" && to == At("g") && Walk(ROUTES, At("s"), front, At("m")))
  {}

  /** All walks of the registry. */
  lemma {:induction false} AllRoutes(v: seq<string>, to: Node)
    requires Walk(ROUTES, At("s"), v, to)
    ensures to == At("s") ==> v == []
    ensures to == At("x") ==> v == ["sx"]
    ensures to == At("y") ==> v == ["sy"]
    ensures to == At("m") ==> v == VIA_X || v == VIA_Y
    ensures to == At("g") ==> v == VIA_X + ["mg"] || v == VIA_Y + ["mg"]
    decreases |v|
  {
    Nodes();
    if v == [] {
      EmptyWalkEnds(to);
    } else {
      var id, front := v[|v| - 1], v[..|v| - 1];
      LastStep(v, to);
      hide Walk, At;
      assert v == front + [id];
      var from := if id == "sx" || id == "sy" then At("s") else if id == "xm" then At("x")
                  else if id == "ym" then At("y") else At("m");
      AllRoutes(front, from);
    }
  }

  lemma EmptyWalkEnds(to: Node)
    requires Walk(ROUTES, At("s"), [], to)
    ensures to == At("s")
  {}

  // ----- the totals of each route -----

  lemma ToX()
    ensures Walk(ROUTES, At("s"), ["sx"], At("x")) && Score(ROUTES, ["sx"]) == 1 && RawCost(ROUTES, ["sx"]) == 1
  {
    WalkSnoc(ROUTES, At("s"), [], At("s"), "sx");
    assert [] + ["sx"] == ["sx"];
  }

  lemma ToY()
    ensures Walk(ROUTES, At("s"), ["sy"], At("y")) && Score(ROUTES, ["sy"]) == 1_000_001 && RawCost(ROUTES, ["sy"]) == 1
  {
    WalkSnoc(ROUTES, At("s"), [], At("s"), "sy");
    assert [] + ["sy"] == ["sy"];
  }

  lemma ThroughX()
    ensures Walk(ROUTES, At("s"), VIA_X, At("m"))
    ensures Score(ROUTES, VIA_X) == 1_000_001 && RawCost(ROUTES, VIA_X) == 1_000_002
  {
    ToX();
    hide Walk, Score, RawCost;
    WalkSnoc(ROUTES, At("s"), ["sx"], At("x"), "xm");
    assert ["sx"] + ["xm"] == VIA_X;
  }

  lemma ThroughY()
    ensures Walk(ROUTES, At("s"), VIA_Y, At("m")) && Score(ROUTES, VIA_Y) == 1_000_002 && RawCost(ROUTES, VIA_Y) == 2
  {
    ToY();
    hide Walk, Score, RawCost;
    WalkSnoc(ROUTES, At("s"), ["sy"], At("y"), "ym");
    assert ["sy"] + ["ym"] == VIA_Y;
  }

  lemma ThroughXOverflows()
    ensures GoalWalk(ROUTES, VIA_X + ["mg"])
    ensures Score(ROUTES, VIA_X + ["mg"]) < U64_MAX < RawCost(ROUTES, VIA_X + ["mg"])
  {
    ThroughX();
    hide Walk, Score, RawCost;
    WalkSnoc(ROUTES, At("s"), VIA_X, At("m"), "mg");
  }

  lemma ThroughYFits()
    ensures GoalPathOk(ROUTES, VIA_Y + ["mg"]) && Score(ROUTES, VIA_Y + ["mg"]) == U64_MAX
  {
    ThroughY();
    hide Walk, Score, RawCost;
    WalkSnoc(ROUTES, At("s"), VIA_Y, At("m"), "mg");
  }

  /** The way through x is one the search is certain to follow, so it shuts out the other. */
  lemma ViaXIsCertain()
    ensures Certain(ROUTES, VIA_X, At("m"))
  {
    Nodes();
    ToX();
    ToY();
    ThroughX();
    ThroughY();
    forall j | 0 <= j < 2
      ensures !Walk(ROUTES, At("s"), VIA_X[..j], At("g"))
    {
      if Walk(ROUTES, At("s"), VIA_X[..j], At("g")) {
        AllRoutes(VIA_X[..j], At("g"));
      }
    }
    forall j, v, node | 0 <= j <= 2 && |v| == j
                        && Walk(ROUTES, At("s"), VIA_X[..j], node) && Walk(ROUTES, At("s"), v, node)
      ensures Score(ROUTES, VIA_X[..j]) <= Score(ROUTES, v)
    {
      AllRoutes(VIA_X[..j], node);
      AllRoutes(v, node);
      if j == 0 {
        assert VIA_X[..0] == [];
      } else if j == 1 {
        assert VIA_X[..1] == ["sx"];
        WalkEndUnique(ROUTES, At("s"), ["sx"], node, At("x"));
      } else {
        assert VIA_X[..2] == VIA_X;
        WalkEndUnique(ROUTES, At("s"), VIA_X, node, At("m"));
      }
    }
  }

  lemma ViaYIsOvertaken()
    ensures Overtaken(ROUTES, VIA_Y + ["mg"])
  {
    ToX();
    ToY();
    ThroughX();
    ThroughY();
    ViaXIsCertain();
    hide Walk, Score, Certain;
    var w := VIA_Y + ["mg"];
    assert w[..2] == VIA_Y && w[..1] == ["sy"] && VIA_X[..1] == ["sx"];
    assert Overtakes(ROUTES, VIA_X, w, At("m"));
  }

  lemma NothingCollectable(g: seq<string>)
    ensures !Collectable(ROUTES, g)
  {
    ThroughXOverflows();
    ViaYIsOvertaken();
    hide Walk, Score, RawCost, Overtaken;
    if Walk(ROUTES, At("s"), g, At("g")) {
      AllRoutes(g, At("g"));
    }
  }

  /** The best walk is the one through x, whose raw cost does not fit. */
  lemma NotExact()
    ensures !Exact(ROUTES)
  {
    ThroughYFits();
    NothingUnlessBest(ROUTES, VIA_Y + ["mg"]);
    ThroughXOverflows();
    hide Walk, Score, RawCost;
    forall w | Minimal(ROUTES, w)
      ensures !Finite(ROUTES, w)
    {
      AllRoutes(w, At("g"));
      assert NoWorse(ROUTES, w, VIA_X + ["mg"]);
    }
  }

  /** An overflowing branch can hide a finite path: a walk to the goal exists whose score and
      cost both fit 64 bits, but no answer of `find_path` delivers it, or anything else. */
  lemma OverflowHidesFinitePath(res: PathResolution)
    requires Sound(ROUTES, res)
    ensures RegistryOk(ROUTES.registry) && !Exact(ROUTES)
    ensures GoalPathOk(ROUTES, VIA_Y + ["mg"])
    ensures res.Unresolved? && res.code != AmbiguousPath
  {
    ThroughYFits();
    NotExact();
    hide Walk, Score, RawCost, Overtaken, Exact;
    if res.Resolved? {
      NothingCollectable(Ids(res.adapters));
    } else if res.code == AmbiguousPath {
      var paths :| Offers(ROUTES, paths, res.choices);
      NothingCollectable(paths[0]);
    }
  }
}
