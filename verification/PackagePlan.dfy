/** `component_tree` of build_distribution.py: the plan of a whole packaging run, and when it freezes. */
module PackagePlan {
  import opened Bytes
  import opened ComponentTree
  import opened Graphs
  import opened Packaging
  import Order = DependencyOrder

  /** The target of a node of the package graph. */
  function TargetOf(node: string): Option<Target> {
    if node == "wheel" then Some(Wheel)
    else if node == "sdist" then Some(Sdist)
    else if node == "full-source" then Some(FullSource)
    else if node == "standalone" then Some(Standalone)
    else if node == "deb" then Some(Deb)
    else if node == "arch" then Some(Arch)
    else None
  }

  /** Targets whose first stages are declared by a builder of their own. */
  predicate Owns(t: Target) {
    t == Standalone || t == Deb || t == Arch
  }

  /** Stages with usable, distinct identities. */
  predicate ValidStages(stages: seq<Step>) {
    && (forall i :: 0 <= i < |stages| ==> ValidSegment(stages[i].Identity(), {}))
    && (forall i, j :: 0 <= i < j < |stages| ==> stages[i].Identity() != stages[j].Identity())
  }

  /** Segments that are non-empty, free of slashes and distinct. */
  predicate PlainKeys(keys: seq<string>) {
    && (forall i :: 0 <= i < |keys| ==> keys[i] != "" && '/' !in keys[i])
    && (forall i, j :: 0 <= i < j < |keys| ==> keys[i] != keys[j])
  }

  predicate HasKeys(children: seq<Plan>, keys: seq<string>) {
    |children| == |keys| && forall i :: 0 <= i < |children| ==> Segment(children[i]) == keys[i]
  }

  lemma PlainKeysFit(children: seq<Plan>, keys: seq<string>)
    requires HasKeys(children, keys) && PlainKeys(keys)
    ensures KeysFit(children, {})
  {
    hide Segment;
  }

  lemma OwnedWellKeyed(key: string, owned: seq<Step>)
    requires key != ""
    ensures Segment(OwnedPlan(key, owned)) == key
    ensures WellKeyed(OwnedPlan(key, owned)) <==> ValidStages(owned)
  {
    var children := OwnedPlan(key, owned).children;
    forall i | 0 <= i < |children|
      ensures ValidSegment(Segment(children[i]), {}) <==> ValidSegment(owned[i].Identity(), {})
      ensures Segment(children[i]) == owned[i].Identity()
    {
    }
    assert forall c <- children :: WellKeyed(c);
  }

  lemma KeyedLeafWellKeyed(key: string, name: string)
    requires key != ""
    ensures Segment(KeyedLeaf(key, name)) == key && WellKeyed(KeyedLeaf(key, name))
  {
  }

  lemma StandaloneWellKeyed(owned: seq<Step>)
    ensures KeysFit(StandalonePlans(owned), {})
    ensures (forall c <- StandalonePlans(owned) :: WellKeyed(c)) <==> ValidStages(owned)
  {
    hide OwnedPlan, KeyedLeaf, WellKeyed, Segment, ValidStages;
    OwnedWellKeyed("build", owned);
    KeyedLeafWellKeyed("package", "package standalone archive");
    KeyedLeafWellKeyed("validate", "validate standalone archive");
    KeyedLeafWellKeyed("prove", "prove standalone execution");
    var children := StandalonePlans(owned);
    assert children[0] == OwnedPlan("build", owned);
    PlainKeysFit(children, ["build", "package", "validate", "prove"]);
  }

  lemma DebWellKeyed(owned: seq<Step>)
    ensures KeysFit(DebPlans(owned), {})
    ensures (forall c <- DebPlans(owned) :: WellKeyed(c)) <==> ValidStages(owned)
  {
    hide OwnedPlan, KeyedLeaf, WellKeyed, Segment, ValidStages;
    OwnedWellKeyed("package", owned);
    KeyedLeafWellKeyed("validate-deb", "validate Debian package");
    KeyedLeafWellKeyed("prove-deb", "prove Debian extracted binary");
    var children := DebPlans(owned);
    assert children[0] == OwnedPlan("package", owned);
    PlainKeysFit(children, ["package", "validate-deb", "prove-deb"]);
  }

  lemma ArchWellKeyed(owned: seq<Step>)
    ensures KeysFit(ArchPlans(owned), {})
    ensures (forall c <- ArchPlans(owned) :: WellKeyed(c)) <==> ValidStages(owned)
  {
    hide OwnedPlan, KeyedLeaf, WellKeyed, Segment, ValidStages;
    OwnedWellKeyed("package", owned);
    KeyedLeafWellKeyed("validate-arch", "validate arch package");
    KeyedLeafWellKeyed("prove-arch", "prove arch extracted binary");
    var children := ArchPlans(owned);
    assert children[0] == OwnedPlan("package", owned);
    PlainKeysFit(children, ["package", "validate-arch", "prove-arch"]);
  }

  lemma WheelWellKeyed(includeProof: bool)
    ensures KeysFit(WheelPlans(includeProof), {}) && forall c <- WheelPlans(includeProof) :: WellKeyed(c)
  {
    hide KeyedLeaf, WellKeyed, Segment;
    KeyedLeafWellKeyed("build", "build wheel");
    KeyedLeafWellKeyed("validate", "validate wheel");
    KeyedLeafWellKeyed("prove", "prove Python wheel installation");
    PlainKeysFit(WheelPlans(includeProof), ["build", "validate"] + if includeProof then ["prove"] else []);
  }

  lemma SdistWellKeyed(includeProof: bool)
    ensures KeysFit(SdistPlans(includeProof), {}) && forall c <- SdistPlans(includeProof) :: WellKeyed(c)
  {
    hide KeyedLeaf, WellKeyed, Segment;
    KeyedLeafWellKeyed("build", "build source distribution");
    KeyedLeafWellKeyed("validate", "validate source distribution");
    KeyedLeafWellKeyed("prove", "prove Python sdist installation");
    PlainKeysFit(SdistPlans(includeProof), ["build", "validate"] + if includeProof then ["prove"] else []);
  }

  lemma FullSourceWellKeyed()
    ensures KeysFit(FullSourcePlans(), {}) && forall c <- FullSourcePlans() :: WellKeyed(c)
  {
    hide KeyedLeaf, WellKeyed, Segment;
    KeyedLeafWellKeyed("build", "build full-source archive");
    KeyedLeafWellKeyed("validate", "validate full-source archive");
    PlainKeysFit(FullSourcePlans(), ["build", "validate"]);
  }

  /** A target's plan freezes exactly when the stages its builder declares, if any, are valid. */
  lemma TargetFreezesExactly(t: Target, includeProof: bool, owned: seq<Step>)
    ensures WellKeyed(TargetPlan(t, includeProof, owned)) <==> (Owns(t) ==> ValidStages(owned))
  {
    hide StandalonePlans, DebPlans, ArchPlans, WheelPlans, SdistPlans, FullSourcePlans, KeysFit;
    hide ValidStages, TargetName;
    match t {
      case Standalone => StandaloneWellKeyed(owned);
      case Deb => DebWellKeyed(owned);
      case Arch => ArchWellKeyed(owned);
      case Wheel => WheelWellKeyed(includeProof);
      case Sdist => SdistWellKeyed(includeProof);
      case FullSource => FullSourceWellKeyed();
    }
  }

  function TargetPlans(nodes: seq<Target>, proof: Target -> bool, owned: Target -> seq<Step>): (plans: seq<Plan>)
    ensures |plans| == |nodes|
    ensures forall i :: 0 <= i < |nodes| ==> plans[i] == TargetPlan(nodes[i], proof(nodes[i]), owned(nodes[i]))
  {
    seq(|nodes|, i requires 0 <= i < |nodes| => TargetPlan(nodes[i], proof(nodes[i]), owned(nodes[i])))
  }

  lemma NamesAreKeys(t: Target)
    ensures ValidSegment(TargetName(t), {}) && TargetOf(TargetName(t)) == Some(t)
  {
  }

  /** The tree over distinct targets freezes exactly when every builder among them declares valid stages. */
  lemma TreeFreezesExactly(nodes: seq<Target>, proof: Target -> bool, owned: Target -> seq<Step>)
    requires Distinct(nodes)
    ensures FreezePlan(Plan("distribution", TargetPlans(nodes, proof, owned), None, ""), "").Ok?
       <==> forall t <- nodes :: Owns(t) ==> ValidStages(owned(t))
  {
    hide WellKeyed, TargetName, TargetOf, ValidStages;
    var plans := TargetPlans(nodes, proof, owned);
    var root := Plan("distribution", plans, None, "");
    FreezesExactly(root, "");
    forall i | 0 <= i < |nodes|
      ensures ValidSegment(Segment(plans[i]), {}) && TargetOf(Segment(plans[i])) == Some(nodes[i])
      ensures WellKeyed(plans[i]) <==> (Owns(nodes[i]) ==> ValidStages(owned(nodes[i])))
    {
      NamesAreKeys(nodes[i]);
      TargetFreezesExactly(nodes[i], proof(nodes[i]), owned(nodes[i]));
    }
    assert KeysFit(plans, {});
    RootWellKeyed(root);
    if forall t <- nodes :: Owns(t) ==> ValidStages(owned(t)) {
      assert forall c <- plans :: WellKeyed(c);
    } else {
      var t :| t in nodes && Owns(t) && !ValidStages(owned(t));
      var i :| 0 <= i < |nodes| && nodes[i] == t;
      assert !WellKeyed(plans[i]) && plans[i] in plans;
    }
  }

  /** So a packaging run over distinct targets is rejected exactly when some builder declares invalid stages. */
  lemma RunFreezesExactly(components: seq<Component>, nodes: seq<Target>, proof: Target -> bool,
                          owned: Target -> seq<Step>)
    requires Distinct(nodes) && |components| == |nodes|
    requires forall i :: 0 <= i < |nodes| ==>
               components[i].plan == TargetPlan(nodes[i], proof(nodes[i]), owned(nodes[i]))
    ensures FreezePlan(RootPlan(components), "").Ok? <==> forall t <- nodes :: Owns(t) ==> ValidStages(owned(t))
  {
    hide FreezePlan, TargetPlan, ValidStages;
    TreeFreezesExactly(nodes, proof, owned);
    assert RootPlan(components).children == TargetPlans(nodes, proof, owned);
  }

  lemma RootWellKeyed(root: Plan)
    requires root.step.None? && KeysFit(root.children, {})
    ensures WellKeyed(root) <==> forall c <- root.children :: WellKeyed(c)
  {
  }

  /** The targets of an order over nodes of the package graph. */
  function Nodes(order: seq<string>): (nodes: seq<Target>)
    requires forall n <- order :: TargetOf(n).Some?
    ensures |nodes| == |order| && forall i :: 0 <= i < |order| ==> TargetOf(order[i]) == Some(nodes[i])
  {
    if order == [] then [] else [TargetOf(order[0]).value] + Nodes(order[1..])
  }

  lemma NodesAreDistinct(order: seq<string>)
    requires Distinct(order) && forall n <- order :: TargetOf(n).Some?
    ensures Distinct(Nodes(order))
  {
    forall i, j | 0 <= i < j < |order|
      ensures Nodes(order)[i] != Nodes(order)[j]
    {
      assert order[i] != order[j] && order[i] in order && order[j] in order;
      NameOfTarget(order[i]);
      NameOfTarget(order[j]);
    }
  }

  lemma NameOfTarget(node: string)
    requires TargetOf(node).Some?
    ensures TargetName(TargetOf(node).value) == node
  {
  }

  /** An installation is proved only for what was asked for by name, or when everything was. */
  predicate Proved(targets: seq<string>, node: string) {
    node in targets || "all" in targets
  }

  /** The order in which a run takes what its targets need: each node once, after what it depends on. */
  ghost predicate IsOrder(g: Graph, targets: seq<string>, order: seq<string>) {
    && Distinct(order) && Topological(g, order)
    && forall n :: n in order <==> exists t :: t in targets && Reaches(g, t, n)
  }

  /**
   * The tree of everything the requested targets need, one target plan each, in dependency order. It exists
   * exactly when they reach no cycle, and it then freezes exactly when every builder it reaches declares valid
   * stages.
   */
  method TreeOfTargets(g: Graph, targets: seq<string>, owned: Target -> seq<Step>)
    returns (r: Result<Plan, seq<string>>, ghost order: seq<string>)
    requires forall t, n :: t in targets && Reaches(g, t, n) ==> TargetOf(n).Some?
    ensures r.Err? <==> exists t, c :: t in targets && IsCycle(g, c) && Reaches(g, t, c[0])
    ensures r.Ok? ==> IsOrder(g, targets, order) && (forall n <- order :: TargetOf(n).Some?)
    ensures r.Ok? ==> r.value.step.None? && |r.value.children| == |order|
    ensures r.Ok? ==> forall i :: 0 <= i < |order| ==>
              var t := TargetOf(order[i]).value;
              r.value.children[i] == TargetPlan(t, Proved(targets, order[i]), owned(t))
    ensures r.Ok? ==>
      (FreezePlan(r.value, "").Ok?
       <==> forall t, n :: t in targets && Reaches(g, t, n) && Owns(TargetOf(n).value) ==>
              ValidStages(owned(TargetOf(n).value)))
  {
    hide TargetOf, Owns, ValidStages, FreezePlan, Reaches, IsCycle, TargetPlan, TargetName, Topological, Distinct;
    var ordered := Order.DependencyOrder(g, targets);
    if ordered.Err? {
      return Err(ordered.error), [];
    }
    order := ordered.value;
    var nodes := Nodes(ordered.value);
    var proof := (t: Target) => TargetName(t) in targets || "all" in targets;
    NodesAreDistinct(order);
    TreeFreezesExactly(nodes, proof, owned);
    SameNodes(order, owned);
    forall i | 0 <= i < |order|
      ensures TargetName(nodes[i]) == order[i]
    {
      NameOfTarget(order[i]);
    }
    r := Ok(Plan("distribution", TargetPlans(nodes, proof, owned), None, ""));
  }

  lemma SameNodes(order: seq<string>, owned: Target -> seq<Step>)
    requires forall n <- order :: TargetOf(n).Some?
    ensures (forall t <- Nodes(order) :: Owns(t) ==> ValidStages(owned(t)))
       <==> forall n <- order :: Owns(TargetOf(n).value) ==> ValidStages(owned(TargetOf(n).value))
  {
    hide TargetOf, Owns, ValidStages;
    var nodes := Nodes(order);
    if forall t <- nodes :: Owns(t) ==> ValidStages(owned(t)) {
      forall n | n in order
        ensures Owns(TargetOf(n).value) ==> ValidStages(owned(TargetOf(n).value))
      {
        var i :| 0 <= i < |order| && order[i] == n;
        assert nodes[i] in nodes;
      }
    }
    if forall n <- order :: Owns(TargetOf(n).value) ==> ValidStages(owned(TargetOf(n).value)) {
      forall t | t in nodes
        ensures Owns(t) ==> ValidStages(owned(t))
      {
        var i :| 0 <= i < |nodes| && nodes[i] == t;
        assert order[i] in order;
      }
    }
  }
}
