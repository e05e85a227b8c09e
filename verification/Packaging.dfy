/**
 A packaging run of build_distribution.py: the frozen plan, the progress reporter that checks
 every event against it, and the component trees that emit the events.
 */
module Packaging {
  import opened Bytes
  import opened ComponentTree

  // ----- the shape of the target plans -----

  predicate IsLeafPlan(p: Plan) {
    p.step.Some? && p == LeafPlan(p.step.value)
  }

  predicate AllLeaves(children: seq<Plan>) {
    forall i :: 0 <= i < |children| ==> IsLeafPlan(children[i])
  }

  predicate IsFlat(p: Plan) {
    p.step.None? && AllLeaves(p.children)
  }

  /** The trees `_target_plan` builds: leaves, and components with a key whose children are leaves. */
  predicate IsTargetPlan(p: Plan) {
    p.step.None? && p.key != "" && forall c <- p.children :: IsTargetChild(c)
  }

  predicate IsTargetChild(c: Plan) {
    c.key != "" && (IsLeafPlan(c) || IsFlat(c))
  }

  function KeyedLeaf(key: string, name: string): Plan {
    LeafPlan(Step(name, key))
  }

  datatype Target = Wheel | Sdist | FullSource | Standalone | Deb | Arch

  function TargetName(t: Target): string {
    match t
    case Wheel => "wheel"
    case Sdist => "sdist"
    case FullSource => "full-source"
    case Standalone => "standalone"
    case Deb => "deb"
    case Arch => "arch"
  }

  function OwnedPlan(key: string, owned: seq<Step>): Plan {
    Plan(key, seq(|owned|, i requires 0 <= i < |owned| => LeafPlan(owned[i])), None, key)
  }

  function StandalonePlans(owned: seq<Step>): seq<Plan> {
    [OwnedPlan("build", owned), KeyedLeaf("package", "package standalone archive"),
     KeyedLeaf("validate", "validate standalone archive"), KeyedLeaf("prove", "prove standalone execution")]
  }

  function DebPlans(owned: seq<Step>): seq<Plan> {
    [OwnedPlan("package", owned), KeyedLeaf("validate-deb", "validate Debian package"),
     KeyedLeaf("prove-deb", "prove Debian extracted binary")]
  }

  function ArchPlans(owned: seq<Step>): seq<Plan> {
    [OwnedPlan("package", owned), KeyedLeaf("validate-arch", "validate arch package"),
     KeyedLeaf("prove-arch", "prove arch extracted binary")]
  }

  function WheelPlans(includeProof: bool): seq<Plan> {
    [KeyedLeaf("build", "build wheel"), KeyedLeaf("validate", "validate wheel")]
    + (if includeProof then [KeyedLeaf("prove", "prove Python wheel installation")] else [])
  }

  function SdistPlans(includeProof: bool): seq<Plan> {
    [KeyedLeaf("build", "build source distribution"), KeyedLeaf("validate", "validate source distribution")]
    + (if includeProof then [KeyedLeaf("prove", "prove Python sdist installation")] else [])
  }

  function FullSourcePlans(): seq<Plan> {
    [KeyedLeaf("build", "build full-source archive"), KeyedLeaf("validate", "validate full-source archive")]
  }

  /** `_target_plan`, with the stages `owned` that the target's own builder declares. */
  function TargetPlan(t: Target, includeProof: bool, owned: seq<Step>): Plan {
    var children := match t
      case Standalone => StandalonePlans(owned)
      case Deb => DebPlans(owned)
      case Arch => ArchPlans(owned)
      case Wheel => WheelPlans(includeProof)
      case Sdist => SdistPlans(includeProof)
      case FullSource => FullSourcePlans();
    Plan(TargetName(t), children, None, TargetName(t))
  }

  predicate AllFit(children: seq<Plan>) {
    forall i :: 0 <= i < |children| ==> IsTargetChild(children[i])
  }

  lemma TargetPlansHaveTheShape(t: Target, includeProof: bool, owned: seq<Step>)
    ensures IsTargetPlan(TargetPlan(t, includeProof, owned))
  {
    hide IsTargetChild, StandalonePlans, DebPlans, ArchPlans, WheelPlans, SdistPlans, FullSourcePlans;
    OwnedPlansFit(owned);
    PythonPlansFit(includeProof);
    FullSourceFits();
  }

  lemma OwnedPlansFit(owned: seq<Step>)
    ensures AllFit(StandalonePlans(owned)) && AllFit(DebPlans(owned)) && AllFit(ArchPlans(owned))
  {
    StandaloneFits(owned);
    DebFits(owned);
    ArchFits(owned);
  }

  lemma PythonPlansFit(includeProof: bool)
    ensures AllFit(WheelPlans(includeProof)) && AllFit(SdistPlans(includeProof))
  {
    WheelFits(includeProof);
    SdistFits(includeProof);
  }

  lemma StandaloneFits(owned: seq<Step>)
    ensures AllFit(StandalonePlans(owned))
  {
    hide OwnedPlan, KeyedLeaf, IsTargetChild;
    OwnedFits("build", owned);
    KeyedLeafFits("package", "package standalone archive");
    KeyedLeafFits("validate", "validate standalone archive");
    KeyedLeafFits("prove", "prove standalone execution");
  }

  lemma DebFits(owned: seq<Step>)
    ensures AllFit(DebPlans(owned))
  {
    hide OwnedPlan, KeyedLeaf, IsTargetChild;
    OwnedFits("package", owned);
    KeyedLeafFits("validate-deb", "validate Debian package");
    KeyedLeafFits("prove-deb", "prove Debian extracted binary");
  }

  lemma ArchFits(owned: seq<Step>)
    ensures AllFit(ArchPlans(owned))
  {
    hide OwnedPlan, KeyedLeaf, IsTargetChild;
    OwnedFits("package", owned);
    KeyedLeafFits("validate-arch", "validate arch package");
    KeyedLeafFits("prove-arch", "prove arch extracted binary");
  }

  lemma WheelFits(includeProof: bool)
    ensures AllFit(WheelPlans(includeProof))
  {
    hide OwnedPlan, KeyedLeaf, IsTargetChild;
    KeyedLeafFits("build", "build wheel");
    KeyedLeafFits("validate", "validate wheel");
    KeyedLeafFits("prove", "prove Python wheel installation");
  }

  lemma SdistFits(includeProof: bool)
    ensures AllFit(SdistPlans(includeProof))
  {
    hide OwnedPlan, KeyedLeaf, IsTargetChild;
    KeyedLeafFits("build", "build source distribution");
    KeyedLeafFits("validate", "validate source distribution");
    KeyedLeafFits("prove", "prove Python sdist installation");
  }

  lemma FullSourceFits()
    ensures AllFit(FullSourcePlans())
  {
    hide OwnedPlan, KeyedLeaf, IsTargetChild;
    KeyedLeafFits("build", "build full-source archive");
    KeyedLeafFits("validate", "validate full-source archive");
  }

  lemma OwnedFits(key: string, owned: seq<Step>)
    requires key != ""
    ensures IsTargetChild(OwnedPlan(key, owned))
  {
  }

  lemma KeyedLeafFits(key: string, name: string)
    requires key != ""
    ensures IsTargetChild(KeyedLeaf(key, name))
  {
  }

  // ----- scoping is exact on that shape -----

  /** The frozen leaves of children that are all leaves. */
  lemma {:induction false} FlatLeaves(parent: Plan, children: seq<Plan>, prefix: string, seen: set<string>)
    requires (forall c <- children :: c in parent.children) && AllLeaves(children)
    requires prefix != "" && FreezeChildren(parent, children, prefix, seen).Ok?
    ensures
      var leaves := FreezeChildren(parent, children, prefix, seen).value;
      && |leaves| == |children|
      && (forall i :: 0 <= i < |leaves| ==>
          leaves[i] == Leaf(ChildPrefix(prefix, children[i].key), children[i].step.value))
      && (forall i :: 0 <= i < |children| ==> ValidSegment(children[i].key, seen))
      && (forall i, j :: 0 <= i < j < |children| ==> children[i].key != children[j].key)
    decreases |children|
  {
    if children != [] {
      var key := children[0].key;
      assert Segment(children[0]) == key;
      assert FreezePlan(children[0], ChildPrefix(prefix, key)) ==
             Ok([Leaf(ChildPrefix(prefix, key), children[0].step.value)]);
      FlatLeaves(parent, children[1..], prefix, seen + {key});
      forall j | 0 < j < |children|
        ensures ValidSegment(children[j].key, seen) && children[j].key != key
      {
        assert children[1..][j - 1] == children[j];
        assert ValidSegment(children[1..][j - 1].key, seen + {key});
      }
      forall i, j | 0 < i < j < |children|
        ensures children[i].key != children[j].key
      {
        assert children[1..][i - 1].key != children[1..][j - 1].key;
      }
    }
  }

  lemma {:induction false} ByIdentityFinds(leaves: seq<Leaf>, i: nat)
    requires i < |leaves|
    requires forall j, k :: 0 <= j < k < |leaves| ==> leaves[j].step.Identity() != leaves[k].step.Identity()
    ensures ByIdentity(leaves, leaves[i].step.Identity()) == Some(leaves[i].id)
  {
    if i < |leaves| - 1 {
      assert leaves[i].step.Identity() != leaves[|leaves| - 1].step.Identity();
      ByIdentityFinds(leaves[..|leaves| - 1], i);
    }
  }

  /** Leaves below one prefix, with distinct identities free of slashes. */
  predicate Siblings(leaves: seq<Leaf>, prefix: string) {
    && prefix != ""
    && (forall i :: 0 <= i < |leaves| ==> leaves[i].id == ChildPrefix(prefix, leaves[i].step.Identity()))
    && (forall i :: 0 <= i < |leaves| ==> '/' !in leaves[i].step.Identity())
    && (forall i, j :: 0 <= i < j < |leaves| ==> leaves[i].step.Identity() != leaves[j].step.Identity())
  }

  lemma SiblingsScopeExactly(leaves: seq<Leaf>, prefix: string)
    requires Siblings(leaves, prefix)
    ensures ScopesExactly(leaves) && forall l <- leaves :: l.id != ""
  {
    hide ChildPrefix;
    forall i, a | 0 <= i < |leaves|
      ensures ScopedId(leaves, Event(a, leaves[i].step, leaves[i].step.Identity())) == Some(leaves[i].id)
    {
      ByIdentityFinds(leaves, i);
      SlashedIdsDiffer(leaves, prefix, leaves[i].step.Identity());
    }
    if leaves != [] { SlashedIdsDiffer(leaves, prefix, ""); }
  }

  /** In a child of a target plan every leaf is scoped to its own frozen id. */
  lemma ChildScopesExactly(c: Plan)
    requires IsTargetChild(c) && FreezePlan(c, c.key).Ok?
    ensures ScopesExactly(FreezePlan(c, c.key).value)
    ensures forall l <- FreezePlan(c, c.key).value :: l.id != ""
  {
    var leaves := FreezePlan(c, c.key).value;
    if IsFlat(c) {
      FlatLeaves(c, c.children, c.key, {});
      SiblingsScopeExactly(leaves, c.key);
    } else {
      assert leaves[0] in leaves;
    }
  }

  lemma SlashedIdsDiffer(leaves: seq<Leaf>, prefix: string, identity: string)
    requires prefix != "" && '/' !in identity
    requires forall i :: 0 <= i < |leaves| ==> leaves[i].id == ChildPrefix(prefix, leaves[i].step.Identity())
    ensures forall l <- leaves :: l.id != identity && l.id != ""
  {
    forall l <- leaves
      ensures l.id != identity && l.id != ""
    {
      assert l.id[|prefix|] == '/';
    }
  }

  // ----- running a component -----

  /** A component with what happens at each of its leaves. */
  datatype Component =
    | Tree(plan: Plan, scripts: seq<seq<Outcome>>)
    | Direct(plan: Plan, script: seq<Outcome>)

  /** One outcome for each leaf of each child. */
  predicate Scripted(children: seq<Plan>, scripts: seq<seq<Outcome>>) {
    && |children| == |scripts|
    && forall i :: 0 <= i < |children| ==>
         FreezePlan(children[i], children[i].key).Ok? ==>
         |FreezePlan(children[i], children[i].key).value| == |scripts[i]|
  }

  /** `TreeComponent.run`: each child in turn, its events scoped by its frozen leaves. */
  function TreeRun(children: seq<Plan>, scripts: seq<seq<Outcome>>): Emission
    requires Scripted(children, scripts)
  {
    if children == [] then Emission([], Finished)
    else match FreezePlan(children[0], children[0].key)
      case Err(e) => Emission([], InvalidPlan(e.segment))
      case Ok(leaves) =>
        assert Scripted(children[1..], scripts[1..]) by { ScriptedTail(children, scripts); }
        Then(ScopeEvents(leaves, ChildRun(leaves, scripts[0])), TreeRun(children[1..], scripts[1..]))
  }

  lemma ScriptedTail(children: seq<Plan>, scripts: seq<seq<Outcome>>)
    requires children != [] && Scripted(children, scripts)
    ensures Scripted(children[1..], scripts[1..])
  {
    forall i | 0 <= i < |children[1..]|
      ensures FreezePlan(children[1..][i], children[1..][i].key).Ok? ==>
                |FreezePlan(children[1..][i], children[1..][i].key).value| == |scripts[1..][i]|
    {
      assert children[1..][i] == children[i + 1] && scripts[1..][i] == scripts[i + 1];
    }
  }

  /** The leaves of a tree with the ids its parent sees. */
  function TreeLeaves(children: seq<Plan>): seq<Leaf> {
    if children == [] then []
    else
      (match FreezePlan(children[0], children[0].key) case Ok(leaves) => leaves case Err(_) => [])
      + TreeLeaves(children[1..])
  }

  function Flatten<T>(parts: seq<seq<T>>): seq<T> {
    if parts == [] then [] else parts[0] + Flatten(parts[1..])
  }

  predicate AllFreeze(children: seq<Plan>) {
    forall c <- children :: FreezePlan(c, c.key).Ok?
  }

  predicate ChildrenShaped(children: seq<Plan>) {
    forall c <- children :: c.key != "" && (IsLeafPlan(c) || IsFlat(c))
  }

  lemma {:induction false} TreeLeavesScripted(children: seq<Plan>, scripts: seq<seq<Outcome>>)
    requires AllFreeze(children) && Scripted(children, scripts)
    ensures |TreeLeaves(children)| == |Flatten(scripts)|
  {
    if children != [] {
      ScriptedTail(children, scripts);
      TreeLeavesScripted(children[1..], scripts[1..]);
    }
  }

  /** A tree emits exactly its leaves in order, up to the first one that raises. */
  lemma {:induction false} TreeRunIsStages(children: seq<Plan>, scripts: seq<seq<Outcome>>)
    requires ChildrenShaped(children) && AllFreeze(children) && Scripted(children, scripts)
    ensures |TreeLeaves(children)| == |Flatten(scripts)|
    ensures TreeRun(children, scripts) == Stages(TreeLeaves(children), Flatten(scripts))
  {
    TreeLeavesScripted(children, scripts);
    if children != [] {
      var c, leaves := children[0], FreezePlan(children[0], children[0].key).value;
      ScriptedTail(children, scripts);
      ChildScopesExactly(c);
      ScopeStages(leaves, leaves, scripts[0]);
      TreeRunIsStages(children[1..], scripts[1..]);
      StagesAppend(leaves, TreeLeaves(children[1..]), scripts[0], Flatten(scripts[1..]));
    }
  }

  /** Freezing a target below its name gives the tree's leaves with the name in front. */
  lemma {:induction false} TargetLeaves(parent: Plan, children: seq<Plan>, node: string, seen: set<string>)
    requires forall c <- children :: c in parent.children
    requires (forall c <- children :: c.key != "") && node != "" && FreezeChildren(parent, children, node, seen).Ok?
    ensures AllFreeze(children)
    ensures FreezeChildren(parent, children, node, seen).value == PrefixLeaves(node, TreeLeaves(children))
    decreases |children|
  {
    hide FreezePlan;
    if children != [] {
      var c := children[0];
      assert c in children && Segment(c) == c.key;
      FreezeBelow(c, node, c.key);
      TargetLeaves(parent, children[1..], node, seen + {c.key});
      PrefixAppend(node, FreezePlan(c, c.key), Ok(TreeLeaves(children[1..])));
      assert children == [c] + children[1..];
    }
  }

  lemma {:induction false} TreeLeavesHaveIds(children: seq<Plan>)
    requires ChildrenShaped(children) && AllFreeze(children)
    ensures forall l <- TreeLeaves(children) :: l.id != ""
  {
    if children != [] {
      assert children[0] in children;
      ChildScopesExactly(children[0]);
      TreeLeavesHaveIds(children[1..]);
    }
  }

  /** A component without a tree emits the identities of its leaves, which are the tree's ids. */
  lemma {:induction false} FlatTreeLeaves(children: seq<Plan>)
    requires AllLeaves(children) && forall c <- children :: c.key != ""
    ensures |TreeLeaves(children)| == |children|
    ensures forall i :: 0 <= i < |children| ==> TreeLeaves(children)[i] == Leaf(children[i].key, children[i].step.value)
  {
    if children != [] {
      assert children[0] in children;
      FlatTreeLeaves(children[1..]);
      assert TreeLeaves(children) == [Leaf(children[0].key, children[0].step.value)] + TreeLeaves(children[1..]);
    }
  }

  predicate Conforms(c: Component) {
    && IsTargetPlan(c.plan)
    && (c.Tree? ==> Scripted(c.plan.children, c.scripts))
    && (c.Direct? ==> IsFlat(c.plan) && |c.script| == |c.plan.children|)
  }

  /** What a component emits before the driver adds the target name. */
  function Run(c: Component): Emission
    requires Conforms(c)
  {
    match c
    case Tree(plan, scripts) => TreeRun(plan.children, scripts)
    case Direct(plan, script) => Stages(OwnLeaves(plan.children), script)
  }

  /** The leaves of an unscoped component, under their bare identities. */
  function OwnLeaves(children: seq<Plan>): (leaves: seq<Leaf>)
    requires AllLeaves(children)
    ensures |leaves| == |children|
    ensures forall i :: 0 <= i < |leaves| ==>
              leaves[i] == Leaf(children[i].step.value.Identity(), children[i].step.value)
  {
    seq(|children|, i requires 0 <= i < |children| =>
      Leaf(children[i].step.value.Identity(), children[i].step.value))
  }

  function Outcomes(c: Component): seq<Outcome> {
    match c
    case Tree(_, scripts) => Flatten(scripts)
    case Direct(_, script) => script
  }

  /** The driver's event: the target name in front of the leaf id. */
  function PrefixEvent(node: string, e: Event): Event {
    Event(e.action, e.step, node + SEPARATOR + (if e.leafId != "" then e.leafId else e.step.Identity()))
  }

  function PrefixEvents(node: string, events: seq<Event>): (r: seq<Event>)
    ensures |r| == |events|
  {
    seq(|events|, i requires 0 <= i < |events| => PrefixEvent(node, events[i]))
  }

  lemma {:induction false} PrefixStages(node: string, leaves: seq<Leaf>, outcomes: seq<Outcome>)
    requires |leaves| == |outcomes| && forall l <- leaves :: l.id != ""
    ensures Stages(PrefixLeaves(node, leaves), outcomes) ==
            Emission(PrefixEvents(node, Stages(leaves, outcomes).events), Stages(leaves, outcomes).end)
  {
    if leaves != [] {
      var head := Stage(leaves[0], outcomes[0]);
      assert PrefixLeaves(node, leaves)[1..] == PrefixLeaves(node, leaves[1..]);
      PrefixStages(node, leaves[1..], outcomes[1..]);
      assert PrefixEvents(node, head) == Stage(PrefixLeaf(node, leaves[0]), outcomes[0]);
      PrefixEventsAppend(node, head, Stages(leaves[1..], outcomes[1..]).events);
    }
  }

  lemma PrefixEventsAppend(node: string, a: seq<Event>, b: seq<Event>)
    ensures PrefixEvents(node, a + b) == PrefixEvents(node, a) + PrefixEvents(node, b)
  {
  }

  /** After scoping and prefixing, a component emits exactly its frozen leaves in order. */
  lemma ComponentEmitsFrozenLeaves(c: Component)
    requires Conforms(c) && FreezePlan(c.plan, c.plan.key).Ok?
    ensures |FreezePlan(c.plan, c.plan.key).value| == |Outcomes(c)|
    ensures
      Emission(PrefixEvents(c.plan.key, Run(c).events), Run(c).end) ==
      Stages(FreezePlan(c.plan, c.plan.key).value, Outcomes(c))
  {
    var children, node := c.plan.children, c.plan.key;
    TargetLeaves(c.plan, children, node, {});
    TreeLeavesHaveIds(children);
    match c {
      case Tree(_, scripts) =>
        TreeRunIsStages(children, scripts);
      case Direct(_, script) =>
        FlatTreeLeaves(children);
        assert OwnLeaves(children) == TreeLeaves(children);
    }
    assert Run(c) == Stages(TreeLeaves(children), Outcomes(c));
    PrefixStages(node, TreeLeaves(children), Outcomes(c));
  }

  // ----- the reporter -----

  datatype SemanticStep = SemanticStep(target: string, name: string, leafId: string) {
    function Identity(): string {
      if leafId != "" then leafId else target + ":" + name
    }
  }

  datatype ReporterError = NotInPlan | OutOfOrder | NotStarted

  /** The part of `ProgressReporter` that decides. */
  datatype Progress = Progress(completed: nat, skipped: seq<SemanticStep>, started: Option<SemanticStep>,
                               failed: Option<SemanticStep>)

  /** The positions of the steps with an identity. */
  function Positions(steps: seq<SemanticStep>, identity: string, from: nat): (r: seq<nat>)
    requires from <= |steps|
    ensures forall j :: 0 <= j < |r| ==> from <= r[j] < |steps| && steps[r[j]].Identity() == identity
    decreases |steps| - from
  {
    if from == |steps| then []
    else (if steps[from].Identity() == identity then [from] else []) + Positions(steps, identity, from + 1)
  }

  /** What one event does to the reporter. */
  function EmitSpec(steps: seq<SemanticStep>, p: Progress, action: Action, identity: string)
    : Result<Progress, ReporterError>
  {
    var matches := Positions(steps, identity, 0);
    if |matches| != 1 then Err(NotInPlan)
    else
      var position, step := matches[0], steps[matches[0]];
      match action
      case Start =>
        if position != p.completed || p.started.Some? then Err(OutOfOrder) else Ok(p.(started := Some(step)))
      case Complete =>
        if p.started != Some(step) then Err(NotStarted)
        else if position != p.completed then Err(OutOfOrder)
        else Ok(p.(completed := p.completed + 1, started := None))
      case Skip =>
        if p.started != None && p.started != Some(step) then Err(NotStarted)
        else if position != p.completed then Err(OutOfOrder)
        else Ok(p.(completed := p.completed + 1, skipped := p.skipped + [step], started := None))
      case Fail =>
        if p.started != Some(step) then Err(NotStarted) else Ok(p.(failed := Some(step)))
  }

  class Reporter {
    const steps: seq<SemanticStep>
    var completed: nat
    var skipped: seq<SemanticStep>
    var started: Option<SemanticStep>
    var failed: Option<SemanticStep>

    constructor (steps: seq<SemanticStep>)
      ensures this.steps == steps && View() == Progress(0, [], None, None)
    {
      this.steps := steps;
      completed, skipped, started, failed := 0, [], None, None;
    }

    function View(): Progress
      reads this
    {
      Progress(completed, skipped, started, failed)
    }

    /** A rejected event leaves the reporter as it was. */
    method Emit(action: Action, event: SemanticStep) returns (r: Result<(), ReporterError>)
      modifies this
      ensures match EmitSpec(steps, old(View()), action, event.Identity())
        case Ok(next) => r == Ok(()) && View() == next
        case Err(e) => r == Err(e) && View() == old(View())
    {
      var matches := Positions(steps, event.Identity(), 0);
      if |matches| != 1 {
        return Err(NotInPlan);
      }
      var step := steps[matches[0]];
      var position := matches[0] + 1;
      if action == Start {
        if position != completed + 1 || started.Some? {
          return Err(OutOfOrder);
        }
        started := Some(step);
      } else if action == Complete || action == Skip {
        if action == Complete && started != Some(step) {
          return Err(NotStarted);
        }
        if action == Skip && started != None && started != Some(step) {
          return Err(NotStarted);
        }
        if position != completed + 1 {
          return Err(OutOfOrder);
        }
        completed := completed + 1;
        if action == Skip {
          skipped := skipped + [step];
        }
        started := None;
      } else {
        if started != Some(step) {
          return Err(NotStarted);
        }
        failed := Some(step);
      }
      r := Ok(());
    }
  }

  // ----- the reporter follows the frozen plan -----

  function FirstSegment(id: string): string {
    if id == "" || id[0] == '/' then "" else [id[0]] + FirstSegment(id[1..])
  }

  function StepOf(l: Leaf): SemanticStep {
    SemanticStep(FirstSegment(l.id), l.step.name, l.id)
  }

  lemma {:induction false} FirstSegmentOf(node: string, rest: string)
    requires '/' !in node
    ensures FirstSegment(node + SEPARATOR + rest) == node && FirstSegment(node) == node
  {
    if node != "" {
      var id := node + SEPARATOR + rest;
      assert id[0] == node[0] && id[1..] == node[1..] + SEPARATOR + rest && node[0] in node;
      FirstSegmentOf(node[1..], rest);
    } else {
      assert (node + SEPARATOR + rest)[0] == '/';
    }
  }

  /** The step of a frozen leaf names the target it is below, its own name and its id, which identifies it. */
  lemma StepOfLeaf(l: Leaf, node: string, rest: string)
    requires l.id == node + SEPARATOR + rest && '/' !in node
    ensures StepOf(l) == SemanticStep(node, l.step.name, l.id) && StepOf(l).Identity() == l.id
  {
    FirstSegmentOf(node, rest);
  }

  /** Without a leaf id, an event is identified by its step, and a step by its target and name. */
  lemma WithoutLeafId(node: string, e: Event, target: string, name: string)
    requires e.leafId == ""
    ensures PrefixEvent(node, e) == Event(e.action, e.step, node + SEPARATOR + e.step.Identity())
    ensures SemanticStep(target, name, "").Identity() == target + ":" + name
  {
  }

  function StepsOf(leaves: seq<Leaf>): (r: seq<SemanticStep>)
    ensures |r| == |leaves|
    ensures forall i :: 0 <= i < |r| ==> r[i] == StepOf(leaves[i])
  {
    seq(|leaves|, i requires 0 <= i < |leaves| => StepOf(leaves[i]))
  }

  /** Feed events to the reporter, stopping at the first it rejects. */
  function Feed(steps: seq<SemanticStep>, p: Progress, events: seq<Event>): Result<Progress, ReporterError>
    decreases |events|
  {
    if events == [] then Ok(p)
    else match EmitSpec(steps, p, events[0].action, events[0].leafId)
      case Err(e) => Err(e)
      case Ok(next) => Feed(steps, next, events[1..])
  }

  /** The leaves a run gets past: those before the first that raises. */
  function Passed(outcomes: seq<Outcome>): (k: nat)
    ensures k <= |outcomes|
    ensures forall i :: 0 <= i < k ==> Continues(outcomes[i])
    ensures k < |outcomes| ==> !Continues(outcomes[k])
  {
    if outcomes == [] || !Continues(outcomes[0]) then 0 else 1 + Passed(outcomes[1..])
  }

  function SkippedSteps(steps: seq<SemanticStep>, outcomes: seq<Outcome>): seq<SemanticStep>
    requires |steps| == |outcomes|
  {
    if steps == [] || !Continues(outcomes[0]) then []
    else (if outcomes[0] == Skipped then [steps[0]] else []) + SkippedSteps(steps[1..], outcomes[1..])
  }

  /**
   Where the reporter must end: as many steps completed as leaves were passed, and the failed step
   is the one at that index, if that leaf failed.
   */
  function Expected(steps: seq<SemanticStep>, outcomes: seq<Outcome>): Progress
    requires |steps| == |outcomes|
  {
    var k := Passed(outcomes);
    var failed := if k < |steps| && outcomes[k] == Failed then Some(steps[k]) else None;
    Progress(k, SkippedSteps(steps, outcomes), failed, failed)
  }

  predicate Plannable(leaves: seq<Leaf>) {
    DistinctIds(leaves) && forall l <- leaves :: l.id != ""
  }

  lemma {:induction false} OnePosition(steps: seq<SemanticStep>, i: nat, from: nat)
    requires from <= i < |steps|
    requires forall j, k :: 0 <= j < k < |steps| ==> steps[j].Identity() != steps[k].Identity()
    ensures Positions(steps, steps[i].Identity(), from) == [i]
    decreases |steps| - from
  {
    if from < i {
      assert steps[from].Identity() != steps[i].Identity();
      OnePosition(steps, i, from + 1);
    } else {
      NoPosition(steps, steps[i].Identity(), i + 1);
    }
  }

  lemma {:induction false} NoPosition(steps: seq<SemanticStep>, identity: string, from: nat)
    requires from <= |steps| && forall k :: from <= k < |steps| ==> steps[k].Identity() != identity
    ensures Positions(steps, identity, from) == []
    decreases |steps| - from
  {
    if from < |steps| {
      NoPosition(steps, identity, from + 1);
    }
  }

  lemma PlannedPosition(leaves: seq<Leaf>, i: nat)
    requires Plannable(leaves) && i < |leaves|
    ensures Positions(StepsOf(leaves), leaves[i].id, 0) == [i]
  {
    var steps := StepsOf(leaves);
    forall j, k | 0 <= j < k < |steps|
      ensures steps[j].Identity() != steps[k].Identity()
    {
      assert leaves[j] in leaves && leaves[k] in leaves;
    }
    assert leaves[i] in leaves;
    OnePosition(steps, i, 0);
  }

  /** The steps that accepted events have completed or skipped. */
  function Finishing(events: seq<Event>): seq<string>
    decreases |events|
  {
    if events == [] then []
    else (if events[0].action.Complete? || events[0].action.Skip? then [events[0].leafId] else [])
         + Finishing(events[1..])
  }

  /** Where a reporter may be: some steps completed, and only the next one started. */
  predicate Following(steps: seq<SemanticStep>, p: Progress) {
    && p.completed <= |steps|
    && (p.started.Some? ==> p.completed < |steps| && p.started.value == steps[p.completed])
  }

  function Ids(steps: seq<SemanticStep>): (ids: seq<string>)
    ensures |ids| == |steps| && forall i :: 0 <= i < |ids| ==> ids[i] == steps[i].Identity()
  {
    seq(|steps|, i requires 0 <= i < |steps| => steps[i].Identity())
  }

  lemma OnePositionIs(steps: seq<SemanticStep>, identity: string)
    ensures var matches := Positions(steps, identity, 0);
            |matches| == 1 ==> matches[0] < |steps| && steps[matches[0]].Identity() == identity
  {
  }

  /** An accepted event finishes the next step, or none. */
  lemma EmitInOrder(steps: seq<SemanticStep>, p: Progress, action: Action, identity: string)
    requires Following(steps, p) && EmitSpec(steps, p, action, identity).Ok?
    ensures var q := EmitSpec(steps, p, action, identity).value;
            && Following(steps, q)
            && q.completed == p.completed + (if action.Complete? || action.Skip? then 1 else 0)
            && (!action.Fail? ==> p.completed < |steps| && identity == steps[p.completed].Identity())
            && (action.Complete? ==> p.started == Some(steps[p.completed]))
            && (action.Start? ==> p.started.None?)
  {
    hide Positions;
    OnePositionIs(steps, identity);
  }

  /**
   * Whatever events are fed to the reporter, those it accepts finish the steps of the plan in order, each once and
   * from the first that is not finished: an event out of order, or of no step, is rejected.
   */
  lemma {:induction false} AcceptedInOrder(steps: seq<SemanticStep>, p: Progress, events: seq<Event>)
    requires Following(steps, p) && Feed(steps, p, events).Ok?
    ensures var q := Feed(steps, p, events).value;
            && Following(steps, q) && p.completed <= q.completed
            && Finishing(events) == Ids(steps[p.completed..q.completed])
    decreases |events|
  {
    hide EmitSpec;
    if events != [] {
      var e := events[0];
      var next := EmitSpec(steps, p, e.action, e.leafId).value;
      EmitInOrder(steps, p, e.action, e.leafId);
      AcceptedInOrder(steps, next, events[1..]);
      var q := Feed(steps, p, events).value;
      if next.completed == p.completed + 1 {
        assert Ids(steps[p.completed..q.completed])
            == [steps[p.completed].Identity()] + Ids(steps[next.completed..q.completed]);
      }
    }
  }

  /** A reporter that has completed `k` steps and is idle. */
  function Idle(k: nat, skipped: seq<SemanticStep>): Progress {
    Progress(k, skipped, None, None)
  }

  /** One leaf's events move an idle reporter past the leaf, or leave it where it raised. */
  lemma FeedStage(leaves: seq<Leaf>, k: nat, skipped: seq<SemanticStep>, outcome: Outcome, later: seq<Event>)
    requires Plannable(leaves) && k < |leaves|
    ensures
      var steps, step := StepsOf(leaves), StepOf(leaves[k]);
      Feed(steps, Idle(k, skipped), Stage(leaves[k], outcome) + later) ==
      match outcome
      case Done => Feed(steps, Idle(k + 1, skipped), later)
      case Skipped => Feed(steps, Idle(k + 1, skipped + [step]), later)
      case Failed => Feed(steps, Progress(k, skipped, Some(step), Some(step)), later)
      case Broken => Feed(steps, Idle(k, skipped), later)
  {
    hide Positions, Plannable, StepOf;
    var steps, step := StepsOf(leaves), StepOf(leaves[k]);
    PlannedPosition(leaves, k);
    var events := Stage(leaves[k], outcome) + later;
    match outcome {
      case Done =>
        assert events[1..] == [Event(Complete, leaves[k].step, leaves[k].id)] + later;
        assert events[1..][1..] == later;
      case Skipped =>
        assert events[1..] == later;
      case Failed =>
        assert events[1..] == [Event(Fail, leaves[k].step, leaves[k].id)] + later;
        assert events[1..][1..] == later;
      case Broken =>
        assert events == later;
    }
  }

  lemma ExpectedEmpty(skipped: seq<SemanticStep>)
    ensures Expected([], []) == Idle(0, []) && skipped + [] == skipped
  {
  }

  /** How the expected end changes with the first outcome. */
  lemma ExpectedStep(steps: seq<SemanticStep>, outcomes: seq<Outcome>, skipped: seq<SemanticStep>)
    requires |steps| == |outcomes| > 0
    ensures
      var all, rest := Expected(steps, outcomes), Expected(steps[1..], outcomes[1..]);
      match outcomes[0]
      case Done => all == rest.(completed := 1 + rest.completed)
      case Skipped =>
        && all == rest.(completed := 1 + rest.completed, skipped := [steps[0]] + rest.skipped)
        && skipped + all.skipped == skipped + [steps[0]] + rest.skipped
      case Failed => all == Progress(0, [], Some(steps[0]), Some(steps[0])) && skipped + all.skipped == skipped
      case Broken => all == Idle(0, []) && skipped + all.skipped == skipped
  {
    var k := Passed(outcomes[1..]);
    assert Continues(outcomes[0]) && 1 + k < |steps| ==>
        steps[1..][k] == steps[1 + k] && outcomes[1..][k] == outcomes[1 + k];
  }

  /** From an idle reporter that has completed `k` steps, the rest of the run ends as expected. */
  lemma {:induction false} FeedRest(leaves: seq<Leaf>, k: nat, skipped: seq<SemanticStep>, outcomes: seq<Outcome>)
    requires Plannable(leaves) && k <= |leaves| && |outcomes| == |leaves| - k
    ensures
      var rest := Expected(StepsOf(leaves)[k..], outcomes);
      Feed(StepsOf(leaves), Idle(k, skipped), Stages(leaves[k..], outcomes).events) ==
      Ok(rest.(completed := k + rest.completed, skipped := skipped + rest.skipped))
    decreases |outcomes|
  {
    hide Plannable, EmitSpec, StepOf, Stage, Expected;
    var steps := StepsOf(leaves);
    ExpectedEmpty(skipped);
    if outcomes == [] {
      assert skipped + [] == skipped;
    } else {
      var step, later := steps[k], Stages(leaves[k + 1..], outcomes[1..]).events;
      assert leaves[k..][0] == leaves[k] && leaves[k..][1..] == leaves[k + 1..];
      assert steps[k..][0] == step && steps[k..][1..] == steps[k + 1..];
      ExpectedStep(steps[k..], outcomes, skipped);
      if Continues(outcomes[0]) {
        FeedStage(leaves, k, skipped, outcomes[0], later);
        FeedRest(leaves, k + 1, if outcomes[0] == Skipped then skipped + [step] else skipped, outcomes[1..]);
      } else {
        FeedStage(leaves, k, skipped, outcomes[0], []);
        assert Stage(leaves[k], outcomes[0]) + [] == Stage(leaves[k], outcomes[0]);
      }
    }
  }

  // ----- the whole run -----

  function RootPlan(components: seq<Component>): Plan {
    Plan("distribution", seq(|components|, i requires 0 <= i < |components| => components[i].plan), None, "")
  }

  predicate AllConform(components: seq<Component>) {
    forall i :: 0 <= i < |components| ==> Conforms(components[i])
  }

  function AllOutcomes(components: seq<Component>): seq<Outcome> {
    if components == [] then [] else Outcomes(components[0]) + AllOutcomes(components[1..])
  }

  /** The components one after the other, with the driver's prefix. */
  function RunAll(components: seq<Component>): Emission
    requires AllConform(components)
  {
    if components == [] then Emission([], Finished)
    else
      var c := components[0];
      Then(Emission(PrefixEvents(c.plan.key, Run(c).events), Run(c).end), RunAll(components[1..]))
  }

  /** The leaves the run should emit: those of each target in turn. */
  lemma {:induction false} RunAllIsStages(parent: Plan, children: seq<Plan>,
                                     components: seq<Component>, seen: set<string>)
    requires forall c <- children :: c in parent.children
    requires AllConform(components) && |components| == |children|
    requires forall i :: 0 <= i < |components| ==> components[i].plan == children[i]
    requires FreezeChildren(parent, children, "", seen).Ok?
    ensures |FreezeChildren(parent, children, "", seen).value| == |AllOutcomes(components)|
    ensures RunAll(components) == Stages(FreezeChildren(parent, children, "", seen).value, AllOutcomes(components))
    ensures forall l <- FreezeChildren(parent, children, "", seen).value :: l.id != ""
    decreases |children|
  {
    hide Run, Outcomes, Conforms;
    if children != [] {
      var c := components[0];
      KeyOf(c);
      var leaves := FreezePlan(c.plan, c.plan.key).value;
      ComponentEmitsFrozenLeaves(c);
      FrozenIds(c.plan, c.plan.key);
      RunAllIsStages(parent, children[1..], components[1..], seen + {c.plan.key});
      StagesAppend(leaves, FreezeChildren(parent, children[1..], "", seen + {c.plan.key}).value,
                   Outcomes(c), AllOutcomes(components[1..]));
    }
  }

  lemma KeyOf(c: Component)
    requires Conforms(c)
    ensures c.plan.key != "" && Segment(c.plan) == c.plan.key
  {
  }

  datatype RunError = PlanRejected(segment: string) | EventRejected(error: ReporterError)

  /**
   A packaging run: freeze the plan, then run the components and report each event. When the plan
   freezes, no event is rejected, the events are exactly the frozen leaves in order, and the reporter
   ends where the outcomes say: everything completed, or stopped at the first leaf that raised.
   */
  method Package(components: seq<Component>)
    returns (r: Result<Progress, RunError>, finished: bool, ghost steps: seq<SemanticStep>, ghost leaves: seq<Leaf>)
    requires AllConform(components)
    ensures FreezePlan(RootPlan(components), "").Err? <==> r.Err?
    ensures r.Err? ==> r.error.PlanRejected?
    ensures r.Ok? ==> leaves == FreezePlan(RootPlan(components), "").value && steps == StepsOf(leaves)
    ensures r.Ok? ==> DistinctIds(leaves) && |leaves| == |AllOutcomes(components)|
    ensures r.Ok? ==> RunAll(components) == Stages(leaves, AllOutcomes(components))
    ensures r.Ok? ==> r.value == Expected(steps, AllOutcomes(components))
    ensures r.Ok? ==> (finished <==> forall o <- AllOutcomes(components) :: Continues(o))
  {
    hide Conforms, RunAll, EmitSpec, Expected, FreezePlan, RootPlan, Stages, DistinctIds;
    steps, leaves, finished := [], [], false;
    var plan := RootPlan(components);
    var frozen := Freeze(plan, "");
    if frozen.Err? {
      return Err(PlanRejected(frozen.error.segment)), false, [], [];
    }
    leaves, steps := frozen.value, StepsOf(frozen.value);
    RunIsExpected(components);
    var reporter := new Reporter(StepsOf(frozen.value));
    var emission := RunAll(components);
    var events := emission.events;
    assert events[0..] == events;
    for i := 0 to |events|
      invariant Feed(steps, reporter.View(), events[i..]) == Ok(Expected(steps, AllOutcomes(components)))
    {
      assert events[i..][0] == events[i] && events[i..][1..] == events[i + 1..];
      var event := events[i];
      PlannedIdentity(components, i);
      var accepted := reporter.Emit(event.action,
                                      SemanticStep(FirstSegment(event.leafId), event.step.name, event.leafId));
      match accepted {
        case Ok(_) =>
        case Err(e) => return Err(EventRejected(e)), false, steps, leaves;
      }
    }
    finished := emission.end == Finished;
    r := Ok(reporter.View());
  }

  /** What a run emits, and where it takes the reporter. */
  lemma RunIsExpected(components: seq<Component>)
    requires AllConform(components) && FreezePlan(RootPlan(components), "").Ok?
    ensures
      var leaves := FreezePlan(RootPlan(components), "").value;
      && DistinctIds(leaves) && |leaves| == |AllOutcomes(components)|
      && RunAll(components) == Stages(leaves, AllOutcomes(components))
      && Feed(StepsOf(leaves), Idle(0, []), RunAll(components).events) ==
         Ok(Expected(StepsOf(leaves), AllOutcomes(components)))
      && (RunAll(components).end == Finished <==> forall o <- AllOutcomes(components) :: Continues(o))
  {
    hide Conforms, RunAll, EmitSpec, Expected, Stages, FreezeChildren, DistinctIds;
    var plan := RootPlan(components);
    var leaves, outcomes := FreezePlan(plan, "").value, AllOutcomes(components);
    RunAllIsStages(plan, plan.children, components, {});
    FrozenIds(plan, "");
    FeedRest(leaves, 0, [], outcomes);
    assert StepsOf(leaves)[0..] == StepsOf(leaves) && leaves[0..] == leaves;
    var expected := Expected(StepsOf(leaves), outcomes);
    assert [] + expected.skipped == expected.skipped;
    StagesEnd(leaves, outcomes);
  }

  /** Every event of a run names a leaf. */
  lemma PlannedIdentity(components: seq<Component>, i: nat)
    requires AllConform(components) && i < |RunAll(components).events|
    ensures RunAll(components).events[i].leafId != ""
    decreases |components|
  {
    var c := components[0];
    var first := PrefixEvents(c.plan.key, Run(c).events);
    if i >= |first| {
      PlannedIdentity(components[1..], i - |first|);
    }
  }

  lemma {:induction false} StagesEnd(leaves: seq<Leaf>, outcomes: seq<Outcome>)
    requires |leaves| == |outcomes|
    ensures Stages(leaves, outcomes).end == Finished <==> forall o <- outcomes :: Continues(o)
  {
    if outcomes != [] {
      StagesEnd(leaves[1..], outcomes[1..]);
      assert outcomes == [outcomes[0]] + outcomes[1..];
    }
  }

  /** A finished run has completed every step and failed none; a failed one has completed those before it. */
  lemma ExpectedMeaning(steps: seq<SemanticStep>, outcomes: seq<Outcome>)
    requires |steps| == |outcomes|
    ensures (forall o <- outcomes :: Continues(o)) ==>
      Expected(steps, outcomes).completed == |steps| && Expected(steps, outcomes).failed == None
    ensures forall i ::
      0 <= i < |outcomes| && outcomes[i] == Failed && (forall j :: 0 <= j < i ==> Continues(outcomes[j])) ==>
        Expected(steps, outcomes).completed == i && Expected(steps, outcomes).failed == Some(steps[i])
  {
    var k := Passed(outcomes);
    assert k < |outcomes| ==> outcomes[k] in outcomes;
  }
}
