/**
 Component plans of build_progress.py and the tree components of build_distribution.py: frozen
 leaf ids, and the scoping of the events that components emit.
 A missing key or leaf id is the empty string, which Python's `or` treats alike.
 */
module ComponentTree {
  import opened Bytes

  datatype Step = Step(name: string, key: string) {
    function Identity(): string {
      if key != "" then key else name
    }
  }

  datatype Plan = Plan(name: string, children: seq<Plan>, step: Option<Step>, key: string)

  /** `ComponentPlan.leaf`. */
  function LeafPlan(step: Step): Plan {
    Plan(step.name, [], Some(step), step.Identity())
  }

  /** An executable leaf with its id. */
  datatype Leaf = Leaf(id: string, step: Step)

  datatype PlanError = InvalidKey(segment: string)

  const SEPARATOR: string := "/"

  function Segment(child: Plan): string {
    if child.key != "" then child.key
    else if child.step.Some? then child.step.value.Identity()
    else child.name
  }

  function ChildPrefix(prefix: string, segment: string): string {
    if prefix != "" then prefix + SEPARATOR + segment else segment
  }

  predicate ValidSegment(segment: string, seen: set<string>) {
    segment != "" && '/' !in segment && segment !in seen
  }

  /** `freeze_plan`: the executable leaves with their hierarchical ids. */
  function FreezePlan(plan: Plan, prefix: string): Result<seq<Leaf>, PlanError>
    decreases plan, 1
  {
    if plan.step.Some? then
      Ok([Leaf(if prefix != "" then prefix else plan.step.value.Identity(), plan.step.value)])
    else FreezeChildren(plan, plan.children, prefix, {})
  }

  function FreezeChildren(parent: Plan, children: seq<Plan>, prefix: string, seen: set<string>)
    : Result<seq<Leaf>, PlanError>
    requires forall c <- children :: c in parent.children
    decreases parent, 0, |children|
  {
    if children == [] then Ok([])
    else
      var segment := Segment(children[0]);
      assert children[0] in parent.children;
      if !ValidSegment(segment, seen) then Err(InvalidKey(segment))
      else match FreezePlan(children[0], ChildPrefix(prefix, segment))
        case Err(e) => Err(e)
        case Ok(head) =>
          match FreezeChildren(parent, children[1..], prefix, seen + {segment})
          case Err(e) => Err(e)
          case Ok(tail) => Ok(head + tail)
  }

  /** The loop of `freeze_plan`, with the leaves so far and the segments seen. */
  method Freeze(plan: Plan, prefix: string) returns (r: Result<seq<Leaf>, PlanError>)
    ensures r == FreezePlan(plan, prefix)
    decreases plan
  {
    if plan.step.Some? {
      return Ok([Leaf(if prefix != "" then prefix else plan.step.value.Identity(), plan.step.value)]);
    }
    var leaves: seq<Leaf> := [];
    var seen: set<string> := {};
    assert plan.children[0..] == plan.children;
    PrependTwice([], [], FreezePlan(plan, prefix));
    for i := 0 to |plan.children|
      invariant FreezePlan(plan, prefix) == Prepend(leaves, FreezeChildren(plan, plan.children[i..], prefix, seen))
    {
      var child := plan.children[i];
      assert plan.children[i..][0] == child && plan.children[i..][1..] == plan.children[i + 1..];
      var segment := Segment(child);
      if !ValidSegment(segment, seen) {
        return Err(InvalidKey(segment));
      }
      var inner := Freeze(child, ChildPrefix(prefix, segment));
      if inner.Err? {
        return inner;
      }
      ghost var later := FreezeChildren(plan, plan.children[i + 1..], prefix, seen + {segment});
      PrependTwice(leaves, inner.value, later);
      seen := seen + {segment};
      leaves := leaves + inner.value;
    }
    assert leaves + [] == leaves;
    r := Ok(leaves);
  }

  function Prepend(leaves: seq<Leaf>, r: Result<seq<Leaf>, PlanError>): Result<seq<Leaf>, PlanError> {
    match r
    case Ok(more) => Ok(leaves + more)
    case Err(e) => Err(e)
  }

  lemma PrependTwice(a: seq<Leaf>, b: seq<Leaf>, r: Result<seq<Leaf>, PlanError>)
    ensures Prepend(a, Prepend(b, r)) == Prepend(a + b, r)
    ensures Prepend([], r) == r
  {
    if r.Ok? {
      assert [] + r.value == r.value;
      assert a + (b + r.value) == a + b + r.value;
    }
  }

  // ----- names stand in for missing keys -----

  /** A leaf is named by its key or else its name, alone or below a prefix, and so is a subtree among its siblings. */
  lemma NamesStandIn(step: Step, leaf: Plan, subtree: Plan, prefix: string)
    requires leaf.step == Some(step) && leaf.key == "" && subtree.step.None? && subtree.key == ""
    ensures step.Identity() == (if step.key == "" then step.name else step.key)
    ensures FreezePlan(leaf, "") == Ok([Leaf(step.Identity(), step)])
    ensures prefix != "" ==> FreezePlan(leaf, prefix) == Ok([Leaf(prefix, step)])
    ensures Segment(leaf) == step.Identity() && Segment(subtree) == subtree.name
    ensures forall key :: key != "" ==> Segment(leaf.(key := key)) == key && Segment(subtree.(key := key)) == key
  {
  }

  // ----- which plans freeze -----

  /** The segments of siblings are usable, pairwise distinct, and none of `seen`. */
  predicate KeysFit(children: seq<Plan>, seen: set<string>) {
    && (forall i :: 0 <= i < |children| ==> ValidSegment(Segment(children[i]), seen))
    && (forall i, j :: 0 <= i < j < |children| ==> Segment(children[i]) != Segment(children[j]))
  }

  /** At every level the segments are non-empty, free of slashes and distinct. */
  predicate WellKeyed(plan: Plan) {
    plan.step.Some? || (KeysFit(plan.children, {}) && forall c <- plan.children :: WellKeyed(c))
  }

  /** A plan freezes exactly when it is well keyed, below any prefix. */
  lemma {:induction false} FreezesExactly(plan: Plan, prefix: string)
    ensures FreezePlan(plan, prefix).Ok? <==> WellKeyed(plan)
    decreases plan, 1
  {
    if plan.step.None? { ChildrenFreezeExactly(plan, plan.children, prefix, {}); }
  }

  lemma {:induction false} ChildrenFreezeExactly(parent: Plan, children: seq<Plan>, prefix: string, seen: set<string>)
    requires forall c <- children :: c in parent.children
    ensures FreezeChildren(parent, children, prefix, seen).Ok?
       <==> KeysFit(children, seen) && forall c <- children :: WellKeyed(c)
    decreases parent, 0, |children|
  {
    hide WellKeyed, FreezePlan;
    if children != [] {
      var segment := Segment(children[0]);
      assert children[0] in parent.children;
      FreezesExactly(children[0], ChildPrefix(prefix, segment));
      ChildrenFreezeExactly(parent, children[1..], prefix, seen + {segment});
      FitsFirst(children, seen);
      assert children == [children[0]] + children[1..];
    }
  }

  lemma FitsFirst(children: seq<Plan>, seen: set<string>)
    requires children != []
    ensures var segment := Segment(children[0]);
            KeysFit(children, seen) <==> ValidSegment(segment, seen) && KeysFit(children[1..], seen + {segment})
  {
    hide Segment;
    var segment := Segment(children[0]);
    if KeysFit(children, seen) {
      forall i | 0 <= i < |children| - 1
        ensures ValidSegment(Segment(children[1..][i]), seen + {segment})
      {
        assert children[1..][i] == children[i + 1];
      }
    }
    if ValidSegment(segment, seen) && KeysFit(children[1..], seen + {segment}) {
      forall i | 0 < i < |children|
        ensures ValidSegment(Segment(children[i]), seen) && Segment(children[i]) != segment
      {
        assert children[i] == children[1..][i - 1];
      }
      forall i, j | 0 < i < j < |children|
        ensures Segment(children[i]) != Segment(children[j])
      {
        assert children[i] == children[1..][i - 1] && children[j] == children[1..][j - 1];
      }
    }
  }

  // ----- frozen ids are distinct -----

  /** `id` is `prefix` or lies below it. */
  predicate Under(id: string, prefix: string) {
    id == prefix || prefix + SEPARATOR <= id
  }

  lemma UnderChild(id: string, prefix: string, segment: string)
    requires Under(id, ChildPrefix(prefix, segment)) && prefix != ""
    ensures Under(id, prefix)
  {
    var longer := ChildPrefix(prefix, segment);
    assert longer <= id;
    assert prefix + SEPARATOR <= longer;
  }

  /** The characters of an id that lies under `stem + s`. */
  lemma UnderCharacters(id: string, stem: string, s: string)
    requires Under(id, stem + s)
    ensures |id| >= |stem| + |s|
    ensures forall k :: 0 <= k < |s| ==> id[|stem| + k] == s[k]
    ensures |id| > |stem| + |s| ==> id[|stem| + |s|] == '/'
  {
    forall k | 0 <= k < |s|
      ensures id[|stem| + k] == s[k]
    {
      assert id[..|stem + s|] == stem + s;
      assert id[|stem| + k] == id[..|stem + s|][|stem| + k];
    }
  }

  /** No id lies under two children. */
  lemma UnderOneChild(id: string, prefix: string, s: string, t: string)
    requires '/' !in s && '/' !in t
    requires Under(id, ChildPrefix(prefix, s)) && Under(id, ChildPrefix(prefix, t))
    ensures s == t
  {
    var stem := if prefix != "" then prefix + SEPARATOR else "";
    assert ChildPrefix(prefix, s) == stem + s && ChildPrefix(prefix, t) == stem + t;
    UnderCharacters(id, stem, s);
    UnderCharacters(id, stem, t);
  }

  predicate DistinctIds(leaves: seq<Leaf>) {
    forall i, j :: 0 <= i < j < |leaves| ==> leaves[i].id != leaves[j].id
  }

  /** Frozen ids are pairwise distinct and lie under the prefix, for every plan that freezes. */
  lemma {:induction false} FrozenIds(plan: Plan, prefix: string)
    requires FreezePlan(plan, prefix).Ok?
    ensures DistinctIds(FreezePlan(plan, prefix).value)
    ensures prefix != "" ==> forall l <- FreezePlan(plan, prefix).value :: Under(l.id, prefix)
    decreases plan, 1
  {
    if plan.step.None? {
      FrozenChildIds(plan, plan.children, prefix, {});
      if prefix != "" {
        forall l <- FreezePlan(plan, prefix).value
          ensures Under(l.id, prefix)
        {
          var s :| '/' !in s && s !in {} && Under(l.id, ChildPrefix(prefix, s));
          UnderChild(l.id, prefix, s);
        }
      }
    }
  }

  lemma {:induction false} FrozenChildIds(parent: Plan, children: seq<Plan>, prefix: string, seen: set<string>)
    requires forall c <- children :: c in parent.children
    requires FreezeChildren(parent, children, prefix, seen).Ok?
    ensures DistinctIds(FreezeChildren(parent, children, prefix, seen).value)
    ensures forall l <- FreezeChildren(parent, children, prefix, seen).value ::
      exists s :: '/' !in s && s !in seen && Under(l.id, ChildPrefix(prefix, s))
    decreases parent, 0, |children|
  {
    if children != [] {
      var segment := Segment(children[0]);
      var below := ChildPrefix(prefix, segment);
      var head := FreezePlan(children[0], below).value;
      var tail := FreezeChildren(parent, children[1..], prefix, seen + {segment}).value;
      assert children[0] in parent.children;
      FrozenIds(children[0], below);
      FrozenChildIds(parent, children[1..], prefix, seen + {segment});
      forall i, j | 0 <= i < |head| && 0 <= j < |tail|
        ensures head[i].id != tail[j].id
      {
        var s :| '/' !in s && s !in seen + {segment} && Under(tail[j].id, ChildPrefix(prefix, s));
        assert Under(head[i].id, below);
        if head[i].id == tail[j].id {
          UnderOneChild(head[i].id, prefix, s, segment);
        }
      }
      forall l <- head + tail
        ensures exists s :: '/' !in s && s !in seen && Under(l.id, ChildPrefix(prefix, s))
      {
        if l in head {
          assert Under(l.id, ChildPrefix(prefix, segment));
        } else {
          var s :| '/' !in s && s !in seen + {segment} && Under(l.id, ChildPrefix(prefix, s));
          assert s !in seen;
        }
      }
    }
  }

  // ----- moving a plan below a prefix -----

  function PrefixLeaf(node: string, l: Leaf): Leaf {
    Leaf(node + SEPARATOR + l.id, l.step)
  }

  function PrefixLeaves(node: string, leaves: seq<Leaf>): (r: seq<Leaf>)
    ensures |r| == |leaves|
    ensures forall i :: 0 <= i < |r| ==> r[i] == PrefixLeaf(node, leaves[i])
  {
    seq(|leaves|, i requires 0 <= i < |leaves| => PrefixLeaf(node, leaves[i]))
  }

  function PrefixResult(node: string, r: Result<seq<Leaf>, PlanError>): Result<seq<Leaf>, PlanError> {
    match r
    case Ok(leaves) => Ok(PrefixLeaves(node, leaves))
    case Err(e) => Err(e)
  }

  lemma PrefixAppend(node: string, a: Result<seq<Leaf>, PlanError>, b: Result<seq<Leaf>, PlanError>)
    ensures a.Ok? && b.Ok? ==>
      PrefixLeaves(node, a.value + b.value) == PrefixLeaves(node, a.value) + PrefixLeaves(node, b.value)
    ensures PrefixLeaves(node, []) == []
  {
  }

  /** Freezing below `node/prefix` is freezing below `prefix` and putting `node/` in front. */
  lemma {:induction false} FreezeBelow(plan: Plan, node: string, prefix: string)
    requires prefix != ""
    ensures FreezePlan(plan, node + SEPARATOR + prefix) == PrefixResult(node, FreezePlan(plan, prefix))
    decreases plan, 1
  {
    if plan.step.None? {
      FreezeChildrenBelow(plan, plan.children, node, prefix, {});
    } else {
      var leaf := Leaf(prefix, plan.step.value);
      assert PrefixLeaves(node, [leaf]) == [PrefixLeaf(node, leaf)];
    }
  }

  lemma {:induction false} FreezeChildrenBelow(parent: Plan, children: seq<Plan>, node: string, prefix: string,
                                               seen: set<string>)
    requires forall c <- children :: c in parent.children
    requires prefix != ""
    ensures FreezeChildren(parent, children, node + SEPARATOR + prefix, seen) ==
            PrefixResult(node, FreezeChildren(parent, children, prefix, seen))
    decreases parent, 0, |children|
  {
    if children != [] {
      var segment := Segment(children[0]);
      assert ChildPrefix(node + SEPARATOR + prefix, segment) == node + SEPARATOR + ChildPrefix(prefix, segment);
      assert children[0] in parent.children;
      FreezeBelow(children[0], node, ChildPrefix(prefix, segment));
      FreezeChildrenBelow(parent, children[1..], node, prefix, seen + {segment});
      PrefixAppend(node, FreezePlan(children[0], ChildPrefix(prefix, segment)),
                   FreezeChildren(parent, children[1..], prefix, seen + {segment}));
    }
  }

  // ----- events -----

  datatype Action = Start | Complete | Skip | Fail

  datatype Event = Event(action: Action, step: Step, leafId: string)

  /**
   What happens at one leaf of a component: its stage runs, is skipped, or fails; or code between
   two stages raises before the leaf is started.
   */
  datatype Outcome = Done | Skipped | Failed | Broken

  datatype End = Finished | ActionRaised | UnknownLeaf(id: string) | InvalidPlan(segment: string)

  /** The events a run emitted and how it ended. */
  datatype Emission = Emission(events: seq<Event>, end: End)

  /** `progress_stage`, `component_step` and `_event_leaf`: the events of one leaf. */
  function Stage(l: Leaf, outcome: Outcome): seq<Event> {
    match outcome
    case Done => [Event(Start, l.step, l.id), Event(Complete, l.step, l.id)]
    case Skipped => [Event(Skip, l.step, l.id)]
    case Failed => [Event(Start, l.step, l.id), Event(Fail, l.step, l.id)]
    case Broken => []
  }

  predicate Continues(outcome: Outcome) {
    outcome == Done || outcome == Skipped
  }

  /** Run one thing and, unless it raised, the next. */
  function Then(a: Emission, b: Emission): Emission {
    if a.end != Finished then a else Emission(a.events + b.events, b.end)
  }

  /** The events of leaves run in order. */
  function Stages(leaves: seq<Leaf>, outcomes: seq<Outcome>): Emission
    requires |leaves| == |outcomes|
  {
    if leaves == [] then Emission([], Finished)
    else Then(Emission(Stage(leaves[0], outcomes[0]), if Continues(outcomes[0]) then Finished else ActionRaised),
              Stages(leaves[1..], outcomes[1..]))
  }

  lemma {:induction false} StagesAppend(a: seq<Leaf>, b: seq<Leaf>, x: seq<Outcome>, y: seq<Outcome>)
    requires |a| == |x| && |b| == |y|
    ensures Stages(a + b, x + y) == Then(Stages(a, x), Stages(b, y))
  {
    if a == [] {
      assert a + b == b && x + y == y;
    } else {
      assert (a + b)[0] == a[0] && (x + y)[0] == x[0];
      assert (a + b)[1..] == a[1..] + b && (x + y)[1..] == x[1..] + y;
      StagesAppend(a[1..], b, x[1..], y);
    }
  }

  // ----- scoping -----

  /** `by_identity`: the id of the last leaf with the identity. */
  function ByIdentity(leaves: seq<Leaf>, identity: string): Option<string> {
    if leaves == [] then None
    else if leaves[|leaves| - 1].step.Identity() == identity then Some(leaves[|leaves| - 1].id)
    else ByIdentity(leaves[..|leaves| - 1], identity)
  }

  /** The leaf id under which a tree component passes on an event of one child. */
  function ScopedId(childLeaves: seq<Leaf>, event: Event): Option<string> {
    var local := if event.leafId != "" then event.leafId else event.step.Identity();
    if exists l :: l in childLeaves && l.id == local then Some(local) else ByIdentity(childLeaves, local)
  }

  /** Pass events on until one names an unknown leaf. */
  function ScopeEvents(childLeaves: seq<Leaf>, e: Emission): Emission
    decreases |e.events|
  {
    if e.events == [] then e
    else
      var event := e.events[0];
      match ScopedId(childLeaves, event)
      case None => Emission([], UnknownLeaf(if event.leafId != "" then event.leafId else event.step.Identity()))
      case Some(id) =>
        var later := ScopeEvents(childLeaves, Emission(e.events[1..], e.end));
        Emission([Event(event.action, event.step, id)] + later.events, later.end)
  }

  /** A component's own view of its leaves: their bare identities. */
  function LocalLeaves(leaves: seq<Leaf>): (r: seq<Leaf>)
    ensures |r| == |leaves|
    ensures forall i :: 0 <= i < |r| ==> r[i] == Leaf(leaves[i].step.Identity(), leaves[i].step)
  {
    seq(|leaves|, i requires 0 <= i < |leaves| => Leaf(leaves[i].step.Identity(), leaves[i].step))
  }

  /** What a child emits by itself, before its parent scopes it. */
  function ChildRun(childLeaves: seq<Leaf>, outcomes: seq<Outcome>): Emission
    requires |childLeaves| == |outcomes|
  {
    Stages(LocalLeaves(childLeaves), outcomes)
  }

  /** The scoping finds each leaf of the child under its own frozen id. */
  predicate ScopesExactly(leaves: seq<Leaf>) {
    forall l <- leaves :: forall a :: ScopedId(leaves, Event(a, l.step, l.step.Identity())) == Some(l.id)
  }

  lemma {:induction false} ScopeStages(childLeaves: seq<Leaf>, leaves: seq<Leaf>, outcomes: seq<Outcome>)
    requires |leaves| == |outcomes| && forall l <- leaves :: l in childLeaves
    requires ScopesExactly(childLeaves)
    ensures ScopeEvents(childLeaves, Stages(LocalLeaves(leaves), outcomes)) == Stages(leaves, outcomes)
  {
    if leaves != [] {
      var first := LocalLeaves(leaves)[0];
      var head := Emission(Stage(first, outcomes[0]), if Continues(outcomes[0]) then Finished else ActionRaised);
      assert LocalLeaves(leaves)[1..] == LocalLeaves(leaves[1..]);
      ScopeStages(childLeaves, leaves[1..], outcomes[1..]);
      ScopeStage(childLeaves, leaves[0], outcomes[0], Stages(LocalLeaves(leaves[1..]), outcomes[1..]));
    }
  }

  lemma ScopeStage(childLeaves: seq<Leaf>, l: Leaf, outcome: Outcome, later: Emission)
    requires l in childLeaves && ScopesExactly(childLeaves)
    ensures
      var local := Leaf(l.step.Identity(), l.step);
      var end := if Continues(outcome) then Finished else ActionRaised;
      ScopeEvents(childLeaves, Then(Emission(Stage(local, outcome), end), later)) ==
      Then(Emission(Stage(l, outcome), end), ScopeEvents(childLeaves, later))
  {
    hide ScopedId, ScopesExactly;
    var local := Leaf(l.step.Identity(), l.step);
    var end := if Continues(outcome) then Finished else ActionRaised;
    var all := Then(Emission(Stage(local, outcome), end), later);
    ScopesLeaf(childLeaves, l);
    match outcome {
      case Done =>
        assert all.events[1..] == [Event(Complete, l.step, local.id)] + later.events;
        assert all.events[1..][1..] == later.events;
      case Skipped =>
        assert all.events[1..] == later.events;
      case Failed =>
        var second := Emission(all.events[1..], all.end);
        assert second.events == [Event(Fail, l.step, local.id)] && second.events[1..] == [];
        assert ScopeEvents(childLeaves, second).events == [Event(Fail, l.step, l.id)];
      case Broken =>
    }
  }

  lemma ScopesLeaf(childLeaves: seq<Leaf>, l: Leaf)
    requires l in childLeaves && ScopesExactly(childLeaves)
    ensures forall a :: ScopedId(childLeaves, Event(a, l.step, l.step.Identity())) == Some(l.id)
  {
  }
}
