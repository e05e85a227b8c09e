/**
 * Tree components nested to any depth (build_distribution.py): each level scopes the events of its children
 * once more, and a tree emits its frozen ids exactly when no leaf lies more than two levels down.
 */
module DeepTrees {
  import opened Bytes
  import opened ComponentTree
  import opened Packaging

  /** A tree with a key at every level, whose leaves are `ComponentPlan.leaf`s. */
  predicate Keyed(p: Plan) {
    p.key != "" && if p.step.Some? then IsLeafPlan(p) else forall c <- p.children :: Keyed(c)
  }

  function Dones(n: nat): (outcomes: seq<Outcome>)
    ensures |outcomes| == n && forall i :: 0 <= i < n ==> outcomes[i] == Done
  {
    seq(n, _ => Done)
  }

  /** What a component emits when every leaf succeeds: a leaf its identity, a tree its scoped children. */
  function PlanRun(p: Plan): Emission
    decreases p, 1
  {
    match p.step
    case Some(step) => Emission(Stage(Leaf(step.Identity(), step), Done), Finished)
    case None => ChildrenRun(p, p.children)
  }

  function ChildrenRun(parent: Plan, children: seq<Plan>): Emission
    requires forall c <- children :: c in parent.children
    decreases parent, 0, |children|
  {
    if children == [] then Emission([], Finished)
    else
      assert children[0] in parent.children;
      match FreezePlan(children[0], children[0].key)
      case Err(e) => Emission([], InvalidPlan(e.segment))
      case Ok(leaves) => Then(ScopeEvents(leaves, PlanRun(children[0])), ChildrenRun(parent, children[1..]))
  }

  /** The frozen leaves of a child, with the ids its parent scopes to. */
  function Frozen(p: Plan): seq<Leaf>
    requires FreezePlan(p, p.key).Ok?
  {
    FreezePlan(p, p.key).value
  }

  predicate Leafless(p: Plan) {
    FreezePlan(p, p.key) == Ok([])
  }

  /** No leaf lies more than one level below `c`, so more than two levels below its parent. */
  predicate Shallow(c: Plan) {
    c.step.Some? || forall g <- c.children :: g.step.Some? || Leafless(g)
  }

  /** Scoping delivers every leaf of the child under its own frozen id, in order. */
  predicate ScopedToItself(c: Plan)
    requires FreezePlan(c, c.key).Ok?
  {
    ScopeEvents(Frozen(c), PlanRun(c)) == Stages(Frozen(c), Dones(|Frozen(c)|))
  }

  // ----- scoping, event by event -----

  lemma {:induction false} ByIdentityFrom(leaves: seq<Leaf>, identity: string)
    ensures ByIdentity(leaves, identity).Some? ==>
              exists l <- leaves :: l.id == ByIdentity(leaves, identity).value && l.step.Identity() == identity
  {
    if leaves != [] && leaves[|leaves| - 1].step.Identity() != identity {
      ByIdentityFrom(leaves[..|leaves| - 1], identity);
    }
  }

  /** An event is scoped to an id of the child, and to no other than its own when that has a slash. */
  lemma ScopedFrom(leaves: seq<Leaf>, event: Event)
    requires ScopedId(leaves, event).Some?
    ensures exists l <- leaves :: l.id == ScopedId(leaves, event).value
    ensures '/' in event.leafId && (forall l <- leaves :: '/' !in l.step.Identity()) ==>
              ScopedId(leaves, event).value == event.leafId
  {
    ByIdentityFrom(leaves, if event.leafId != "" then event.leafId else event.step.Identity());
  }

  lemma {:induction false} ScopeFinished(leaves: seq<Leaf>, e: Emission)
    requires ScopeEvents(leaves, e).end == Finished
    ensures e.end == Finished && |ScopeEvents(leaves, e).events| == |e.events|
    ensures forall i :: 0 <= i < |e.events| ==>
              ScopedId(leaves, e.events[i]) == Some(ScopeEvents(leaves, e).events[i].leafId)
    decreases |e.events|
  {
    hide ScopedId;
    if e.events != [] {
      var rest := Emission(e.events[1..], e.end);
      ScopeFinished(leaves, rest);
      forall i | 0 <= i < |e.events|
        ensures ScopedId(leaves, e.events[i]) == Some(ScopeEvents(leaves, e).events[i].leafId)
      {
        if i > 0 { assert e.events[i] == rest.events[i - 1]; }
      }
    }
  }

  lemma {:induction false} StagesAt(leaves: seq<Leaf>, j: nat)
    requires j < |leaves|
    ensures var s := Stages(leaves, Dones(|leaves|));
            2 * j < |s.events| && s.events[2 * j].leafId == leaves[j].id
  {
    DonesSplit(1, |leaves| - 1);
    if j > 0 { StagesAt(leaves[1..], j - 1); }
  }

  lemma DonesSplit(m: nat, n: nat)
    ensures Dones(m + n) == Dones(m) + Dones(n) && Dones(m + n)[m..] == Dones(n)
  {
  }

  lemma {:induction false} StagesFinish(leaves: seq<Leaf>)
    ensures Stages(leaves, Dones(|leaves|)).end == Finished
    ensures |Stages(leaves, Dones(|leaves|)).events| == 2 * |leaves|
  {
    if leaves != [] {
      DonesSplit(1, |leaves| - 1);
      StagesFinish(leaves[1..]);
    }
  }

  // ----- counting events -----

  /** The frozen leaves of a tree are those of its children, below its key. */
  lemma FrozenBelow(p: Plan)
    requires Keyed(p) && p.step.None? && FreezePlan(p, p.key).Ok?
    ensures AllFreeze(p.children) && Frozen(p) == PrefixLeaves(p.key, TreeLeaves(p.children))
  {
    TargetLeaves(p, p.children, p.key, {});
  }

  /** A run that finishes has emitted two events for each leaf. */
  lemma {:induction false} RunCounts(p: Plan)
    requires Keyed(p) && FreezePlan(p, p.key).Ok? && PlanRun(p).end == Finished
    ensures |PlanRun(p).events| == 2 * |Frozen(p)|
    decreases p, 1
  {
    if p.step.None? {
      FrozenBelow(p);
      ChildrenCount(p, p.children);
    }
  }

  lemma {:induction false} ChildrenCount(parent: Plan, children: seq<Plan>)
    requires (forall c <- children :: c in parent.children && Keyed(c)) && ChildrenRun(parent, children).end == Finished
    ensures |ChildrenRun(parent, children).events| == 2 * |TreeLeaves(children)|
    decreases parent, 0, |children|
  {
    hide Keyed, FreezePlan, PlanRun, ScopeEvents;
    if children != [] {
      var c := children[0];
      assert c in children && c in parent.children;
      ScopeFinished(Frozen(c), PlanRun(c));
      RunCounts(c);
      ChildrenCount(parent, children[1..]);
    }
  }

  // ----- a leaf too deep is never scoped to itself -----

  lemma {:induction false} Longest(leaves: seq<Leaf>) returns (k: nat)
    requires leaves != []
    ensures k < |leaves| && forall i :: 0 <= i < |leaves| ==> |leaves[i].id| <= |leaves[k].id|
  {
    if |leaves| == 1 {
      k := 0;
    } else {
      var inner := Longest(leaves[1..]);
      assert forall i :: 0 < i < |leaves| ==> leaves[i] == leaves[1..][i - 1];
      k := if |leaves[0].id| > |leaves[inner + 1].id| then 0 else inner + 1;
    }
  }

  /** Ids are never closed under putting a key in front: the longest has nowhere to go. */
  lemma NotClosedUnderPrefix(leaves: seq<Leaf>, key: string)
    requires leaves != []
    ensures exists l <- leaves :: forall m <- leaves :: m.id != key + SEPARATOR + l.id
  {
    var k := Longest(leaves);
    forall m | m in leaves
      ensures m.id != key + SEPARATOR + leaves[k].id
    {
      var i :| 0 <= i < |leaves| && leaves[i] == m;
    }
    assert leaves[k] in leaves;
  }

  /** Every second event is scoped to the leaf's id with `key` in front. */
  predicate Sent(outer: seq<Leaf>, key: string, events: seq<Event>, leaves: seq<Leaf>) {
    && |events| == 2 * |leaves|
    && forall j :: 0 <= j < |leaves| ==> ScopedId(outer, events[2 * j]) == Some(key + SEPARATOR + leaves[j].id)
  }

  /** A subtree with leaves sends ids that the level above cannot all scope to those leaves. */
  lemma SubtreeIsNotSent(outer: seq<Leaf>, key: string, g: Plan)
    requires Keyed(g) && g.step.None? && FreezePlan(g, g.key).Ok? && Frozen(g) != []
    requires forall l <- outer :: '/' !in l.step.Identity()
    requires ScopeEvents(Frozen(g), PlanRun(g)).end == Finished
    ensures !Sent(outer, key, ScopeEvents(Frozen(g), PlanRun(g)).events, Frozen(g))
  {
    hide PlanRun, ScopeEvents, ScopedId;
    var leaves, part := Frozen(g), ScopeEvents(Frozen(g), PlanRun(g));
    FrozenBelow(g);
    ScopeFinished(leaves, PlanRun(g));
    NotClosedUnderPrefix(leaves, key);
    var l :| l in leaves && forall m <- leaves :: m.id != key + SEPARATOR + l.id;
    var j :| 0 <= j < |leaves| && leaves[j] == l;
    if |part.events| == 2 * |leaves| && ScopedId(outer, part.events[2 * j]) == Some(key + SEPARATOR + l.id) {
      ScopedFrom(leaves, PlanRun(g).events[2 * j]);
      var m :| m in leaves && m.id == part.events[2 * j].leafId;
      SlashInId(g, m);
      ScopedFrom(outer, part.events[2 * j]);
    }
  }

  lemma SlashInId(g: Plan, l: Leaf)
    requires Keyed(g) && g.step.None? && FreezePlan(g, g.key).Ok? && l in Frozen(g)
    ensures '/' in l.id
  {
    FrozenBelow(g);
    var i :| 0 <= i < |Frozen(g)| && Frozen(g)[i] == l;
    assert l.id[|g.key|] == '/';
  }

  /** If a whole run is scoped to its own leaves, no child of it holds leaves of its own. */
  lemma {:induction false} SentIsShallow(outer: seq<Leaf>, key: string, parent: Plan, children: seq<Plan>)
    requires (forall c <- children :: c in parent.children && Keyed(c)) && ChildrenRun(parent, children).end == Finished
    requires forall l <- outer :: '/' !in l.step.Identity()
    requires Sent(outer, key, ChildrenRun(parent, children).events, TreeLeaves(children))
    ensures forall g <- children :: g.step.Some? || Leafless(g)
    decreases |children|
  {
    hide Keyed, FreezePlan, PlanRun, ScopeEvents, ScopedId;
    if children != [] {
      var g := children[0];
      assert g in children && g in parent.children;
      var part, rest := ScopeEvents(Frozen(g), PlanRun(g)), ChildrenRun(parent, children[1..]);
      ScopeFinished(Frozen(g), PlanRun(g));
      RunCounts(g);
      ChildrenCount(parent, children[1..]);
      SentSplits(outer, key, part.events, rest.events, Frozen(g), TreeLeaves(children[1..]));
      if g.step.None? && Frozen(g) != [] { SubtreeIsNotSent(outer, key, g); }
      SentIsShallow(outer, key, parent, children[1..]);
      assert children == [g] + children[1..];
    }
  }

  lemma SentSplits(outer: seq<Leaf>, key: string, a: seq<Event>, b: seq<Event>, x: seq<Leaf>, y: seq<Leaf>)
    requires Sent(outer, key, a + b, x + y) && |a| == 2 * |x| && |b| == 2 * |y|
    ensures Sent(outer, key, a, x) && Sent(outer, key, b, y)
  {
    hide ScopedId;
    forall j | 0 <= j < |x|
      ensures ScopedId(outer, a[2 * j]) == Some(key + SEPARATOR + x[j].id)
    {
      assert (x + y)[j] == x[j] && (a + b)[2 * j] == a[2 * j];
    }
    forall j | 0 <= j < |y|
      ensures ScopedId(outer, b[2 * j]) == Some(key + SEPARATOR + y[j].id)
    {
      assert (x + y)[|x| + j] == y[j] && (a + b)[2 * (|x| + j)] == b[2 * j];
    }
  }

  // ----- a shallow child is scoped to itself -----

  /** Below a child's key every identity is a valid segment. */
  lemma {:induction false} IdentitiesHaveNoSlash(p: Plan, prefix: string)
    requires Keyed(p) && p.step.None? && FreezePlan(p, prefix).Ok?
    ensures forall l <- FreezePlan(p, prefix).value :: '/' !in l.step.Identity()
    decreases p, 1
  {
    ChildIdentitiesHaveNoSlash(p, p.children, prefix, {});
  }

  lemma {:induction false} ChildIdentitiesHaveNoSlash(parent: Plan, children: seq<Plan>,
                                               prefix: string, seen: set<string>)
    requires (forall c <- children :: c in parent.children && Keyed(c))
    requires FreezeChildren(parent, children, prefix, seen).Ok?
    ensures forall l <- FreezeChildren(parent, children, prefix, seen).value :: '/' !in l.step.Identity()
    decreases parent, 0, |children|
  {
    if children != [] {
      var c := children[0];
      assert c in children && c in parent.children;
      var below := ChildPrefix(prefix, Segment(c));
      if c.step.None? { IdentitiesHaveNoSlash(c, below); }
      ChildIdentitiesHaveNoSlash(parent, children[1..], prefix, seen + {Segment(c)});
    }
  }

  /** A tree without leaves emits nothing. */
  lemma {:induction false} LeaflessRun(p: Plan)
    requires Keyed(p) && Leafless(p)
    ensures PlanRun(p) == Emission([], Finished)
    decreases p, 1
  {
    FrozenBelow(p);
    LeaflessChildren(p, p.children);
  }

  lemma {:induction false} LeaflessChildren(parent: Plan, children: seq<Plan>)
    requires (forall c <- children :: c in parent.children && Keyed(c)) && AllFreeze(children)
    requires TreeLeaves(children) == []
    ensures ChildrenRun(parent, children) == Emission([], Finished)
    decreases parent, 0, |children|
  {
    if children != [] {
      var c := children[0];
      assert c in children && c in parent.children;
      LeaflessRun(c);
      LeaflessChildren(parent, children[1..]);
    }
  }

  /** Leaves and leafless trees emit the identities of the leaves, which are their own ids. */
  lemma {:induction false} ShallowChildren(parent: Plan, children: seq<Plan>)
    requires (forall c <- children :: c in parent.children && Keyed(c)) && AllFreeze(children)
    requires forall g <- children :: g.step.Some? || Leafless(g)
    ensures ChildrenRun(parent, children) == Stages(TreeLeaves(children), Dones(|TreeLeaves(children)|))
    ensures forall l <- TreeLeaves(children) :: l.id == l.step.Identity()
    decreases |children|
  {
    hide Keyed;
    if children != [] {
      var g := children[0];
      assert g in children && g in parent.children;
      ShallowChildren(parent, children[1..]);
      OneShallowChild(g);
      var rest := TreeLeaves(children[1..]);
      DonesSplit(|Frozen(g)|, |rest|);
      StagesAppend(Frozen(g), rest, Dones(|Frozen(g)|), Dones(|rest|));
      assert TreeLeaves(children) == Frozen(g) + rest;
    }
  }

  lemma OneShallowChild(g: Plan)
    requires Keyed(g) && FreezePlan(g, g.key).Ok? && (g.step.Some? || Leafless(g))
    ensures ScopedToItself(g)
    ensures forall l <- Frozen(g) :: l.id == l.step.Identity()
  {
    if g.step.Some? {
      LeafScopedToItself(g);
    } else {
      LeaflessRun(g);
    }
  }

  lemma LeafScopedToItself(g: Plan)
    requires Keyed(g) && g.step.Some?
    ensures ScopedToItself(g) && Frozen(g) == [Leaf(g.key, g.step.value)] && g.step.value.Identity() == g.key
  {
    var leaf := Leaf(g.key, g.step.value);
    assert Frozen(g) == [leaf] && leaf in [leaf];
    assert forall a :: ScopedId([leaf], Event(a, leaf.step, leaf.id)) == Some(leaf.id);
    assert LocalLeaves([leaf]) == [leaf];
    ScopeStages([leaf], [leaf], [Done]);
    assert Dones(1) == [Done];
    assert Stages([leaf], [Done]) == PlanRun(g) by {
      assert [leaf][1..] == [] && Stage(leaf, Done) + [] == Stage(leaf, Done);
    }
  }

  lemma ShallowScopedToItself(c: Plan)
    requires Keyed(c) && c.step.None? && FreezePlan(c, c.key).Ok? && Shallow(c)
    ensures ScopedToItself(c)
  {
    hide Keyed, FreezePlan, ScopeEvents, Stages;
    FrozenBelow(c);
    ChildrenAreKeyed(c);
    ShallowChildren(c, c.children);
    IdentitiesHaveNoSlash(c, c.key);
    FrozenIds(c, c.key);
    var leaves, own := Frozen(c), TreeLeaves(c.children);
    forall i | 0 <= i < |leaves|
      ensures leaves[i].id == ChildPrefix(c.key, leaves[i].step.Identity()) && '/' !in leaves[i].step.Identity()
      ensures LocalLeaves(leaves)[i] == own[i]
    {
      assert own[i] in own && leaves[i] in leaves;
    }
    assert LocalLeaves(leaves) == own;
    SiblingsScopeExactly(leaves, c.key);
    ScopeStages(leaves, leaves, Dones(|leaves|));
  }

  lemma ChildrenAreKeyed(c: Plan)
    requires Keyed(c) && c.step.None?
    ensures c.key != "" && forall g <- c.children :: Keyed(g)
  {
  }

  // ----- main results -----

  /** A child is scoped to its own leaves exactly when it is shallow. */
  lemma ChildScopedExactly(c: Plan)
    requires Keyed(c) && FreezePlan(c, c.key).Ok?
    ensures ScopedToItself(c) <==> Shallow(c)
  {
    hide Keyed, FreezePlan, ScopeEvents, Stages, PlanRun, ChildrenRun;
    if c.step.Some? {
      LeafScopedToItself(c);
    } else if Shallow(c) {
      ShallowScopedToItself(c);
    } else if ScopedToItself(c) {
      ScopedIsShallow(c);
    }
  }

  lemma ScopedIsShallow(c: Plan)
    requires Keyed(c) && c.step.None? && FreezePlan(c, c.key).Ok? && ScopedToItself(c)
    ensures Shallow(c)
  {
    hide Keyed, FreezePlan, ScopeEvents, Stages, ScopedId;
    var leaves := Frozen(c);
    FrozenBelow(c);
    ChildrenAreKeyed(c);
    IdentitiesHaveNoSlash(c, c.key);
    StagesFinish(leaves);
    ScopeFinished(leaves, PlanRun(c));
    assert PlanRun(c) == ChildrenRun(c, c.children);
    forall j | 0 <= j < |leaves|
      ensures ScopedId(leaves, PlanRun(c).events[2 * j]) == Some(c.key + SEPARATOR + TreeLeaves(c.children)[j].id)
    {
      StagesAt(leaves, j);
    }
    SentIsShallow(leaves, c.key, c, c.children);
  }

  /**
   * A tree emits exactly the frozen ids of its leaves, in order, if and only if every child is shallow: with a
   * leaf more than two levels down, some event is sent to another id or ends the run.
   */
  lemma {:induction false} TreeScopedExactly(parent: Plan, children: seq<Plan>)
    requires (forall c <- children :: c in parent.children && Keyed(c)) && AllFreeze(children)
    ensures ChildrenRun(parent, children) == Stages(TreeLeaves(children), Dones(|TreeLeaves(children)|))
       <==> forall c <- children :: Shallow(c)
    decreases |children|
  {
    hide Keyed, FreezePlan, ScopeEvents, PlanRun, Shallow, Stages;
    if children == [] {
      EmptyTree(parent);
    } else {
      var c, rest := children[0], TreeLeaves(children[1..]);
      assert c in children && c in parent.children && children == [c] + children[1..];
      ChildScopedExactly(c);
      TreeScopedExactly(parent, children[1..]);
      DonesSplit(|Frozen(c)|, |rest|);
      StagesAppend(Frozen(c), rest, Dones(|Frozen(c)|), Dones(|rest|));
      StagesFinish(Frozen(c));
      StagesFinish(rest);
      var part := ScopeEvents(Frozen(c), PlanRun(c));
      if part.end == Finished && ChildrenRun(parent, children).end == Finished {
        ScopeFinished(Frozen(c), PlanRun(c));
        RunCounts(c);
        SameParts(part.events, ChildrenRun(parent, children[1..]).events,
                  Stages(Frozen(c), Dones(|Frozen(c)|)).events, Stages(rest, Dones(|rest|)).events);
      }
      assert ChildrenRun(parent, children) == Then(part, ChildrenRun(parent, children[1..]));
      assert TreeLeaves(children) == Frozen(c) + rest;
      StagesFinish(Frozen(c) + rest);
    }
  }

  lemma EmptyTree(parent: Plan)
    ensures ChildrenRun(parent, []) == Stages(TreeLeaves([]), Dones(|TreeLeaves([])|))
  {
  }

  lemma SameParts(a: seq<Event>, b: seq<Event>, x: seq<Event>, y: seq<Event>)
    requires |a| == |x|
    ensures a + b == x + y <==> a == x && b == y
  {
    if a + b == x + y {
      assert a == (a + b)[..|a|] && b == (a + b)[|a|..] && x == (x + y)[..|x|] && y == (x + y)[|x|..];
    }
  }

  // ----- one leaf too deep -----

  /** Leaf `l` three levels below the tree, in the only child of its child "a". */
  function DeepChild(l: Step): Plan {
    Plan("a", [Plan("b", [LeafPlan(l)], None, "b")], None, "a")
  }

  /** A tree of that child and a leaf. */
  function DeepTree(l: Step, s: Step): Plan {
    Plan("tree", [DeepChild(l), LeafPlan(s)], None, "tree")
  }

  /** A tree with one child freezes to that child's leaves. */
  lemma OnlyChildFreezes(name: string, c: Plan, key: string, prefix: string)
    requires ValidSegment(Segment(c), {})
    ensures FreezePlan(Plan(name, [c], None, key), prefix) == FreezePlan(c, ChildPrefix(prefix, Segment(c)))
  {
    var p, head := Plan(name, [c], None, key), FreezePlan(c, ChildPrefix(prefix, Segment(c)));
    assert p.children[1..] == [] && FreezeChildren(p, p.children[1..], prefix, {Segment(c)}) == Ok([]);
    if head.Ok? { assert head.value + [] == head.value; }
    assert FreezePlan(p, prefix) == FreezeChildren(p, p.children, prefix, {});
  }

  /** ... and passes on what the child emits, scoped. */
  lemma OnlyChildRuns(p: Plan, c: Plan)
    requires p.children == [c] && p.step.None? && FreezePlan(c, c.key).Ok?
    ensures PlanRun(p) == ScopeEvents(Frozen(c), PlanRun(c))
  {
    hide FreezePlan, ScopeEvents;
    var part := ScopeEvents(Frozen(c), PlanRun(c));
    assert p.children[1..] == [] && part.events + [] == part.events;
    assert PlanRun(p) == ChildrenRun(p, p.children);
    assert ChildrenRun(p, p.children[1..]) == Emission([], Finished);
  }

  /** The two events of a leaf are scoped to one id, or the first of them ends the run. */
  lemma ScopePair(leaves: seq<Leaf>, l: Leaf)
    requires l.id != ""
    ensures ScopeEvents(leaves, Emission(Stage(l, Done), Finished)) ==
              match ScopedId(leaves, Event(Start, l.step, l.id))
              case Some(id) => Emission(Stage(Leaf(id, l.step), Done), Finished)
              case None => Emission([], UnknownLeaf(l.id))
  {
    var first, second := Event(Start, l.step, l.id), Event(Complete, l.step, l.id);
    assert [first, second][1..] == [second] && [second][1..] == [];
    assert ScopedId(leaves, first) == ScopedId(leaves, second);
    hide ScopedId;
    assert ScopeEvents(leaves, Emission([], Finished)) == Emission([], Finished);
    if ScopedId(leaves, first).Some? {
      var id := ScopedId(leaves, first).value;
      assert ScopeEvents(leaves, Emission([second], Finished)) == Emission([Event(Complete, l.step, id)], Finished);
    }
  }

  /** Where one frozen leaf sends the events of an id. */
  lemma ScopedByOne(leaf: Leaf, event: Event)
    requires event.leafId != ""
    ensures ScopedId([leaf], event)
         == if event.leafId == leaf.id || event.leafId == leaf.step.Identity() then Some(leaf.id) else None
  {
    assert [leaf][..0] == [] && leaf in [leaf];
    assert ByIdentity([], event.leafId) == None;
  }

  lemma DeepChildFreezes(l: Step)
    requires l.Identity() == "c"
    ensures FreezePlan(DeepChild(l), "a") == Ok([Leaf("a/b/c", l)])
    ensures FreezePlan(DeepChild(l).children[0], "b") == Ok([Leaf("b/c", l)])
  {
    hide FreezePlan;
    OnlyChildFreezes("b", LeafPlan(l), "b", "b");
    OnlyChildFreezes("b", LeafPlan(l), "b", "a/b");
    OnlyChildFreezes("a", DeepChild(l).children[0], "a", "a");
    assert "a" + SEPARATOR + "b" == "a/b" && "b" + SEPARATOR + "c" == "b/c" && "a/b" + SEPARATOR + "c" == "a/b/c";
    LeafFreezes(l, "b/c");
    LeafFreezes(l, "a/b/c");
  }

  lemma LeafFreezes(l: Step, prefix: string)
    requires prefix != ""
    ensures FreezePlan(LeafPlan(l), prefix) == Ok([Leaf(prefix, l)])
  {
  }

  /** The child passes on the leaf under "b/c", one segment short of its frozen id. */
  lemma DeepChildRuns(l: Step)
    requires l.Identity() == "c"
    ensures PlanRun(DeepChild(l)) == Emission(Stage(Leaf("b/c", l), Done), Finished)
  {
    hide FreezePlan, ScopedId, ScopeEvents, Stage;
    var inner := DeepChild(l).children[0];
    DeepChildFreezes(l);
    LeafFreezes(l, "c");
    OnlyChildRuns(inner, LeafPlan(l));
    OnlyChildRuns(DeepChild(l), inner);
    ScopePair([Leaf("c", l)], Leaf("c", l));
    ScopedByOne(Leaf("c", l), Event(Start, l, "c"));
    ScopePair([Leaf("b/c", l)], Leaf("c", l));
    ScopedByOne(Leaf("b/c", l), Event(Start, l, "c"));
  }

  /** One deep leaf ends the run at its first event: the leaf beside it, one level down, is never emitted. */
  lemma OneDeepLeafEndsTheRun(l: Step, s: Step)
    requires l.Identity() == "c" && s.Identity() == "s"
    ensures var children := DeepTree(l, s).children;
            && (forall c <- children :: Keyed(c)) && AllFreeze(children)
            && TreeLeaves(children) == [Leaf("a/b/c", l), Leaf("s", s)]
            && ChildrenRun(DeepTree(l, s), children) == Emission([], UnknownLeaf("b/c"))
  {
    hide FreezePlan, ScopedId, ScopeEvents, Stage, PlanRun;
    var tree := DeepTree(l, s);
    DeepChildFreezes(l);
    LeafFreezes(s, "s");
    DeepChildRuns(l);
    ScopePair([Leaf("a/b/c", l)], Leaf("b/c", l));
    ScopedByOne(Leaf("a/b/c", l), Event(Start, l, "b/c"));
    assert tree.children[1..] == [LeafPlan(s)] && [LeafPlan(s)][1..] == [];
    assert TreeLeaves([LeafPlan(s)]) == [Leaf("s", s)] + TreeLeaves([]);
    assert Keyed(DeepChild(l).children[0]);
  }

  /** The children of every target plan that freezes are keyed and shallow. */
  lemma TargetChildrenAreShallow(c: Plan)
    requires IsTargetChild(c) && FreezePlan(c, c.key).Ok?
    ensures Keyed(c) && Shallow(c)
  {
    if c.step.None? {
      FreezesExactly(c, c.key);
      forall g | g in c.children
        ensures Keyed(g) && g.step.Some?
      {
        var i :| 0 <= i < |c.children| && c.children[i] == g;
        assert ValidSegment(Segment(c.children[i]), {});
      }
    }
  }

  /** So on target plans, with every leaf succeeding, this run is the run of `Packaging`. */
  lemma AgreesOnTargets(parent: Plan, scripts: seq<seq<Outcome>>)
    requires ChildrenShaped(parent.children) && AllFreeze(parent.children) && Scripted(parent.children, scripts)
    requires Flatten(scripts) == Dones(|Flatten(scripts)|)
    ensures ChildrenRun(parent, parent.children) == TreeRun(parent.children, scripts)
  {
    hide FreezePlan, Keyed, Shallow, ChildrenRun, TreeRun, Stages;
    TreeRunIsStages(parent.children, scripts);
    forall c | c in parent.children
      ensures Keyed(c) && Shallow(c)
    {
      var i :| 0 <= i < |parent.children| && parent.children[i] == c;
      TargetChildrenAreShallow(c);
    }
    TreeScopedExactly(parent, parent.children);
  }
}
