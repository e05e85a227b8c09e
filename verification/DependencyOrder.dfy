/** `dependency_order` of build_distribution.py, for any finite graph. */
module DependencyOrder {
  import opened Bytes
  import opened Graphs

  /** The walk a cycle report shows: it ends at a node it already passed. */
  predicate IsLoopingTrail(g: Graph, trail: seq<string>) {
    IsPath(g, trail) && trail[|trail| - 1] in trail[..|trail| - 1]
  }

  /** What an unfinished visit knows: the nodes so far, dependencies first, none twice. */
  predicate Ordered(g: Graph, result: seq<string>) {
    Topological(g, result) && Distinct(result)
  }

  /** A trail of nodes without repetition, along dependencies, down to `node`. */
  predicate OnTrail(g: Graph, trail: seq<string>, node: string) {
    Distinct(trail) && IsPath(g, trail + [node])
  }

  lemma TrailGrows(g: Graph, trail: seq<string>, node: string, d: string)
    requires OnTrail(g, trail, node) && node !in trail && d in Deps(g, node)
    ensures OnTrail(g, trail + [node], d)
  {
    PathAppend(g, trail + [node], d);
  }

  /** Visit one node: extend `result` by what it needs, or report the trail that loops. */
  method Visit(g: Graph, node: string, trail: seq<string>, result: seq<string>)
    returns (loop: Option<seq<string>>, longer: seq<string>)
    requires OnTrail(g, trail, node) && Ordered(g, result)
    ensures loop.Some? ==> IsLoopingTrail(g, loop.value) && trail + [node] <= loop.value
    ensures loop.None? ==> result <= longer && node in longer && Ordered(g, longer)
    ensures loop.None? ==> forall n <- longer :: n in result || Reaches(g, node, n)
    decreases g.Keys - (set n | n in trail), 1
  {
    if node in trail {
      assert (trail + [node])[..|trail|] == trail;
      return Some(trail + [node]), result;
    }
    longer := result;
    var dependencies := Deps(g, node);
    for i := 0 to |dependencies|
      invariant result <= longer && Ordered(g, longer)
      invariant forall d <- dependencies[..i] :: d in longer
      invariant forall n <- longer :: n in result || Reaches(g, node, n)
    {
      var d := dependencies[i];
      assert node in g.Keys - (set n | n in trail);
      assert node in trail + [node];
      TrailGrows(g, trail, node, d);
      ghost var before := longer;
      loop, longer := Visit(g, d, trail + [node], longer);
      if loop.Some? {
        return;
      }
      forall n <- longer
        ensures n in result || Reaches(g, node, n)
      {
        if n !in before {
          ReachesSelf(g, node);
          ReachesStep(g, node, node, d);
          ReachesJoin(g, node, d, n);
        }
      }
      assert dependencies[..i + 1] == dependencies[..i] + [d];
    }
    assert dependencies[..|dependencies|] == dependencies;
    if node !in longer {
      TopologicalAppend(g, longer, node);
      ReachesSelf(g, node);
      longer := longer + [node];
    }
    loop := None;
  }

  /**
   The order of everything the targets need. It fails exactly when a cycle can be reached from a
   target, and otherwise lists each reachable node once, dependencies before dependents.
   */
  method DependencyOrder(g: Graph, targets: seq<string>) returns (r: Result<seq<string>, seq<string>>)
    ensures r.Err? ==> IsLoopingTrail(g, r.error) && r.error[0] in targets
    ensures r.Err? <==> exists t, c :: t in targets && IsCycle(g, c) && Reaches(g, t, c[0])
    ensures r.Ok? ==> Distinct(r.value) && Topological(g, r.value)
    ensures r.Ok? ==> forall n :: n in r.value <==> exists t :: t in targets && Reaches(g, t, n)
  {
    var result: seq<string> := [];
    for i := 0 to |targets|
      invariant Ordered(g, result)
      invariant forall t <- targets[..i] :: t in result
      invariant forall n <- result :: exists t :: t in targets && Reaches(g, t, n)
    {
      var target := targets[i];
      assert IsPath(g, [] + [target]);
      var loop, longer := Visit(g, target, [], result);
      if loop.Some? {
        LoopHoldsCycle(g, loop.value);
        assert loop.value[0] == target;
        return Err(loop.value);
      }
      forall n <- longer
        ensures exists t :: t in targets && Reaches(g, t, n)
      {
        assert n in result || (target in targets && Reaches(g, target, n));
      }
      result := longer;
      assert targets[..i + 1] == targets[..i] + [target];
    }
    assert targets[..|targets|] == targets;
    forall t, n | t in targets && Reaches(g, t, n)
      ensures n in result
    {
      OrderIsClosed(g, result, t, n);
    }
    forall t, c | t in targets && IsCycle(g, c) && Reaches(g, t, c[0])
      ensures false
    {
      NoCycleInOrder(g, result, c);
    }
    r := Ok(result);
  }

  /** A looping trail holds a cycle that its first node reaches. */
  lemma LoopHoldsCycle(g: Graph, trail: seq<string>)
    requires IsLoopingTrail(g, trail)
    ensures exists c :: IsCycle(g, c) && Reaches(g, trail[0], c[0])
  {
    var last := trail[|trail| - 1];
    var k :| 0 <= k < |trail| - 1 && trail[k] == last;
    var c := trail[k..];
    forall i | 0 <= i < |c| - 1
      ensures c[i + 1] in Deps(g, c[i])
    {
      assert trail[k + i + 1] in Deps(g, trail[k + i]);
    }
    assert IsCycle(g, c);
    ReachesSelf(g, trail[0]);
    ReachesAlong(g, trail[0], trail, k);
  }
}
