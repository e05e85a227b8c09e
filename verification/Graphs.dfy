/** Finite dependency graphs: paths, cycles and topological orders. */
module Graphs {
  /** Each node with what it depends on; a node without an entry depends on nothing. */
  type Graph = map<string, seq<string>>

  function Deps(g: Graph, n: string): seq<string> {
    if n in g then g[n] else []
  }

  /** A non-empty walk along dependencies. */
  predicate IsPath(g: Graph, p: seq<string>) {
    && p != []
    && forall i :: 0 <= i < |p| - 1 ==> p[i + 1] in Deps(g, p[i])
  }

  predicate IsCycle(g: Graph, c: seq<string>) {
    IsPath(g, c) && |c| >= 2 && c[0] == c[|c| - 1]
  }

  ghost predicate Reaches(g: Graph, a: string, b: string) {
    exists p :: IsPath(g, p) && p[0] == a && p[|p| - 1] == b
  }

  /** Every node comes after all its dependencies. */
  predicate Topological(g: Graph, order: seq<string>) {
    forall i :: 0 <= i < |order| ==> forall d <- Deps(g, order[i]) :: d in order[..i]
  }

  predicate Distinct<T(==)>(s: seq<T>) {
    forall i, j :: 0 <= i < j < |s| ==> s[i] != s[j]
  }

  lemma PathAppend(g: Graph, p: seq<string>, n: string)
    requires p == [] || (IsPath(g, p) && n in Deps(g, p[|p| - 1]))
    ensures IsPath(g, p + [n])
  {
    var q := p + [n];
    forall i | 0 <= i < |q| - 1
      ensures q[i + 1] in Deps(g, q[i])
    {
      assert i < |p| - 1 ==> p[i + 1] in Deps(g, p[i]);
    }
  }

  lemma ReachesStep(g: Graph, a: string, b: string, c: string)
    requires Reaches(g, a, b) && c in Deps(g, b)
    ensures Reaches(g, a, c)
  {
    var p :| IsPath(g, p) && p[0] == a && p[|p| - 1] == b;
    PathAppend(g, p, c);
    assert (p + [c])[0] == a;
  }

  lemma ReachesSelf(g: Graph, a: string)
    ensures Reaches(g, a, a)
  {
    assert IsPath(g, [a]) && [a][0] == a;
  }

  lemma ReachesJoin(g: Graph, a: string, b: string, c: string)
    requires Reaches(g, a, b) && Reaches(g, b, c)
    ensures Reaches(g, a, c)
  {
    var p :| IsPath(g, p) && p[0] == a && p[|p| - 1] == b;
    var q :| IsPath(g, q) && q[0] == b && q[|q| - 1] == c;
    ReachesAlong(g, a, q, |q| - 1);
  }

  lemma {:induction false} ReachesAlong(g: Graph, a: string, q: seq<string>, k: nat)
    requires IsPath(g, q) && k < |q| && Reaches(g, a, q[0])
    ensures Reaches(g, a, q[k])
  {
    if k > 0 {
      ReachesAlong(g, a, q, k - 1);
      assert q[k - 1 + 1] in Deps(g, q[k - 1]);
      ReachesStep(g, a, q[k - 1], q[k]);
    }
  }

  /** A walk that starts in a topological order stays in it and moves strictly towards its front. */
  lemma {:induction false} WalkDescends(g: Graph, order: seq<string>, p: seq<string>, start: nat) returns (end: nat)
    requires Topological(g, order) && IsPath(g, p)
    requires start < |order| && order[start] == p[0]
    ensures end <= start && order[end] == p[|p| - 1]
    ensures |p| >= 2 ==> end < start
    decreases |p|
  {
    if |p| == 1 {
      end := start;
    } else {
      assert p[0 + 1] in Deps(g, p[0]);
      var next :| 0 <= next < start && order[next] == p[1];
      forall i | 0 <= i < |p[1..]| - 1
        ensures p[1..][i + 1] in Deps(g, p[1..][i])
      {
        assert p[i + 1 + 1] in Deps(g, p[i + 1]);
      }
      end := WalkDescends(g, order, p[1..], next);
    }
  }

  /** A topological order without repetition holds no node of a cycle. */
  lemma NoCycleInOrder(g: Graph, order: seq<string>, c: seq<string>)
    requires Topological(g, order) && Distinct(order) && IsCycle(g, c)
    ensures c[0] !in order
  {
    if c[0] in order {
      var start :| 0 <= start < |order| && order[start] == c[0];
      var end := WalkDescends(g, order, c, start);
    }
  }

  /** Everything reachable from a topological order is in it. */
  lemma OrderIsClosed(g: Graph, order: seq<string>, a: string, b: string)
    requires Topological(g, order) && a in order && Reaches(g, a, b)
    ensures b in order
  {
    var p :| IsPath(g, p) && p[0] == a && p[|p| - 1] == b;
    var start :| 0 <= start < |order| && order[start] == a;
    var end := WalkDescends(g, order, p, start);
  }

  lemma TopologicalAppend(g: Graph, order: seq<string>, n: string)
    requires Topological(g, order) && Distinct(order) && n !in order
    requires forall d <- Deps(g, n) :: d in order
    ensures Topological(g, order + [n]) && Distinct(order + [n])
  {
    var longer := order + [n];
    forall i | 0 <= i < |longer|
      ensures forall d <- Deps(g, longer[i]) :: d in longer[..i]
    {
      assert longer[..i] == order[..i];
      assert i == |order| ==> order[..i] == order;
    }
  }
}
