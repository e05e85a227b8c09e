/** Ticket storage and scheduling of tickets.py: the loaded dependency graph and the runnable choice. */
module Tickets {
  import opened Bytes
  import opened Graphs

  datatype State = Backlog | Todo | Review | Accepted | Done

  datatype Ticket = Ticket(id: string, state: State, dependsOn: seq<string>)

  datatype TicketError =
    | Duplicate(id: string)
    | MissingDependency(id: string, dependency: string)
    | Cycle(path: seq<string>)

  // ----- order of identifiers -----

  /** Python's `a < b` on text: by code points, a proper prefix first. */
  predicate Less(a: string, b: string) {
    b != [] && (a == [] || a[0] < b[0] || (a[0] == b[0] && Less(a[1..], b[1..])))
  }

  lemma {:induction false} LessIsTotal(a: string, b: string)
    ensures a == b || Less(a, b) || Less(b, a)
    ensures !(Less(a, b) && Less(b, a)) && !Less(a, a)
  {
    if a != [] && b != [] && a[0] == b[0] {
      LessIsTotal(a[1..], b[1..]);
      assert a == [a[0]] + a[1..] && b == [b[0]] + b[1..];
    }
    if a != [] {
      LessIrreflexive(a);
    }
  }

  lemma {:induction false} LessIrreflexive(a: string)
    ensures !Less(a, a)
  {
    if a != [] {
      LessIrreflexive(a[1..]);
    }
  }

  lemma {:induction false} LessIsTransitive(a: string, b: string, c: string)
    requires Less(a, b) && Less(b, c)
    ensures Less(a, c)
  {
    if a != [] && a[0] == b[0] == c[0] {
      LessIsTransitive(a[1..], b[1..], c[1..]);
    }
  }

  /** Insert into a list kept in order of `key`; equal keys keep their order. */
  function InsertBy<T>(item: T, sorted: seq<T>, key: T -> string): (r: seq<T>)
    ensures multiset(r) == multiset(sorted) + multiset{item}
  {
    if sorted == [] || Less(key(item), key(sorted[0])) then
      [item] + sorted
    else
      assert sorted == [sorted[0]] + sorted[1..];
      [sorted[0]] + InsertBy(item, sorted[1..], key)
  }

  /** `sorted(items, key=key)`. */
  function SortBy<T>(items: seq<T>, key: T -> string): (r: seq<T>)
    ensures multiset(r) == multiset(items)
  {
    if items == [] then []
    else
      assert items == items[..|items| - 1] + [items[|items| - 1]];
      InsertBy(items[|items| - 1], SortBy(items[..|items| - 1], key), key)
  }

  lemma SameElements<T>(items: seq<T>, key: T -> string)
    ensures forall x :: x in SortBy(items, key) <==> x in items
  {
    forall x
      ensures x in SortBy(items, key) <==> x in items
    {
      assert x in SortBy(items, key) <==> x in multiset(SortBy(items, key));
    }
  }

  /** No later item has a smaller key. */
  predicate InOrder<T>(items: seq<T>, key: T -> string) {
    forall i, j :: 0 <= i < j < |items| ==> !Less(key(items[j]), key(items[i]))
  }

  lemma {:induction false} InsertKeepsOrder<T>(item: T, sorted: seq<T>, key: T -> string)
    requires InOrder(sorted, key)
    ensures InOrder(InsertBy(item, sorted, key), key)
  {
    var r := InsertBy(item, sorted, key);
    if sorted != [] && !Less(key(item), key(sorted[0])) {
      var rest := InsertBy(item, sorted[1..], key);
      InsertKeepsOrder(item, sorted[1..], key);
      forall j | 0 < j < |r|
        ensures !Less(key(r[j]), key(r[0]))
      {
        assert r[j] == rest[j - 1] && rest[j - 1] in multiset(rest);
        assert rest[j - 1] == item || rest[j - 1] in sorted[1..];
      }
    } else if sorted != [] {
      forall j | 0 < j < |r|
        ensures !Less(key(r[j]), key(r[0]))
      {
        if Less(key(sorted[j - 1]), key(item)) {
          LessIsTransitive(key(sorted[j - 1]), key(item), key(sorted[0]));
          LessIsTotal(key(sorted[0]), key(sorted[0]));
        }
      }
    }
  }

  lemma {:induction false} SortIsOrdered<T>(items: seq<T>, key: T -> string)
    ensures InOrder(SortBy(items, key), key)
  {
    if items != [] {
      SortIsOrdered(items[..|items| - 1], key);
      InsertKeepsOrder(items[|items| - 1], SortBy(items[..|items| - 1], key), key);
    }
  }

  function SortedIds(ids: seq<string>): (r: seq<string>)
    ensures forall id :: id in r <==> id in ids
  {
    SameElements(ids, (id: string) => id);
    SortBy(ids, (id: string) => id)
  }

  // ----- the dependency graph -----

  /** `{ticket.id: ticket for ticket in tickets}`. */
  function Index(tickets: seq<Ticket>): (index: map<string, Ticket>)
    ensures forall id <- index :: index[id] in tickets && index[id].id == id
    ensures forall t <- tickets :: t.id in index
  {
    if tickets == [] then map[]
    else
      assert tickets == tickets[..|tickets| - 1] + [tickets[|tickets| - 1]];
      Index(tickets[..|tickets| - 1])[tickets[|tickets| - 1].id := tickets[|tickets| - 1]]
  }

  function GraphOf(tickets: seq<Ticket>): Graph {
    map id <- Index(tickets) :: Index(tickets)[id].dependsOn
  }

  predicate UniqueIds(tickets: seq<Ticket>) {
    forall i, j :: 0 <= i < j < |tickets| ==> tickets[i].id != tickets[j].id
  }

  /** Every dependency names a ticket. */
  predicate Closed(g: Graph) {
    forall n <- g :: forall d <- g[n] :: d in g
  }

  ghost predicate Acyclic(g: Graph) {
    !exists c :: IsCycle(g, c)
  }

  lemma IndexOfUnique(tickets: seq<Ticket>, t: Ticket)
    requires UniqueIds(tickets) && t in tickets
    ensures Index(tickets)[t.id] == t
  {
    var u := Index(tickets)[t.id];
    var i :| 0 <= i < |tickets| && tickets[i] == t;
    var j :| 0 <= j < |tickets| && tickets[j] == u;
    assert i < j || j < i || i == j;
  }

  // ----- cycle detection -----

  /** The colour invariant of the search; `finished` is the order in which nodes were finished. */
  ghost predicate Colours(g: Graph, visiting: set<string>, visited: set<string>,
                          stack: seq<string>, finished: seq<string>)
  {
    && Closed(g)
    && (forall n :: n in visiting <==> n in stack)
    && (forall n :: n in visited <==> n in finished)
    && visiting !! visited
    && visiting <= g.Keys && visited <= g.Keys
    && Distinct(stack) && (stack != [] ==> IsPath(g, stack))
    && Distinct(finished) && Topological(g, finished)
  }

  lemma EnterKeepsColours(g: Graph, visiting: set<string>, visited: set<string>, stack: seq<string>,
                          finished: seq<string>, id: string)
    requires Colours(g, visiting, visited, stack, finished)
    requires id in g && id !in visiting && id !in visited
    requires stack != [] ==> id in Deps(g, stack[|stack| - 1])
    ensures Colours(g, visiting + {id}, visited, stack + [id], finished)
  {
    PathAppend(g, stack, id);
  }

  lemma LeaveKeepsColours(g: Graph, visiting: set<string>, visited: set<string>, stack: seq<string>,
                          finished: seq<string>, id: string)
    requires Colours(g, visiting + {id}, visited, stack + [id], finished)
    requires id !in visiting && forall d <- Deps(g, id) :: d in visited
    ensures Colours(g, visiting, visited + {id}, stack, finished + [id])
  {
    TopologicalAppend(g, finished, id);
    forall n
      ensures n in visiting <==> n in stack
    {
      assert n in visiting + {id} <==> n in stack + [id];
      if id in stack {
        var i :| 0 <= i < |stack| && stack[i] == id;
        assert (stack + [id])[i] == (stack + [id])[|stack|];
      }
    }
    forall i | 0 <= i < |stack| - 1
      ensures stack[i + 1] in Deps(g, stack[i])
    {
      assert (stack + [id])[i + 1] in Deps(g, (stack + [id])[i]);
    }
    forall i, j | 0 <= i < j < |stack|
      ensures stack[i] != stack[j]
    {
      assert (stack + [id])[i] != (stack + [id])[j];
    }
  }

  /** `items.index(x)`: the first place of `x`. */
  function IndexOf(items: seq<string>, x: string): (k: nat)
    requires x in items
    ensures k < |items| && items[k] == x && x !in items[..k]
  {
    if items[0] == x then 0 else
      assert items == [items[0]] + items[1..];
      assert items[..1 + IndexOf(items[1..], x)] == [items[0]] + items[1..][..IndexOf(items[1..], x)];
      1 + IndexOf(items[1..], x)
  }

  lemma ColourFacts(g: Graph, visiting: set<string>, visited: set<string>, stack: seq<string>, finished: seq<string>)
    requires Colours(g, visiting, visited, stack, finished)
    ensures forall n <- visiting :: n in stack
    ensures Closed(g) && (stack != [] ==> IsPath(g, stack))
  {
  }

  /** The cycle that shows when a node on the stack is met again. */
  lemma CycleOnStack(g: Graph, stack: seq<string>, start: nat, id: string)
    requires IsPath(g, stack) && id in Deps(g, stack[|stack| - 1])
    requires start < |stack| && stack[start] == id
    ensures IsCycle(g, stack[start..] + [id])
  {
    PathAppend(g, stack, id);
    SuffixIsPath(g, stack + [id], start);
    assert (stack + [id])[start..] == stack[start..] + [id];
  }

  /**
   `_validate_cycles`: the depth-first search and the three collections it updates. A node is in
   `visiting` while it is on `stack`, and in `visited` once everything it needs was searched.
   `finished` records the order in which nodes were finished.
   */
  class CycleSearch {
    const g: Graph
    var visiting: set<string>
    var visited: set<string>
    var stack: seq<string>
    ghost var finished: seq<string>

    constructor (g: Graph)
      requires Closed(g)
      ensures this.g == g && visiting == {} && visited == {} && stack == []
      ensures Valid()
    {
      this.g := g;
      visiting, visited, stack, finished := {}, {}, [], [];
    }

    ghost predicate Valid()
      reads this
    {
      Colours(g, visiting, visited, stack, finished)
    }

    /** Visit one node; the raised error carries the cycle. */
    method Visit(id: string) returns (cycle: Option<seq<string>>)
      requires Valid() && id in g
      requires stack != [] ==> id in Deps(g, stack[|stack| - 1])
      modifies this
      ensures cycle.Some? ==> IsCycle(g, cycle.value)
      ensures cycle.None? ==> Valid() && id in visited
      ensures cycle.None? ==> visiting == old(visiting) && stack == old(stack) && old(visited) <= visited
      decreases g.Keys - visiting
    {
      hide SortedIds, Colours, IsPath;
      ColourFacts(g, visiting, visited, stack, finished);
      if id in visited {
        return None;
      }
      if id in visiting {
        var start := IndexOf(stack, id);
        CycleOnStack(g, stack, start, id);
        return Some(stack[start..] + [id]);
      }
      ghost var outer, before := stack, visited;
      EnterKeepsColours(g, visiting, visited, stack, finished, id);
      visiting := visiting + {id};
      stack := stack + [id];
      var dependencies := SortedIds(g[id]);
      for i := 0 to |dependencies|
        invariant Valid() && stack == outer + [id] && visiting == old(visiting) + {id}
        invariant before <= visited
        invariant forall d <- dependencies[..i] :: d in visited
      {
        assert dependencies[i] in dependencies;
        cycle := Visit(dependencies[i]);
        if cycle.Some? {
          return;
        }
        assert dependencies[..i + 1] == dependencies[..i] + [dependencies[i]];
      }
      assert dependencies[..|dependencies|] == dependencies;
      LeaveKeepsColours(g, old(visiting), visited, outer, finished, id);
      stack := stack[..|stack| - 1];
      visiting := visiting - {id};
      visited := visited + {id};
      finished := finished + [id];
      assert stack == outer && visiting == old(visiting);
      cycle := None;
    }

    /** Search from every ticket: an error exactly when the graph has a cycle, and a real one. */
    method Run(ids: seq<string>) returns (cycle: Option<seq<string>>)
      requires Valid() && stack == [] && forall id :: id in ids <==> id in g
      modifies this
      ensures cycle.Some? ==> IsCycle(g, cycle.value)
      ensures cycle.Some? <==> !Acyclic(g)
      ensures cycle.None? ==> Valid() && visited == g.Keys
    {
      var sorted := SortedIds(ids);
      for i := 0 to |sorted|
        invariant Valid() && stack == []
        invariant forall n <- sorted[..i] :: n in visited
      {
        assert sorted[i] in sorted;
        cycle := Visit(sorted[i]);
        if cycle.Some? {
          return;
        }
        assert sorted[..i + 1] == sorted[..i] + [sorted[i]];
      }
      assert sorted[..|sorted|] == sorted;
      CompleteOrderHasNoCycle(g, finished);
      cycle := None;
    }
  }

  lemma SuffixIsPath(g: Graph, p: seq<string>, k: nat)
    requires IsPath(g, p) && k < |p|
    ensures IsPath(g, p[k..])
  {
    forall i | 0 <= i < |p[k..]| - 1
      ensures p[k..][i + 1] in Deps(g, p[k..][i])
    {
      assert p[k + i + 1] in Deps(g, p[k + i]);
    }
  }

  lemma CompleteOrderHasNoCycle(g: Graph, order: seq<string>)
    requires Topological(g, order) && Distinct(order) && forall n <- g :: n in order
    ensures Acyclic(g)
  {
    forall c | IsCycle(g, c)
      ensures false
    {
      assert c[0 + 1] in Deps(g, c[0]);
      NoCycleInOrder(g, order, c);
    }
  }

  // ----- loading -----

  /** What `load_ticket_store` guarantees of the tickets it returns. */
  ghost predicate Loaded(tickets: seq<Ticket>) {
    UniqueIds(tickets) && Closed(GraphOf(tickets)) && Acyclic(GraphOf(tickets))
  }

  predicate HasTwice(tickets: seq<Ticket>, t: Ticket) {
    multiset(tickets)[t] >= 2
  }

  lemma TwoPlaces(tickets: seq<Ticket>, i: nat, j: nat)
    requires i < j < |tickets| && tickets[i] == tickets[j]
    ensures HasTwice(tickets, tickets[i])
  {
    assert tickets == tickets[..j] + [tickets[j]] + tickets[j + 1..];
    assert tickets[..j][i] in multiset(tickets[..j]);
  }

  lemma {:induction false} TwiceHasPlaces(tickets: seq<Ticket>, t: Ticket) returns (i: nat, j: nat)
    requires HasTwice(tickets, t)
    ensures i < j < |tickets| && tickets[i] == tickets[j] == t
  {
    var last := |tickets| - 1;
    assert tickets == tickets[..last] + [tickets[last]];
    if tickets[last] == t {
      assert t in multiset(tickets[..last]);
      i :| 0 <= i < last && tickets[..last][i] == t;
      j := last;
    } else {
      i, j := TwiceHasPlaces(tickets[..last], t);
    }
  }

  lemma SamePlaces(a: seq<Ticket>, b: seq<Ticket>)
    requires multiset(a) == multiset(b)
    ensures forall t :: t in a <==> t in b
  {
    forall t
      ensures t in a <==> t in b
    {
      assert t in a <==> t in multiset(a);
      assert t in b <==> t in multiset(b);
    }
  }

  lemma UniqueAfterSorting(a: seq<Ticket>, b: seq<Ticket>)
    requires UniqueIds(a) && multiset(a) == multiset(b)
    ensures UniqueIds(b)
  {
    SamePlaces(a, b);
    forall i, j | 0 <= i < j < |b|
      ensures b[i].id != b[j].id
    {
      if b[i] == b[j] {
        TwoPlaces(b, i, j);
        var k, l := TwiceHasPlaces(a, b[i]);
      } else {
        assert b[i] in a && b[j] in a;
        IndexOfUnique(a, b[i]);
        IndexOfUnique(a, b[j]);
      }
    }
  }

  /** Sorting changes neither uniqueness nor the index. */
  lemma SortedStoreIsSame(a: seq<Ticket>, b: seq<Ticket>)
    requires UniqueIds(a) && multiset(a) == multiset(b)
    ensures UniqueIds(b) && Index(a) == Index(b)
  {
    SamePlaces(a, b);
    UniqueAfterSorting(a, b);
    forall t <- a
      ensures Index(a)[t.id] == t == Index(b)[t.id]
    {
      IndexOfUnique(a, t);
      IndexOfUnique(b, t);
    }
  }

  /** The places each id was found at, in the order they were read. */
  ghost predicate Located(tickets: seq<Ticket>, n: nat, locations: map<string, seq<nat>>) {
    && n <= |tickets|
    && (forall id <- locations :: locations[id] != [] && Distinct(locations[id]))
    && (forall id <- locations :: forall k <- locations[id] :: k < n && tickets[k].id == id)
    && (forall k :: 0 <= k < n ==> tickets[k].id in locations && k in locations[tickets[k].id])
  }

  method Locate(tickets: seq<Ticket>) returns (locations: map<string, seq<nat>>)
    ensures Located(tickets, |tickets|, locations)
  {
    locations := map[];
    for i := 0 to |tickets|
      invariant Located(tickets, i, locations)
    {
      var id := tickets[i].id;
      var earlier := if id in locations then locations[id] else [];
      locations := locations[id := earlier + [i]];
    }
  }

  function Ids(tickets: seq<Ticket>): (ids: seq<string>)
    ensures |ids| == |tickets| && forall i :: 0 <= i < |ids| ==> ids[i] == tickets[i].id
    ensures forall id :: id in ids <==> id in Index(tickets)
  {
    var ids := seq(|tickets|, i requires 0 <= i < |tickets| => tickets[i].id);
    assert forall id <- Index(tickets) :: exists i ::
      0 <= i < |tickets| && tickets[i] == Index(tickets)[id] && ids[i] == id;
    ids
  }

  ghost predicate SharedId(tickets: seq<Ticket>, id: string) {
    exists i, j :: 0 <= i < j < |tickets| && tickets[i].id == tickets[j].id == id
  }

  lemma LocatedAt(tickets: seq<Ticket>, locations: map<string, seq<nat>>, id: string)
    requires Located(tickets, |tickets|, locations) && id in Ids(tickets)
    ensures id in locations && locations[id] != []
    ensures |locations[id]| > 1 ==> SharedId(tickets, id) && !UniqueIds(tickets)
  {
    assert exists k :: 0 <= k < |tickets| && tickets[k].id == id;
    if |locations[id]| > 1 {
      var k, l := locations[id][0], locations[id][1];
      assert k in locations[id] && l in locations[id] && k != l;
      assert k < l || l < k;
    }
  }

  lemma LocatedSingle(tickets: seq<Ticket>, locations: map<string, seq<nat>>, k: nat)
    requires Located(tickets, |tickets|, locations) && k < |tickets|
    ensures tickets[k].id in locations
    ensures |locations[tickets[k].id]| == 1 ==> locations[tickets[k].id] == [k]
  {
    assert k in locations[tickets[k].id];
  }

  lemma LocatedOnce(tickets: seq<Ticket>, locations: map<string, seq<nat>>)
    requires Located(tickets, |tickets|, locations)
    requires forall id <- Ids(tickets) :: id in locations && |locations[id]| == 1
    ensures UniqueIds(tickets)
  {
    hide Located, Index;
    forall i, j | 0 <= i < j < |tickets|
      ensures tickets[i].id != tickets[j].id
    {
      assert Ids(tickets)[i] == tickets[i].id && Ids(tickets)[j] == tickets[j].id;
      LocatedSingle(tickets, locations, i);
      LocatedSingle(tickets, locations, j);
      assert locations[tickets[i].id] == [i] && locations[tickets[j].id] == [j];
    }
  }

  /** A dependency that names no ticket. */
  predicate Missing(tickets: seq<Ticket>, t: Ticket, d: string) {
    t in tickets && d in t.dependsOn && d !in Index(tickets)
  }

  method FindDuplicate(parsed: seq<Ticket>) returns (found: Option<string>)
    ensures found.None? <==> UniqueIds(parsed)
    ensures found.Some? ==> SharedId(parsed, found.value)
  {
    hide Located, UniqueIds, SharedId, Index;
    var locations := Locate(parsed);
    var ids := SortedIds(Ids(parsed));
    for i := 0 to |ids|
      invariant forall id <- ids[..i] :: id in locations && |locations[id]| == 1
    {
      assert ids[i] in ids;
      LocatedAt(parsed, locations, ids[i]);
      if |locations[ids[i]]| > 1 {
        return Some(ids[i]);
      }
      assert ids[..i + 1] == ids[..i] + [ids[i]];
    }
    assert ids[..|ids|] == ids;
    LocatedOnce(parsed, locations);
    found := None;
  }

  method FindMissing(sorted: seq<Ticket>, byId: map<string, Ticket>) returns (found: Option<(Ticket, string)>)
    ensures found.None? <==> forall t <- sorted :: forall d <- t.dependsOn :: d in byId
    ensures found.Some? ==>
              && found.value.0 in sorted && found.value.1 in found.value.0.dependsOn
              && found.value.1 !in byId
  {
    for i := 0 to |sorted|
      invariant forall k :: 0 <= k < i ==> forall d <- sorted[k].dependsOn :: d in byId
    {
      var dependsOn := sorted[i].dependsOn;
      for j := 0 to |dependsOn|
        invariant forall k :: 0 <= k < j ==> dependsOn[k] in byId
      {
        if dependsOn[j] !in byId {
          return Some((sorted[i], dependsOn[j]));
        }
      }
    }
    found := None;
  }

  /** The graph is closed exactly when no ticket has a missing dependency. */
  lemma ClosedMeansNoneMissing(tickets: seq<Ticket>)
    requires UniqueIds(tickets)
    ensures Closed(GraphOf(tickets)) <==> forall t <- tickets :: forall d <- t.dependsOn :: d in Index(tickets)
  {
    var g := GraphOf(tickets);
    forall t <- tickets
      ensures t.id in g && g[t.id] == t.dependsOn
    {
      IndexOfUnique(tickets, t);
    }
  }

  /**
   `load_ticket_store` on tickets parsed from the workflow directories. It succeeds exactly on the
   tickets whose ids are unique and whose graph is closed and acyclic, and every error is a real one.
   */
  method Load(parsed: seq<Ticket>) returns (r: Result<seq<Ticket>, TicketError>)
    ensures r.Ok? <==> Loaded(parsed)
    ensures r.Ok? ==> Loaded(r.value) && multiset(r.value) == multiset(parsed)
    ensures r.Ok? ==> InOrder(r.value, (t: Ticket) => t.id)
    ensures r.Err? && r.error.Duplicate? ==> SharedId(parsed, r.error.id)
    ensures r.Err? && r.error.MissingDependency? ==>
      exists t :: Missing(parsed, t, r.error.dependency) && t.id == r.error.id
    ensures r.Err? && r.error.Cycle? ==> IsCycle(GraphOf(parsed), r.error.path)
  {
    hide SortBy, InOrder, IsCycle, Acyclic, Index, Less, Closed, UniqueIds;
    var duplicate := FindDuplicate(parsed);
    if duplicate.Some? {
      return Err(Duplicate(duplicate.value));
    }
    var byId := Index(parsed);
    var sorted := SortBy(parsed, (t: Ticket) => t.id);
    SortIsOrdered(parsed, (t: Ticket) => t.id);
    SortedStoreIsSame(parsed, sorted);
    SamePlaces(parsed, sorted);
    ClosedMeansNoneMissing(parsed);
    var missing := FindMissing(sorted, byId);
    if missing.Some? {
      var (t, d) := missing.value;
      assert Missing(parsed, t, d);
      return Err(MissingDependency(t.id, d));
    }
    var search := new CycleSearch(GraphOf(parsed));
    var cycle := search.Run(Ids(parsed));
    if cycle.Some? {
      return Err(Cycle(cycle.value));
    }
    r := Ok(sorted);
  }
}
