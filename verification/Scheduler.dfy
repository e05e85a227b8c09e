/** The runnable choice of a loaded ticket store, and runs that repeat it. */
module Scheduler {
  import opened Bytes
  import opened Graphs
  import opened Tickets

  predicate IsRunnable(index: map<string, Ticket>, t: Ticket) {
    t.state == Todo && forall d <- t.dependsOn :: d in index && index[d].state == Done
  }

  function Filter(tickets: seq<Ticket>, index: map<string, Ticket>): (r: seq<Ticket>)
    ensures forall t :: t in r <==> t in tickets && IsRunnable(index, t)
  {
    if tickets == [] then []
    else if IsRunnable(index, tickets[0]) then [tickets[0]] + Filter(tickets[1..], index)
    else Filter(tickets[1..], index)
  }

  /** The runnable tickets in order of their ids. */
  function Runnable(tickets: seq<Ticket>): seq<Ticket> {
    SortBy(Filter(tickets, Index(tickets)), (t: Ticket) => t.id)
  }

  function Selected(tickets: seq<Ticket>): Option<Ticket> {
    if Runnable(tickets) == [] then None else Some(Runnable(tickets)[0])
  }

  /** The selected ticket is the runnable one with the least id; none is selected when none is runnable. */
  lemma SelectedIsLeast(tickets: seq<Ticket>)
    ensures Selected(tickets).None? <==> forall t <- tickets :: !IsRunnable(Index(tickets), t)
    ensures Selected(tickets).Some? ==>
      var s := Selected(tickets).value;
      && s in tickets && IsRunnable(Index(tickets), s)
      && forall t <- tickets :: IsRunnable(Index(tickets), t) ==> t.id == s.id || Less(s.id, t.id)
  {
    var key := (t: Ticket) => t.id;
    var runnable := Filter(tickets, Index(tickets));
    SameElements(runnable, key);
    SortIsOrdered(runnable, key);
    var sorted := SortBy(runnable, key);
    if sorted != [] {
      assert sorted[0] in sorted;
      forall t <- tickets | IsRunnable(Index(tickets), t)
        ensures t.id == sorted[0].id || Less(sorted[0].id, t.id)
      {
        assert t in sorted;
        LessIsTotal(t.id, sorted[0].id);
      }
    }
  }

  /** A state in which the service is not going to run a ticket, and that is not done either. */
  predicate Waits(s: State) {
    s == Backlog || s == Review || s == Accepted
  }

  /** A chain of todo tickets, each depending on the next, down to a dependency that waits. */
  predicate BlockingChain(tickets: seq<Ticket>, p: seq<string>) {
    && |p| >= 2
    && IsPath(GraphOf(tickets), p)
    && (forall i :: 0 <= i < |p| - 1 ==> p[i] in Index(tickets) && Index(tickets)[p[i]].state == Todo)
    && p[|p| - 1] in Index(tickets) && Waits(Index(tickets)[p[|p| - 1]].state)
  }

  ghost predicate Blocked(tickets: seq<Ticket>, id: string) {
    exists p :: BlockingChain(tickets, p) && p[0] == id
  }

  lemma ChainBlocks(tickets: seq<Ticket>, p: seq<string>)
    requires BlockingChain(tickets, p)
    ensures Blocked(tickets, p[0])
  {
  }

  /** A walk over todo tickets. */
  predicate TodoWalk(tickets: seq<Ticket>, p: seq<string>) {
    && IsPath(GraphOf(tickets), p)
    && forall id <- p :: id in Index(tickets) && Index(tickets)[id].state == Todo
  }

  /** In an acyclic graph a walk cannot come back to a node it passed. */
  lemma WalkDoesNotReturn(g: Graph, p: seq<string>, d: string)
    requires Acyclic(g) && IsPath(g, p) && d in Deps(g, p[|p| - 1])
    ensures d !in p
  {
    if d in p {
      var k := IndexOf(p, d);
      CycleOnStack(g, p, k, d);
    }
  }

  /** A todo ticket that is not runnable has a dependency that is not done. */
  lemma UnfinishedDependency(tickets: seq<Ticket>, id: string) returns (d: string)
    requires Loaded(tickets) && id in Index(tickets) && Index(tickets)[id].state == Todo
    requires forall t <- tickets :: !IsRunnable(Index(tickets), t)
    ensures Acyclic(GraphOf(tickets))
    ensures d in Deps(GraphOf(tickets), id) && d in Index(tickets) && Index(tickets)[d].state != Done
  {
    var index := Index(tickets);
    d :| d in index[id].dependsOn && (d !in index || index[d].state != Done);
    assert id in GraphOf(tickets) && d in GraphOf(tickets)[id];
  }

  /** When nothing is runnable, any walk over todo tickets extends to a blocking chain. */
  lemma {:induction false} WalkIsBlocked(tickets: seq<Ticket>, p: seq<string>) returns (chain: seq<string>)
    requires Loaded(tickets) && TodoWalk(tickets, p)
    requires forall t <- tickets :: !IsRunnable(Index(tickets), t)
    ensures BlockingChain(tickets, chain) && p < chain
    decreases Index(tickets).Keys - (set id | id in p)
  {
    var last := p[|p| - 1];
    assert last in p;
    var d := UnfinishedDependency(tickets, last);
    WalkDoesNotReturn(GraphOf(tickets), p, d);
    hide Loaded, IsRunnable;
    if Index(tickets)[d].state == Todo {
      LongerTodoWalk(tickets, p, d);
      chain := WalkIsBlocked(tickets, p + [d]);
    } else {
      chain := p + [d];
      WalkEndsBlocked(tickets, p, d);
    }
  }

  lemma LongerTodoWalk(tickets: seq<Ticket>, p: seq<string>, d: string)
    requires TodoWalk(tickets, p) && d in Deps(GraphOf(tickets), p[|p| - 1]) && d !in p
    requires d in Index(tickets) && Index(tickets)[d].state == Todo
    ensures TodoWalk(tickets, p + [d])
    ensures Index(tickets).Keys - (set id | id in p + [d]) < Index(tickets).Keys - (set id | id in p)
  {
    PathAppend(GraphOf(tickets), p, d);
    assert d in p + [d] && d in Index(tickets).Keys - (set id | id in p);
  }

  lemma WalkEndsBlocked(tickets: seq<Ticket>, p: seq<string>, d: string)
    requires TodoWalk(tickets, p) && d in Deps(GraphOf(tickets), p[|p| - 1])
    requires d in Index(tickets) && Waits(Index(tickets)[d].state)
    ensures BlockingChain(tickets, p + [d])
  {
    PathAppend(GraphOf(tickets), p, d);
    forall i | 0 <= i < |p|
      ensures p[i] in Index(tickets) && Index(tickets)[p[i]].state == Todo
    {
      assert p[i] in p;
    }
  }

  /** The first link of a blocking chain, and the rest of it. */
  lemma ChainStart(tickets: seq<Ticket>, p: seq<string>)
    requires BlockingChain(tickets, p)
    ensures p[1] in Deps(GraphOf(tickets), p[0]) && p[1] in Index(tickets)
    ensures |p| == 2 ==> Waits(Index(tickets)[p[1]].state)
    ensures |p| > 2 ==> Index(tickets)[p[1]].state == Todo && BlockingChain(tickets, p[1..])
  {
    assert p[0 + 1] in Deps(GraphOf(tickets), p[0]);
    if |p| > 2 {
      SuffixIsPath(GraphOf(tickets), p, 1);
    }
  }

  /** A runnable ticket heads no blocking chain. */
  lemma RunnableIsNotBlocked(tickets: seq<Ticket>, t: Ticket)
    requires Loaded(tickets) && t in tickets && IsRunnable(Index(tickets), t)
    ensures !Blocked(tickets, t.id)
  {
    IndexOfUnique(tickets, t);
    forall p | BlockingChain(tickets, p) && p[0] == t.id
      ensures false
    {
      ChainStart(tickets, p);
    }
  }

  /**
   Nothing is selected exactly when each todo ticket reaches, through a chain of todo tickets,
   a dependency in backlog, review or accepted.
   */
  lemma NothingSelected(tickets: seq<Ticket>)
    requires Loaded(tickets)
    ensures Selected(tickets).None? <==> forall t <- tickets :: t.state == Todo ==> Blocked(tickets, t.id)
  {
    SelectedIsLeast(tickets);
    if Selected(tickets).None? {
      forall t <- tickets | t.state == Todo
        ensures Blocked(tickets, t.id)
      {
        IndexOfUnique(tickets, t);
        assert IsPath(GraphOf(tickets), [t.id]);
        var chain := WalkIsBlocked(tickets, [t.id]);
        assert chain[0] == t.id;
      }
    } else {
      RunnableIsNotBlocked(tickets, Selected(tickets).value);
    }
  }

  // ----- runs -----

  /** The tickets after the given ones were marked done. */
  function After(tickets: seq<Ticket>, done: seq<string>): (r: seq<Ticket>)
    ensures |r| == |tickets|
  {
    seq(|tickets|, i requires 0 <= i < |tickets| =>
      if tickets[i].id in done then tickets[i].(state := Done) else tickets[i])
  }

  lemma AfterIndexed(tickets: seq<Ticket>, done: seq<string>, i: nat)
    requires UniqueIds(tickets) && i < |tickets|
    ensures UniqueIds(After(tickets, done))
    ensures tickets[i].id in Index(tickets) && Index(tickets)[tickets[i].id] == tickets[i]
    ensures tickets[i].id in Index(After(tickets, done))
    ensures Index(After(tickets, done))[tickets[i].id] == After(tickets, done)[i]
  {
    var later := After(tickets, done);
    assert tickets[i] in tickets && later[i] in later;
    IndexOfUnique(later, later[i]);
    IndexOfUnique(tickets, tickets[i]);
  }

  lemma AfterIndex(tickets: seq<Ticket>, done: seq<string>)
    requires UniqueIds(tickets)
    ensures Index(After(tickets, done)).Keys == Index(tickets).Keys
    ensures forall id <- Index(tickets) ::
      Index(After(tickets, done))[id] ==
        if id in done then Index(tickets)[id].(state := Done) else Index(tickets)[id]
  {
    var later := After(tickets, done);
    forall id <- Index(tickets)
      ensures id in Index(later)
      ensures Index(later)[id] == if id in done then Index(tickets)[id].(state := Done) else Index(tickets)[id]
    {
      var i :| 0 <= i < |tickets| && tickets[i] == Index(tickets)[id];
      AfterIndexed(tickets, done, i);
    }
    forall id <- Index(later)
      ensures id in Index(tickets)
    {
      var i :| 0 <= i < |later| && later[i] == Index(later)[id];
      AfterIndexed(tickets, done, i);
    }
  }

  /** Marking tickets done changes their states only. */
  lemma AfterIsLoaded(tickets: seq<Ticket>, done: seq<string>)
    requires Loaded(tickets)
    ensures Loaded(After(tickets, done)) && GraphOf(After(tickets, done)) == GraphOf(tickets)
    ensures Index(After(tickets, done)).Keys == Index(tickets).Keys
    ensures forall id <- Index(tickets) ::
      Index(After(tickets, done))[id] ==
        if id in done then Index(tickets)[id].(state := Done) else Index(tickets)[id]
  {
    hide Index, Closed, Acyclic;
    AfterIndex(tickets, done);
    assert GraphOf(After(tickets, done)) == GraphOf(tickets);
  }

  /** What is blocked after marking tickets done was blocked before. */
  lemma BlockedBefore(tickets: seq<Ticket>, done: seq<string>, id: string)
    requires Loaded(tickets) && Blocked(After(tickets, done), id)
    ensures Blocked(tickets, id)
  {
    hide Index, GraphOf, Loaded, IsPath;
    AfterIsLoaded(tickets, done);
    var p :| BlockingChain(After(tickets, done), p) && p[0] == id;
    assert BlockingChain(tickets, p);
  }

  /** A run so far: the tickets it executed, each selected in the state its predecessors left. */
  ghost predicate IsRun(tickets: seq<Ticket>, order: seq<string>) {
    forall i :: 0 <= i < |order| ==>
      Selected(After(tickets, order[..i])).Some? && Selected(After(tickets, order[..i])).value.id == order[i]
  }

  /** What holds of every ticket a run executed. */
  ghost predicate Sound(tickets: seq<Ticket>, order: seq<string>) {
    && Distinct(order)
    && (forall id <- order :: id in Index(tickets) && Index(tickets)[id].state == Todo)
    && (forall i :: 0 <= i < |order| ==> forall d <- Deps(GraphOf(tickets), order[i]) ::
         d in Index(tickets) && (Index(tickets)[d].state == Done || d in order[..i]))
    && (forall id <- order :: !Blocked(tickets, id))
  }

  /** An executed ticket whose dependencies were done or executed before it is not blocked. */
  lemma ExecutedIsNotBlocked(tickets: seq<Ticket>, order: seq<string>, id: string)
    requires Loaded(tickets) && Sound(tickets, order)
    requires forall d <- Deps(GraphOf(tickets), id) ::
      d in Index(tickets) && (Index(tickets)[d].state == Done || d in order)
    ensures !Blocked(tickets, id)
  {
    hide Index, GraphOf, IsPath;
    forall p | BlockingChain(tickets, p) && p[0] == id
      ensures false
    {
      ChainStart(tickets, p);
      if |p| > 2 {
        ChainBlocks(tickets, p[1..]);
      }
    }
  }

  /** What a selected ticket looked like before the run, and that its dependencies are done or executed. */
  lemma SelectedFacts(tickets: seq<Ticket>, order: seq<string>)
    requires Loaded(tickets) && Selected(After(tickets, order)).Some?
    ensures
      var id := Selected(After(tickets, order)).value.id;
      && id in Index(tickets) && Index(tickets)[id].state == Todo && id !in order
      && forall d <- Deps(GraphOf(tickets), id) ::
           d in Index(tickets) && (Index(tickets)[d].state == Done || d in order)
  {
    var now := After(tickets, order);
    AfterIsLoaded(tickets, order);
    SelectedIsLeast(now);
    IndexOfUnique(now, Selected(now).value);
    assert Deps(GraphOf(now), Selected(now).value.id) == Selected(now).value.dependsOn;
  }

  /** One more executable ticket keeps a run sound. */
  lemma SoundAppend(tickets: seq<Ticket>, order: seq<string>, id: string)
    requires Sound(tickets, order) && id !in order && !Blocked(tickets, id)
    requires id in Index(tickets) && Index(tickets)[id].state == Todo
    requires forall d <- Deps(GraphOf(tickets), id) ::
      d in Index(tickets) && (Index(tickets)[d].state == Done || d in order)
    ensures Sound(tickets, order + [id])
  {
    hide Index, GraphOf, Blocked;
    var longer := order + [id];
    forall i | 0 <= i < |longer|
      ensures forall d <- Deps(GraphOf(tickets), longer[i]) ::
        d in Index(tickets) && (Index(tickets)[d].state == Done || d in longer[..i])
    {
      assert longer[..i] == order[..i];
      assert order[..|order|] == order;
    }
  }

  /** One more selection keeps a run sound. */
  lemma SelectionIsSound(tickets: seq<Ticket>, order: seq<string>)
    requires Loaded(tickets) && Sound(tickets, order) && Selected(After(tickets, order)).Some?
    ensures Sound(tickets, order + [Selected(After(tickets, order)).value.id])
  {
    hide Selected, Sound, Loaded, Index, GraphOf;
    SelectedFacts(tickets, order);
    ExecutedIsNotBlocked(tickets, order, Selected(After(tickets, order)).value.id);
    SoundAppend(tickets, order, Selected(After(tickets, order)).value.id);
  }

  /** A run executes distinct todo tickets, so it is no longer than their number. */
  lemma {:induction false} DistinctIsSet(s: seq<string>)
    requires Distinct(s)
    ensures |set x | x in s| == |s|
  {
    if s != [] {
      var front := s[..|s| - 1];
      DistinctIsSet(front);
      assert (set x | x in s) == (set x | x in front) + {s[|s| - 1]};
    }
  }

  /** The todo tickets that nothing waiting blocks. */
  ghost function Executable(tickets: seq<Ticket>): set<string> {
    set t | t in tickets && t.state == Todo && !Blocked(tickets, t.id) :: t.id
  }

  /** A sound run that can select nothing more has executed exactly the executable tickets. */
  lemma FinishedRunIsComplete(tickets: seq<Ticket>, order: seq<string>)
    requires Loaded(tickets) && Sound(tickets, order) && Selected(After(tickets, order)).None?
    ensures (set id | id in order) == Executable(tickets) && |order| == |Executable(tickets)|
  {
    var now := After(tickets, order);
    AfterIsLoaded(tickets, order);
    NothingSelected(now);
    forall t <- tickets | t.state == Todo && !Blocked(tickets, t.id)
      ensures t.id in order
    {
      var i :| 0 <= i < |tickets| && tickets[i] == t;
      assert now[i] in now;
      if t.id !in order {
        BlockedBefore(tickets, order, t.id);
      }
    }
    DistinctIsSet(order);
  }

  /**
   Repeatedly select a ticket and mark it done. The run stops, after exactly as many steps as there
   are todo tickets that nothing waiting blocks; it executes those, each after its dependencies.
   */
  method RunToEnd(tickets: seq<Ticket>) returns (order: seq<string>, final: seq<Ticket>)
    requires Loaded(tickets)
    ensures IsRun(tickets, order) && Sound(tickets, order)
    ensures final == After(tickets, order) && Selected(final).None?
    ensures (set id | id in order) == Executable(tickets) && |order| == |Executable(tickets)|
  {
    hide Selected, Sound, Loaded, Executable;
    order := [];
    final := tickets;
    EmptyRun(tickets);
    while Selected(final).Some?
      invariant final == After(tickets, order) && IsRun(tickets, order) && Sound(tickets, order)
      decreases Index(tickets).Keys - (set id | id in order)
    {
      var next := Selected(final).value;
      SelectionIsSound(tickets, order);
      SoundStep(tickets, order, next.id);
      var longer := order + [next.id];
      forall i | 0 <= i < |longer|
        ensures Selected(After(tickets, longer[..i])).Some?
            && Selected(After(tickets, longer[..i])).value.id == longer[i]
      {
        assert longer[..i] == order[..i];
        assert order[..|order|] == order;
      }
      assert next.id in longer && next.id in Index(tickets).Keys - (set id | id in order);
      order := longer;
      final := After(tickets, order);
    }
    FinishedRunIsComplete(tickets, order);
  }

  lemma EmptyRun(tickets: seq<Ticket>)
    ensures After(tickets, []) == tickets && Sound(tickets, [])
  {
  }

  lemma SoundStep(tickets: seq<Ticket>, order: seq<string>, id: string)
    requires Sound(tickets, order + [id])
    ensures id in Index(tickets) && id !in order
  {
    assert (order + [id])[|order|] == id;
    assert forall i :: 0 <= i < |order| ==> (order + [id])[i] == order[i];
    assert id in order + [id];
  }

  lemma IndexHoldsTickets(tickets: seq<Ticket>, id: string)
    requires id in Index(tickets)
    ensures exists t :: t in tickets && t == Index(tickets)[id]
  {
  }

  /** With only todo and done tickets a run executes every todo ticket. */
  lemma EveryTodoIsExecutable(tickets: seq<Ticket>)
    requires forall t <- tickets :: t.state == Todo || t.state == Done
    ensures Executable(tickets) == set t | t in tickets && t.state == Todo :: t.id
  {
    forall id
      ensures !Blocked(tickets, id)
    {
      forall p | BlockingChain(tickets, p)
        ensures false
      {
        IndexHoldsTickets(tickets, p[|p| - 1]);
      }
    }
  }
}
