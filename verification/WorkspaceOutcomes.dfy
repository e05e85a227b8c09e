/** When the operations of the worktree manager succeed, and what they leave, read off the repository before them. */
module WorkspaceOutcomes {
  import opened Bytes
  import opened Workspace

  /** Where the ticket's branch is, or where it will be created. */
  function HeadOf(g: Git, m: Manager, base: Commit): Commit {
    if m.branch in g.branches then g.branches[m.branch] else base
  }

  /** No other worktree is on the ticket's branch. */
  predicate BranchIsFree(g: Git, m: Manager) {
    BranchPath(g.registrations, m.branch) == None || BranchPath(g.registrations, m.branch) == Some(m.path)
  }

  /** The worktree is registered on the branch and checked out on it. */
  predicate Standing(g: Git, m: Manager) {
    var registration := RegisteredAt(g.registrations, m.path);
    && registration.Some? && registration.value.head == OnBranch(m.branch)
    && m.path in g.files && g.files[m.path].Checkout? && g.files[m.path].head == OnBranch(m.branch)
  }

  /** Nothing is at the path, and a registration of it may be removed. */
  predicate Missing(g: Git, m: Manager, faults: Faults) {
    var registration := RegisteredAt(g.registrations, m.path);
    m.path !in g.files && (registration.Some? ==> !registration.value.locked && !faults.remove)
  }

  lemma ValidExactly(g: Git, m: Manager, base: Commit)
    ensures var r := ValidateExisting(g, m, RegisteredAt(g.registrations, m.path), base);
            && (r.Ok? <==> Standing(g, m) && m.branch in g.branches)
            && (r.Ok? ==> r.value == ExecutionWorkspace(m.ticket, m.branch, m.path, g.branches[m.branch], base,
                                                        Dirty(g, g.files[m.path])))
            && r != Err(NotCommitted)
  {
  }

  /** What `prepare` does to the branches: a missing one is created at the base, and no other changes. */
  function BranchesAfter(g: Git, m: Manager, base: Commit, faults: Faults): map<string, Commit> {
    if m.branch in g.branches || base !in g.trees || faults.branch then g.branches else g.branches[m.branch := base]
  }

  lemma EnsuredExactly(g: Git, m: Manager, base: Commit, ancestor: Ancestry, faults: Faults)
    requires base in g.trees
    ensures var (problem, h) := EnsureBranch(g, m, base, ancestor, faults);
            && h == g.(branches := BranchesAfter(g, m, base, faults))
            && (problem.None? <==> (m.branch in g.branches || !faults.branch) && ancestor(base, HeadOf(g, m, base)))
            && (problem.None? ==> m.branch in h.branches && h.branches[m.branch] == HeadOf(g, m, base))
  {
  }

  /** Adding the worktree where nothing is succeeds exactly when the branch has a tree and Git does not fail. */
  lemma MaterializedExactly(g: Git, m: Manager, base: Commit, faults: Faults)
    requires m.branch in g.branches && m.path !in g.files && RegisteredAt(g.registrations, m.path).None?
    requires BranchPath(g.registrations, m.branch).None?
    ensures var (r, h) := Materialize(g, m, base, faults);
            var head := g.branches[m.branch];
            && (r.Ok? <==> !faults.add && head in g.trees) && h.branches == g.branches
            && (r.Ok? ==> r.value == ExecutionWorkspace(m.ticket, m.branch, m.path, head, base, false)
                          && m.path in h.files
                          && h.files[m.path] == Checkout(OnBranch(m.branch), g.trees[head], g.trees[head]))
  {
    hide ValidateExisting;
    if AddWorktree(g, m.path, m.branch).Some? { AddedIsValid(g, m, base); }
  }

  /** Removing a stale registration frees the path and the branch. */
  lemma PrunedExactly(g: Git, m: Manager)
    requires DistinctPaths(g.registrations) && BranchOnce(g.registrations, m.branch) && BranchIsFree(g, m)
    requires RegisteredAt(g.registrations, m.path).Some? && m.path !in g.files
    ensures var pruned := RemoveWorktree(g, m.path, false);
            && (pruned.Some? <==> !RegisteredAt(g.registrations, m.path).value.locked)
            && (pruned.Some? ==>
                  && RegisteredAt(pruned.value.registrations, m.path).None? && m.path !in pruned.value.files
                  && BranchPath(pruned.value.registrations, m.branch).None?
                  && pruned.value.branches == g.branches && pruned.value.trees == g.trees)
  {
    if RemoveWorktree(g, m.path, false).Some? {
      RemovedIsLocal(g, m.path, false);
      BranchFreed(g.registrations, m.path, m.branch);
    }
  }

  /**
   * `prepare` succeeds exactly when the base is a commit, the branch is there or can be created and contains the
   * base, no other worktree is on it, and the worktree is standing or can be added. The workspace it returns is
   * at the branch's head, which for a new branch is the base; an added worktree holds that commit's files.
   */
  lemma PreparedExactly(g: Git, m: Manager, base: Commit, ancestor: Ancestry, faults: Faults)
    requires DistinctPaths(g.registrations) && BranchOnce(g.registrations, m.branch)
    ensures var (r, h) := Prepared(g, m, base, ancestor, faults);
            var head := HeadOf(g, m, base);
            && (r.Ok? <==>
                  && base in g.trees && (m.branch in g.branches || !faults.branch) && ancestor(base, head)
                  && BranchIsFree(g, m)
                  && (Standing(g, m) || (Missing(g, m, faults) && head in g.trees && !faults.add)))
            && h.branches == BranchesAfter(g, m, base, faults)
            && (r.Ok? && Standing(g, m) ==>
                  r.value == ExecutionWorkspace(m.ticket, m.branch, m.path, head, base, Dirty(h, g.files[m.path]))
                  && h.files == g.files && h.registrations == g.registrations)
            && (r.Ok? && !Standing(g, m) ==>
                  r.value == ExecutionWorkspace(m.ticket, m.branch, m.path, head, base, false)
                  && m.path in h.files
                  && h.files[m.path] == Checkout(OnBranch(m.branch), g.trees[head], g.trees[head]))
  {
    hide ValidateExisting, Materialize, RemoveWorktree, EnsureBranch, Standing;
    if base in g.trees {
      var (problem, ensured) := EnsureBranch(g, m, base, ancestor, faults);
      EnsuredExactly(g, m, base, ancestor, faults);
      ValidExactly(ensured, m, base);
      StandingAlike(g, ensured, m);
      StandingIsThere(g, m);
      if problem.None? && BranchIsFree(g, m) && !IsDir(g, m.path) {
        var registration := RegisteredAt(g.registrations, m.path);
        if registration.Some? {
          if m.path in g.files { FileIsKept(ensured, m); } else { PrunedExactly(ensured, m); }
          var pruned := RemoveWorktree(ensured, m.path, false);
          if m.path !in g.files && pruned.Some? { MaterializedExactly(pruned.value, m, base, faults); }
          if pruned.Some? { MaterializedKeepsBranches(pruned.value, m, base, faults); }
        } else if m.path !in g.files {
          UnregisteredBranch(ensured, m);
          MaterializedExactly(ensured, m, base, faults);
        }
      }
    }
  }

  lemma MaterializedKeepsBranches(g: Git, m: Manager, base: Commit, faults: Faults)
    ensures Materialize(g, m, base, faults).1.branches == g.branches
  {
  }

  lemma FileIsKept(g: Git, m: Manager)
    requires m.path in g.files && !IsDir(g, m.path)
    ensures RemoveWorktree(g, m.path, false).None?
  {
  }

  lemma StandingAlike(g: Git, h: Git, m: Manager)
    requires h.registrations == g.registrations && h.files == g.files
    ensures Standing(g, m) <==> Standing(h, m)
  {
  }

  lemma StandingIsThere(g: Git, m: Manager)
    ensures Standing(g, m) ==> RegisteredAt(g.registrations, m.path).Some? && IsDir(g, m.path)
  {
  }

  /**
   * The first `prepare` of a ticket, whose branch does not exist yet: a branch is created only at the base, also
   * when `prepare` fails, and a workspace is returned only at the base.
   */
  lemma FirstPrepare(g: Git, m: Manager, base: Commit, ancestor: Ancestry, faults: Faults)
    requires DistinctPaths(g.registrations) && BranchOnce(g.registrations, m.branch) && m.branch !in g.branches
    ensures var (r, h) := Prepared(g, m, base, ancestor, faults);
            && (h.branches == g.branches || h.branches == g.branches[m.branch := base])
            && (r.Ok? ==> r.value.head == base == r.value.base && h.branches == g.branches[m.branch := base])
            && (BranchPath(g.registrations, m.branch).None? ==>
                  (r.Ok? <==> base in g.trees && ancestor(base, base) && Missing(g, m, faults)
                              && !faults.branch && !faults.add))
  {
    hide Prepared, Missing;
    PreparedExactly(g, m, base, ancestor, faults);
    if Standing(g, m) { RegisteredBranch(g.registrations, m.path, m.branch); }
  }

  lemma {:induction false} RegisteredBranch(regs: seq<Registration>, path: Path, branch: string)
    requires RegisteredAt(regs, path).Some? && RegisteredAt(regs, path).value.head == OnBranch(branch)
    ensures BranchPath(regs, branch).Some?
  {
    if regs[0].path != path { RegisteredBranch(regs[1..], path, branch); }
  }

  // ----- inspect -----

  /** `inspect` answers recoverable exactly when `prepare` has a branch to create or refuse, or a worktree to add. */
  lemma RecoverableExactly(g: Git, m: Manager, base: Commit, expected: Option<Commit>, ancestor: Ancestry)
    ensures Inspected(g, m, base, expected, ancestor).Recoverable?
       <==> base in g.trees && (m.branch !in g.branches || !ancestor(base, g.branches[m.branch])
                                || (BranchIsFree(g, m) && m.path !in g.files))
  {
    hide ValidateExisting;
  }

  // ----- retire -----

  predicate Names(m: Manager, workspace: ExecutionWorkspace) {
    workspace.ticket == m.ticket && workspace.branch == m.branch && workspace.path == m.path
  }

  /**
   * `retire` succeeds exactly when the workspace is this manager's, clean and at the expected head, no other
   * worktree is on the branch, and the worktree is gone already or is standing, clean and unlocked at that head.
   */
  lemma RetiredExactly(g: Git, m: Manager, workspace: ExecutionWorkspace, expected: Commit, faults: Faults)
    requires DistinctPaths(g.registrations)
    ensures Retired(g, m, workspace, expected, faults).0.None?
       <==> && Names(m, workspace) && workspace.head == expected && !workspace.dirty && BranchIsFree(g, m)
            && var registration := RegisteredAt(g.registrations, m.path);
               if registration.None? then m.path !in g.files
               else && Standing(g, m) && m.branch in g.branches && g.branches[m.branch] == expected
                    && !Dirty(g, g.files[m.path]) && !registration.value.locked && !faults.remove
  {
    hide ValidateExisting, RemoveWorktree;
    ValidExactly(g, m, workspace.base);
    RemovesExactly(g, m);
  }

  lemma RemovesExactly(g: Git, m: Manager)
    requires DistinctPaths(g.registrations)
    ensures var removed := RemoveWorktree(g, m.path, true);
            && (Standing(g, m) ==>
                  (removed.Some? <==> !RegisteredAt(g.registrations, m.path).value.locked))
            && (removed.Some? ==>
                  m.path !in removed.value.files && RegisteredAt(removed.value.registrations, m.path).None?)
  {
    if RemoveWorktree(g, m.path, true).Some? { RemovedIsLocal(g, m.path, true); }
  }

  /** Retiring again what has been retired succeeds and changes nothing. */
  lemma RetireAgain(g: Git, m: Manager, workspace: ExecutionWorkspace, expected: Commit, faults: Faults)
    requires DistinctPaths(g.registrations) && BranchOnce(g.registrations, m.branch)
    requires Retired(g, m, workspace, expected, faults).0.None?
    ensures var h := Retired(g, m, workspace, expected, faults).1;
            Retired(h, m, workspace, expected, faults) == (None, h)
  {
    hide ValidateExisting, RemoveWorktree;
    RetiredExactly(g, m, workspace, expected, faults);
    RetireIsLocal(g, m, workspace, expected, faults);
    BranchFreed(g.registrations, m.path, m.branch);
  }

  // ----- checkpoint -----

  /** What `git add -A` leaves. */
  function Staged(checkout: Entry): Entry
    requires checkout.Checkout?
  {
    checkout.(index := checkout.work)
  }

  /**
   * `checkpoint` succeeds exactly when the workspace is this manager's, standing, and at the head the caller
   * knows, and a commit that is needed can be made. A moved head is refused with nothing changed.
   */
  lemma CheckpointedExactly(g: Git, m: Manager, workspace: ExecutionWorkspace, next: Commit, faults: Faults)
    ensures var (r, h) := Checkpointed(g, m, workspace, next, faults);
            && (r.Ok? <==> && Names(m, workspace) && Standing(g, m) && m.branch in g.branches
                           && g.branches[m.branch] == workspace.head
                           && (HeadTree(g, OnBranch(m.branch)) == Some(g.files[m.path].work) || !faults.commit))
            && (r.Err? && r.error != NotCommitted ==> h == g)
            && (r == Err(NotCommitted) ==>
                  Standing(g, m) && h == g.(files := g.files[m.path := Staged(g.files[m.path])]))
    ensures Names(m, workspace) && Standing(g, m) && m.branch in g.branches ==>
              g.branches[m.branch] != workspace.head ==>
              Checkpointed(g, m, workspace, next, faults) == (Err(HistoryChanged), g)
  {
    hide ValidateExisting;
    ValidExactly(g, m, workspace.base);
    StagingKeepsHead(g, m);
  }

  lemma StagingKeepsHead(g: Git, m: Manager)
    ensures forall files :: HeadTree(g.(files := files), OnBranch(m.branch)) == HeadTree(g, OnBranch(m.branch))
  {
  }
}
