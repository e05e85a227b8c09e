/**
 * The per-ticket worktree manager over an abstract Git repository without symlinks or submodules
 * (execution_workspace.py). A path holds nothing, a file, a directory that is no checkout, a checkout of
 * another repository, or a checkout of this one.
 */
module Workspace {
  import opened Bytes

  type Commit = nat
  type Tree = nat
  type Path = string

  datatype Head = OnBranch(name: string) | Detached(commit: Commit)

  /** A checkout of this repository has its HEAD, its index and its tracked or untracked files as trees. */
  datatype Entry = File | PlainDirectory | OtherRepository | Checkout(head: Head, index: Tree, work: Tree)

  /** One record of `git worktree list`. */
  datatype Registration = Registration(path: Path, head: Head, locked: bool)

  datatype Git = Git(
    trees: map<Commit, Tree>,
    branches: map<string, Commit>,
    registrations: seq<Registration>,
    files: map<Path, Entry>)

  /** Whether one commit is an ancestor of another, for every commit there will ever be. */
  type Ancestry = (Commit, Commit) -> bool

  /** Git commands that fail for reasons outside this model. */
  datatype Faults = Faults(branch: bool, add: bool, remove: bool, commit: bool)

  datatype Manager = Manager(ticket: string, branch: string, path: Path)

  datatype ExecutionWorkspace = ExecutionWorkspace(
    ticket: string, branch: string, path: Path, head: Commit, base: Commit, dirty: bool)

  datatype Problem =
    | BaseUnavailable | BranchNotCreated | UnrelatedBranch | BranchElsewhere | NotARegisteredWorktree
    | NotRemoved | NotAdded | NotReusable | OtherRepositoryThere | WrongBranch | HeadMismatch
    | WrongIdentity | WrongCheckpoint | Unclean | Changed | HistoryChanged | NotCommitted | GitFailed

  // ----- observations -----

  predicate IsDir(g: Git, path: Path) {
    path in g.files && !g.files[path].File?
  }

  /** `registrations.get(path)`. */
  function RegisteredAt(regs: seq<Registration>, path: Path): Option<Registration> {
    if regs == [] then None
    else if regs[0].path == path then Some(regs[0])
    else RegisteredAt(regs[1..], path)
  }

  /** The first worktree on this branch. */
  function BranchPath(regs: seq<Registration>, branch: string): Option<Path> {
    if regs == [] then None
    else if regs[0].head == OnBranch(branch) then Some(regs[0].path)
    else BranchPath(regs[1..], branch)
  }

  function Resolve(g: Git, head: Head): Option<Commit> {
    match head
    case Detached(commit) => Some(commit)
    case OnBranch(name) => if name in g.branches then Some(g.branches[name]) else None
  }

  /** The files of the commit that a HEAD is at. */
  function HeadTree(g: Git, head: Head): Option<Tree> {
    var commit := Resolve(g, head);
    if commit.Some? && commit.value in g.trees then Some(g.trees[commit.value]) else None
  }

  /** `git status --porcelain` prints something: the index differs from HEAD, or the files from the index. */
  predicate Dirty(g: Git, checkout: Entry)
    requires checkout.Checkout?
  {
    Some(checkout.index) != HeadTree(g, checkout.head) || checkout.work != checkout.index
  }

  /** `_validate_existing`. */
  function ValidateExisting(g: Git, m: Manager, registration: Option<Registration>, base: Commit)
    : Result<ExecutionWorkspace, Problem>
  {
    if registration.None? || !IsDir(g, m.path) then Err(NotReusable)
    else if !g.files[m.path].Checkout? then Err(OtherRepositoryThere)
    else
      var checkout := g.files[m.path];
      if checkout.head != OnBranch(m.branch) then Err(WrongBranch)
      else if Resolve(g, checkout.head).None? then Err(GitFailed)
      else if Resolve(g, checkout.head) != Resolve(g, registration.value.head) then Err(HeadMismatch)
      else if registration.value.head != OnBranch(m.branch) then Err(WrongBranch)
      else Ok(ExecutionWorkspace(m.ticket, m.branch, m.path, Resolve(g, checkout.head).value, base, Dirty(g, checkout)))
  }

  // ----- Git commands -----

  function WithoutPath(regs: seq<Registration>, path: Path): seq<Registration> {
    if regs == [] then []
    else if regs[0].path == path then regs[1..]
    else [regs[0]] + WithoutPath(regs[1..], path)
  }

  /** What `git worktree add` writes: index and files of the branch's commit. */
  function CleanCheckout(g: Git, branch: string): (checkout: Entry)
    requires HeadTree(g, OnBranch(branch)).Some?
    ensures checkout.Checkout? && !Dirty(g, checkout)
  {
    var tree := HeadTree(g, OnBranch(branch)).value;
    Checkout(OnBranch(branch), tree, tree)
  }

  /** `git worktree add path branch`; None when Git refuses. */
  function AddWorktree(g: Git, path: Path, branch: string): Option<Git> {
    if HeadTree(g, OnBranch(branch)).None? || BranchPath(g.registrations, branch).Some?
      || RegisteredAt(g.registrations, path).Some? || path in g.files
    then None
    else Some(g.(registrations := g.registrations + [Registration(path, OnBranch(branch), false)],
                 files := g.files[path := CleanCheckout(g, branch)]))
  }

  /** `git worktree remove path`, with or without --force; None when Git refuses. */
  function RemoveWorktree(g: Git, path: Path, force: bool): Option<Git> {
    var registration := RegisteredAt(g.registrations, path);
    if registration.None? || registration.value.locked then None
    else if path in g.files && (!g.files[path].Checkout? || (Dirty(g, g.files[path]) && !force)) then None
    else Some(g.(registrations := WithoutPath(g.registrations, path), files := g.files - {path}))
  }

  // ----- the manager's operations -----

  /** `_ensure_branch` and `_validate_branch`. */
  function EnsureBranch(g: Git, m: Manager, base: Commit, ancestor: Ancestry, faults: Faults): (Option<Problem>, Git) {
    if m.branch !in g.branches && faults.branch then (Some(BranchNotCreated), g)
    else
      var ensured := if m.branch in g.branches then g else g.(branches := g.branches[m.branch := base]);
      if !ancestor(base, ensured.branches[m.branch]) then (Some(UnrelatedBranch), ensured) else (None, ensured)
  }

  /** `git worktree add` and what follows it. */
  function Materialize(g: Git, m: Manager, base: Commit, faults: Faults): (Result<ExecutionWorkspace, Problem>, Git) {
    var added := if faults.add then None else AddWorktree(g, m.path, m.branch);
    if added.Some? then
      (ValidateExisting(added.value, m, RegisteredAt(added.value.registrations, m.path), base), added.value)
    else if RegisteredAt(g.registrations, m.path).Some? then
      (ValidateExisting(g, m, RegisteredAt(g.registrations, m.path), base), g)
    else (Err(NotAdded), g)
  }

  function Prepared(g: Git, m: Manager, base: Commit, ancestor: Ancestry, faults: Faults)
    : (Result<ExecutionWorkspace, Problem>, Git)
  {
    if base !in g.trees then (Err(BaseUnavailable), g)
    else
      var (problem, ensured) := EnsureBranch(g, m, base, ancestor, faults);
      if problem.Some? then (Err(problem.value), ensured)
      else
        var branchPath := BranchPath(ensured.registrations, m.branch);
        var registration := RegisteredAt(ensured.registrations, m.path);
        if branchPath.Some? && branchPath.value != m.path then (Err(BranchElsewhere), ensured)
        else if registration.Some? then
          if IsDir(ensured, m.path) then (ValidateExisting(ensured, m, registration, base), ensured)
          else
            var pruned := if faults.remove then None else RemoveWorktree(ensured, m.path, false);
            if pruned.None? then (Err(NotRemoved), ensured) else Materialize(pruned.value, m, base, faults)
        else if m.path in ensured.files then
          (Err(if ensured.files[m.path].Checkout? || ensured.files[m.path].OtherRepository? then OtherRepositoryThere
               else NotARegisteredWorktree), ensured)
        else Materialize(ensured, m, base, faults)
  }

  datatype Inspection = Recoverable | Unsafe | Reusable(workspace: ExecutionWorkspace)

  function Inspected(g: Git, m: Manager, base: Commit, expected: Option<Commit>, ancestor: Ancestry): Inspection {
    if base !in g.trees then Unsafe
    else if m.branch !in g.branches || !ancestor(base, g.branches[m.branch]) then Recoverable
    else
      var branchPath := BranchPath(g.registrations, m.branch);
      var registration := RegisteredAt(g.registrations, m.path);
      if branchPath.Some? && branchPath.value != m.path then Unsafe
      else if registration.None? || !IsDir(g, m.path) then if m.path in g.files then Unsafe else Recoverable
      else match ValidateExisting(g, m, registration, base)
        case Err(_) => Unsafe
        case Ok(workspace) =>
          if expected.Some? && workspace.head != expected.value then Unsafe
          else if workspace.dirty then Unsafe
          else Reusable(workspace)
  }

  function Retired(g: Git, m: Manager, workspace: ExecutionWorkspace, expected: Commit, faults: Faults)
    : (Option<Problem>, Git)
  {
    if workspace.ticket != m.ticket || workspace.branch != m.branch then (Some(WrongIdentity), g)
    else if workspace.path != m.path || workspace.head != expected then (Some(WrongCheckpoint), g)
    else if workspace.dirty then (Some(Unclean), g)
    else
      var branchPath := BranchPath(g.registrations, m.branch);
      var registration := RegisteredAt(g.registrations, m.path);
      if branchPath.Some? && branchPath.value != m.path then (Some(BranchElsewhere), g)
      else if registration.None? then (if m.path in g.files then Some(NotARegisteredWorktree) else None, g)
      else match ValidateExisting(g, m, registration, workspace.base)
        case Err(problem) => (Some(problem), g)
        case Ok(validated) =>
          if validated.head != expected || validated.dirty then (Some(Changed), g)
          else
            var removed := if faults.remove then None else RemoveWorktree(g, m.path, true);
            if removed.None? then (Some(NotRemoved), g)
            else if m.path in removed.value.files || RegisteredAt(removed.value.registrations, m.path).Some? then
              (Some(NotRemoved), removed.value)
            else (None, removed.value)
  }

  // ----- what Git guarantees -----

  /** Everything except this manager's own branch and path. */
  predicate OthersUntouched(g: Git, h: Git, m: Manager) {
    && h.trees == g.trees
    && (forall b <- g.branches :: b in h.branches && h.branches[b] == g.branches[b])
    && h.branches.Keys <= g.branches.Keys + {m.branch}
    && h.files - {m.path} == g.files - {m.path}
    && WithoutPath(h.registrations, m.path) == WithoutPath(g.registrations, m.path)
  }

  lemma {:induction false} AddedRegistration(regs: seq<Registration>, r: Registration)
    requires RegisteredAt(regs, r.path).None?
    ensures RegisteredAt(regs + [r], r.path) == Some(r)
    ensures WithoutPath(regs + [r], r.path) == regs == WithoutPath(regs, r.path)
  {
    if regs == [] {
      assert [] + [r] == [r];
    } else {
      assert (regs + [r])[1..] == regs[1..] + [r] && (regs + [r])[0] == regs[0];
      AddedRegistration(regs[1..], r);
    }
  }

  lemma {:induction false} BranchPathOfAdded(regs: seq<Registration>, r: Registration, branch: string)
    requires BranchPath(regs, branch).None? && r.head == OnBranch(branch)
    ensures BranchPath(regs + [r], branch) == Some(r.path)
  {
    if regs == [] {
      assert [] + [r] == [r];
    } else {
      assert (regs + [r])[1..] == regs[1..] + [r] && (regs + [r])[0] == regs[0];
      BranchPathOfAdded(regs[1..], r, branch);
    }
  }

  ghost predicate DistinctPaths(regs: seq<Registration>) {
    forall i, j :: 0 <= i < j < |regs| ==> regs[i].path != regs[j].path
  }

  lemma {:induction false} RemovedRegistration(regs: seq<Registration>, path: Path)
    requires DistinctPaths(regs)
    ensures RegisteredAt(WithoutPath(regs, path), path).None?
    ensures WithoutPath(WithoutPath(regs, path), path) == WithoutPath(regs, path)
  {
    if regs != [] {
      if regs[0].path == path {
        NotRegistered(regs[1..], path);
      } else {
        RemovedRegistration(regs[1..], path);
        var rest := WithoutPath(regs[1..], path);
        assert ([regs[0]] + rest)[1..] == rest;
      }
    }
  }

  lemma {:induction false} NotRegistered(regs: seq<Registration>, path: Path)
    requires forall i :: 0 <= i < |regs| ==> regs[i].path != path
    ensures RegisteredAt(regs, path).None? && WithoutPath(regs, path) == regs
  {
    if regs != [] { NotRegistered(regs[1..], path); }
  }

  lemma {:induction false} BranchPathIsThere(regs: seq<Registration>, branch: string) returns (i: nat)
    requires BranchPath(regs, branch).Some?
    ensures i < |regs| && regs[i].head == OnBranch(branch) && regs[i].path == BranchPath(regs, branch).value
  {
    if regs[0].head == OnBranch(branch) {
      i := 0;
    } else {
      i := BranchPathIsThere(regs[1..], branch);
      i := i + 1;
    }
  }

  ghost predicate BranchOnce(regs: seq<Registration>, branch: string) {
    forall i, j :: 0 <= i < j < |regs| && regs[i].head == OnBranch(branch) ==> regs[j].head != OnBranch(branch)
  }

  /** Removing the only worktree on a branch leaves the branch free. */
  lemma {:induction false} BranchFreed(regs: seq<Registration>, path: Path, branch: string)
    requires DistinctPaths(regs) && BranchOnce(regs, branch)
    requires BranchPath(regs, branch) == Some(path) || BranchPath(regs, branch) == None
    ensures BranchPath(WithoutPath(regs, path), branch).None?
  {
    if regs != [] {
      if regs[0].path == path {
        if regs[0].head == OnBranch(branch) {
          NotOnBranch(regs[1..], branch);
        } else if BranchPath(regs[1..], branch).Some? {
          var i := BranchPathIsThere(regs[1..], branch);
          assert false;
        }
      } else {
        BranchFreed(regs[1..], path, branch);
      }
    }
  }

  lemma {:induction false} NotOnBranch(regs: seq<Registration>, branch: string)
    requires forall i :: 0 <= i < |regs| ==> regs[i].head != OnBranch(branch)
    ensures BranchPath(regs, branch).None?
  {
    if regs != [] { NotOnBranch(regs[1..], branch); }
  }

  // ----- prepare -----

  /**
   * `inspect` answers reusable exactly when `prepare` would return that very workspace and leave the repository
   * as it is, the workspace is clean, and its head is the expected one.
   */
  lemma ReusableExactly(g: Git, m: Manager, base: Commit, expected: Option<Commit>, ancestor: Ancestry, faults: Faults,
                        workspace: ExecutionWorkspace)
    ensures Inspected(g, m, base, expected, ancestor) == Reusable(workspace)
       <==> Prepared(g, m, base, ancestor, faults) == (Ok(workspace), g) && !workspace.dirty
            && (expected.Some? ==> expected.value == workspace.head)
  {
    hide RemoveWorktree, Materialize;
    var (r, h) := Prepared(g, m, base, ancestor, faults);
    var ensured := EnsureBranch(g, m, base, ancestor, faults).1;
    MaterializedIsThere(ensured, m, base, faults);
    var pruned := RemoveWorktree(ensured, m.path, false);
    if pruned.Some? {
      MaterializedIsThere(pruned.value, m, base, faults);
      PruningKeepsBranches(ensured, m.path);
    }
    assert r.Ok? ==> m.branch in h.branches && IsDir(h, m.path);
  }

  lemma PruningKeepsBranches(g: Git, path: Path)
    requires RemoveWorktree(g, path, false).Some?
    ensures RemoveWorktree(g, path, false).value.branches == g.branches
  {
  }

  lemma MaterializedIsThere(g: Git, m: Manager, base: Commit, faults: Faults)
    ensures var (r, h) := Materialize(g, m, base, faults);
            h.branches == g.branches && (r.Ok? ==> IsDir(h, m.path))
  {
  }

  lemma RemovedIsLocal(g: Git, path: Path, force: bool)
    requires DistinctPaths(g.registrations) && RemoveWorktree(g, path, force).Some?
    ensures var h := RemoveWorktree(g, path, force).value;
            && h.trees == g.trees && h.branches == g.branches && h.files == g.files - {path}
            && h.files - {path} == g.files - {path}
            && WithoutPath(h.registrations, path) == h.registrations == WithoutPath(g.registrations, path)
            && RegisteredAt(h.registrations, path).None?
  {
    RemovedRegistration(g.registrations, path);
    assert g.files - {path} - {path} == g.files - {path};
  }

  /** What `git worktree add` leaves, if it succeeds, is a clean workspace at the branch's head. */
  lemma AddedIsValid(g: Git, m: Manager, base: Commit)
    requires AddWorktree(g, m.path, m.branch).Some?
    ensures var h := AddWorktree(g, m.path, m.branch).value;
            && ValidateExisting(h, m, RegisteredAt(h.registrations, m.path), base)
               == Ok(ExecutionWorkspace(m.ticket, m.branch, m.path, g.branches[m.branch], base, false))
            && BranchPath(h.registrations, m.branch) == Some(m.path) && RegisteredAt(h.registrations, m.path).Some?
            && WithoutPath(h.registrations, m.path) == WithoutPath(g.registrations, m.path)
            && h.files - {m.path} == g.files - {m.path}
  {
    var r := Registration(m.path, OnBranch(m.branch), false);
    AddedRegistration(g.registrations, r);
    BranchPathOfAdded(g.registrations, r, m.branch);
    var h := AddWorktree(g, m.path, m.branch).value;
    assert h.files - {m.path} == g.files - {m.path};
  }

  lemma MaterializedIsLocal(g: Git, m: Manager, base: Commit, faults: Faults)
    ensures var (r, h) := Materialize(g, m, base, faults);
            && h.trees == g.trees && h.branches == g.branches
            && WithoutPath(h.registrations, m.path) == WithoutPath(g.registrations, m.path)
            && h.files - {m.path} == g.files - {m.path}
            && (r.Ok? ==> ValidateExisting(h, m, RegisteredAt(h.registrations, m.path), base) == r)
  {
    hide ValidateExisting;
    if AddWorktree(g, m.path, m.branch).Some? { AddedIsValid(g, m, base); }
  }

  /** `prepare` never moves an existing branch, and touches no other branch, worktree or path, even when it fails. */
  lemma PrepareIsLocal(g: Git, m: Manager, base: Commit, ancestor: Ancestry, faults: Faults)
    requires DistinctPaths(g.registrations)
    ensures OthersUntouched(g, Prepared(g, m, base, ancestor, faults).1, m)
  {
    hide ValidateExisting, Materialize, RemoveWorktree, OthersUntouched, EnsureBranch;
    var ensured := EnsureBranch(g, m, base, ancestor, faults).1;
    EnsureIsLocal(g, m, base, ancestor, faults);
    MaterializedIsLocal(ensured, m, base, faults);
    SameOutside(g, ensured, Materialize(ensured, m, base, faults).1, m);
    var pruned := RemoveWorktree(ensured, m.path, false);
    if pruned.Some? {
      RemovedIsLocal(ensured, m.path, false);
      SameOutside(g, ensured, pruned.value, m);
      MaterializedIsLocal(pruned.value, m, base, faults);
      SameOutside(g, pruned.value, Materialize(pruned.value, m, base, faults).1, m);
    }
  }

  lemma EnsureIsLocal(g: Git, m: Manager, base: Commit, ancestor: Ancestry, faults: Faults)
    ensures var h := EnsureBranch(g, m, base, ancestor, faults).1;
            OthersUntouched(g, h, m) && OthersUntouched(g, g, m) && h.registrations == g.registrations
  {
  }

  lemma SameOutside(g: Git, h: Git, i: Git, m: Manager)
    requires OthersUntouched(g, h, m)
    requires i.branches == h.branches && i.trees == h.trees
    requires WithoutPath(i.registrations, m.path) == WithoutPath(h.registrations, m.path)
    requires i.files - {m.path} == h.files - {m.path}
    ensures OthersUntouched(g, i, m)
  {
  }

  /** A prepared workspace is bound to its branch, whose head descends from the base. */
  predicate Bound(g: Git, m: Manager, base: Commit, ancestor: Ancestry, workspace: ExecutionWorkspace) {
    && base in g.trees && m.branch in g.branches && ancestor(base, g.branches[m.branch])
    && (BranchPath(g.registrations, m.branch).Some? ==> BranchPath(g.registrations, m.branch).value == m.path)
    && ValidateExisting(g, m, RegisteredAt(g.registrations, m.path), base) == Ok(workspace)
  }

  /**
   * What `inspect` calls recoverable although the branch is there and related is a missing worktree, and
   * `prepare` restores it clean at the branch's head exactly when no locked registration is in the way.
   */
  lemma MissingWorktreeIsRestored(g: Git, m: Manager, base: Commit, expected: Option<Commit>, ancestor: Ancestry,
                                  faults: Faults)
    requires DistinctPaths(g.registrations) && BranchOnce(g.registrations, m.branch) && !faults.add && !faults.remove
    requires HeadTree(g, OnBranch(m.branch)).Some? && ancestor(base, g.branches[m.branch])
    requires Inspected(g, m, base, expected, ancestor).Recoverable?
    ensures var (r, h) := Prepared(g, m, base, ancestor, faults);
            var registration := RegisteredAt(g.registrations, m.path);
            && (r.Ok? <==> registration.None? || !registration.value.locked)
            && (r.Ok? ==> r.value == ExecutionWorkspace(m.ticket, m.branch, m.path, g.branches[m.branch], base, false))
  {
    hide Materialize, ValidateExisting;
    if RegisteredAt(g.registrations, m.path).Some? {
      if RemoveWorktree(g, m.path, false).Some? {
        RemovedIsLocal(g, m.path, false);
        BranchFreed(g.registrations, m.path, m.branch);
        RestoresHead(RemoveWorktree(g, m.path, false).value, m, base, faults);
      }
    } else {
      UnregisteredBranch(g, m);
      RestoresHead(g, m, base, faults);
    }
  }

  lemma UnregisteredBranch(g: Git, m: Manager)
    requires RegisteredAt(g.registrations, m.path).None?
    requires BranchPath(g.registrations, m.branch).Some? ==> BranchPath(g.registrations, m.branch).value == m.path
    ensures BranchPath(g.registrations, m.branch).None?
  {
    if BranchPath(g.registrations, m.branch).Some? {
      var i := BranchPathIsThere(g.registrations, m.branch);
      RegisteredSomewhere(g.registrations, i);
    }
  }

  lemma {:induction false} RegisteredSomewhere(regs: seq<Registration>, i: nat)
    requires i < |regs|
    ensures RegisteredAt(regs, regs[i].path).Some?
  {
    if regs[0].path != regs[i].path { RegisteredSomewhere(regs[1..], i - 1); }
  }

  /** What `prepare` returns is bound, so `inspect` finds it reusable as long as it is clean. */
  lemma PreparedIsBound(g: Git, m: Manager, base: Commit, ancestor: Ancestry, faults: Faults)
    requires DistinctPaths(g.registrations) && BranchOnce(g.registrations, m.branch)
    requires Prepared(g, m, base, ancestor, faults).0.Ok?
    ensures var (r, h) := Prepared(g, m, base, ancestor, faults);
            && Bound(h, m, base, ancestor, r.value) && r.value.head == h.branches[m.branch]
            && Inspected(h, m, base, None, ancestor) == (if r.value.dirty then Unsafe else Reusable(r.value))
  {
    hide Materialize, RemoveWorktree, AddWorktree;
    var ensured := EnsureBranch(g, m, base, ancestor, faults).1;
    MaterializedIsBound(ensured, m, base, ancestor, faults);
    var pruned := RemoveWorktree(ensured, m.path, false);
    if pruned.Some? {
      RemovedIsLocal(ensured, m.path, false);
      BranchFreed(ensured.registrations, m.path, m.branch);
      MaterializedIsBound(pruned.value, m, base, ancestor, faults);
    }
  }

  lemma MaterializedIsBound(g: Git, m: Manager, base: Commit, ancestor: Ancestry, faults: Faults)
    requires base in g.trees && m.branch in g.branches && ancestor(base, g.branches[m.branch])
    requires BranchPath(g.registrations, m.branch).Some? ==> BranchPath(g.registrations, m.branch).value == m.path
    ensures var (r, h) := Materialize(g, m, base, faults);
            r.Ok? ==> Bound(h, m, base, ancestor, r.value) && h.branches == g.branches
  {
    hide ValidateExisting;
    if AddWorktree(g, m.path, m.branch).Some? { AddedIsValid(g, m, base); }
  }

  // ----- retire -----

  /** `retire` removes its own registration and checkout and nothing else; when it fails it changes nothing. */
  lemma RetireIsLocal(g: Git, m: Manager, workspace: ExecutionWorkspace, expected: Commit, faults: Faults)
    requires DistinctPaths(g.registrations)
    ensures var (problem, h) := Retired(g, m, workspace, expected, faults);
            && h.branches == g.branches && h.trees == g.trees
            && (problem.None? ==> RegisteredAt(h.registrations, m.path).None? && m.path !in h.files
                                  && h.registrations == WithoutPath(g.registrations, m.path)
                                   && h.files == g.files - {m.path})
            && (problem.Some? ==> h == g)
  {
    hide ValidateExisting;
    if RemoveWorktree(g, m.path, true).Some? { RemovedIsLocal(g, m.path, true); }
    if RegisteredAt(g.registrations, m.path).None? { UnregisteredStays(g.registrations, m.path); }
  }

  /** `retire` throws no work away: what it removes had the index and files of the branch's head, as expected. */
  lemma RetireLosesNothing(g: Git, m: Manager, workspace: ExecutionWorkspace, expected: Commit, faults: Faults)
    requires Retired(g, m, workspace, expected, faults).0.None? && m.path in g.files
    ensures m.branch in g.branches && g.branches[m.branch] == expected && expected in g.trees
    ensures g.files[m.path] == Checkout(OnBranch(m.branch), g.trees[expected], g.trees[expected])
    ensures RegisteredAt(g.registrations, m.path).Some? && !RegisteredAt(g.registrations, m.path).value.locked
  {
  }

  lemma {:induction false} UnregisteredStays(regs: seq<Registration>, path: Path)
    requires RegisteredAt(regs, path).None?
    ensures WithoutPath(regs, path) == regs
  {
    if regs != [] { UnregisteredStays(regs[1..], path); }
  }

  /**
   * After a registered workspace was retired, `prepare` with its base restores a clean workspace at the same
   * head, exactly when that base is still a commit and an ancestor of the branch.
   */
  lemma PrepareAfterRetire(g: Git, m: Manager, workspace: ExecutionWorkspace, expected: Commit, ancestor: Ancestry,
                           faults: Faults)
    requires DistinctPaths(g.registrations) && BranchOnce(g.registrations, m.branch) && !faults.add
    requires RegisteredAt(g.registrations, m.path).Some? && Retired(g, m, workspace, expected, faults).0.None?
    ensures m.branch in g.branches && g.branches[m.branch] == expected && expected in g.trees
    ensures var retired := Retired(g, m, workspace, expected, faults).1;
            var (r, h) := Prepared(retired, m, workspace.base, ancestor, faults);
            && (r.Ok? <==> workspace.base in g.trees && ancestor(workspace.base, expected))
            && (r.Ok? ==> r.value == workspace && r.value.head == expected)
            && (r.Ok? ==> m.path in h.files
                          && h.files[m.path] == Checkout(OnBranch(m.branch), g.trees[expected], g.trees[expected]))
  {
    hide Materialize, RemoveWorktree;
    var retired := Retired(g, m, workspace, expected, faults).1;
    RemovedIsLocal(g, m.path, true);
    BranchFreed(g.registrations, m.path, m.branch);
    assert m.branch in g.branches && g.branches[m.branch] == expected;
    RestoresHead(retired, m, workspace.base, faults);
  }

  lemma RestoresHead(g: Git, m: Manager, base: Commit, faults: Faults)
    requires HeadTree(g, OnBranch(m.branch)).Some? && m.path !in g.files && !faults.add
    requires BranchPath(g.registrations, m.branch).None? && RegisteredAt(g.registrations, m.path).None?
    ensures Materialize(g, m, base, faults).0
         == Ok(ExecutionWorkspace(m.ticket, m.branch, m.path, g.branches[m.branch], base, false))
    ensures m.path in Materialize(g, m, base, faults).1.files
    ensures Materialize(g, m, base, faults).1.files[m.path] == CleanCheckout(g, m.branch)
  {
    hide ValidateExisting;
    AddedIsValid(g, m, base);
  }

  // ----- checkpoint -----

  datatype ExecutionCheckpoint = ExecutionCheckpoint(before: Commit, after: Commit, created: bool)

  /** `checkpoint`; `next` is the identifier Git would give the commit. */
  function Checkpointed(g: Git, m: Manager, workspace: ExecutionWorkspace, next: Commit, faults: Faults)
    : (Result<ExecutionCheckpoint, Problem>, Git)
  {
    if workspace.ticket != m.ticket || workspace.branch != m.branch || workspace.path != m.path
    then (Err(WrongIdentity), g)
    else match ValidateExisting(g, m, RegisteredAt(g.registrations, m.path), workspace.base)
      case Err(problem) => (Err(problem), g)
      case Ok(observed) =>
        if observed.head != workspace.head then (Err(HistoryChanged), g)
        else
          // git add -A, then git diff --cached
          var checkout := g.files[m.path];
          var staged := g.(files := g.files[m.path := checkout.(index := checkout.work)]);
          if Some(checkout.work) == HeadTree(g, checkout.head) then
            (Ok(ExecutionCheckpoint(observed.head, observed.head, false)), staged)
          else if faults.commit then (Err(NotCommitted), staged)
          else
            (Ok(ExecutionCheckpoint(observed.head, next, true)),
             staged.(trees := g.trees[next := checkout.work], branches := g.branches[m.branch := next]))
  }

  /**
   * A checkpoint leaves the workspace bound and clean, at a head that holds exactly the worker's files: the old
   * one when they are its own, a new commit otherwise. No other branch, commit, registration or path changes.
   */
  lemma CheckpointKeepsBinding(g: Git, m: Manager, observed: ExecutionWorkspace, workspace: ExecutionWorkspace,
                               ancestor: Ancestry, next: Commit, faults: Faults)
    requires Bound(g, m, observed.base, ancestor, observed) && workspace == observed.(dirty := workspace.dirty)
    requires next !in g.trees && ancestor(observed.base, next) && HeadTree(g, OnBranch(m.branch)).Some?
    requires Checkpointed(g, m, workspace, next, faults).0.Ok?
    ensures var (r, h) := Checkpointed(g, m, workspace, next, faults);
            && r.value.before == workspace.head && r.value.after == h.branches[m.branch]
            && r.value.after in h.trees && h.trees[r.value.after] == g.files[m.path].work
            && (r.value.created <==> r.value.after != workspace.head)
            && (r.value.created <==> HeadTree(g, OnBranch(m.branch)) != Some(g.files[m.path].work))
            && Bound(h, m, workspace.base, ancestor, workspace.(head := r.value.after, dirty := false))
            && h.registrations == g.registrations && h.branches - {m.branch} == g.branches - {m.branch}
            && h.files - {m.path} == g.files - {m.path} && h.trees - {next} == g.trees
            && h.files[m.path] == Checkout(OnBranch(m.branch), g.files[m.path].work, g.files[m.path].work)
  {
    var h := Checkpointed(g, m, workspace, next, faults).1;
    assert h.files - {m.path} == g.files - {m.path} && h.branches - {m.branch} == g.branches - {m.branch};
    assert h.trees - {next} == g.trees;
  }

  lemma BoundRetires(g: Git, m: Manager, workspace: ExecutionWorkspace, ancestor: Ancestry, faults: Faults)
    requires DistinctPaths(g.registrations) && Bound(g, m, workspace.base, ancestor, workspace) && !workspace.dirty
    requires !RegisteredAt(g.registrations, m.path).value.locked && !faults.remove
    ensures Retired(g, m, workspace, workspace.head, faults).0.None?
  {
    RemovedIsLocal(g, m.path, true);
  }

  /**
   * One execution: whatever the worker left in a bound workspace, checkpointing it, retiring the worktree and
   * preparing it again gives a clean workspace at the checkpoint's head, holding exactly the worker's files.
   */
  lemma CheckpointSurvivesRetirement(g: Git, m: Manager, observed: ExecutionWorkspace, workspace: ExecutionWorkspace,
                                     ancestor: Ancestry, next: Commit, faults: Faults)
    requires DistinctPaths(g.registrations) && BranchOnce(g.registrations, m.branch)
    requires Bound(g, m, observed.base, ancestor, observed) && workspace == observed.(dirty := workspace.dirty)
    requires next !in g.trees && ancestor(observed.base, next) && HeadTree(g, OnBranch(m.branch)).Some?
    requires !RegisteredAt(g.registrations, m.path).value.locked && faults == Faults(false, false, false, false)
    ensures Checkpointed(g, m, workspace, next, faults).0.Ok? && g.files[m.path].Checkout?
    ensures var (checkpoint, saved) := Checkpointed(g, m, workspace, next, faults);
            var clean := workspace.(head := checkpoint.value.after, dirty := false);
            var (problem, retired) := Retired(saved, m, clean, clean.head, faults);
            var (restored, h) := Prepared(retired, m, workspace.base, ancestor, faults);
            && problem.None? && restored == Ok(clean) && m.path !in retired.files
            && m.path in h.files && h.files[m.path]
                 == Checkout(OnBranch(m.branch), g.files[m.path].work, g.files[m.path].work)
  {
    hide Retired, Prepared, ValidateExisting;
    BoundCheckpoints(g, m, observed, workspace, ancestor, next, faults);
    CheckpointKeepsBinding(g, m, observed, workspace, ancestor, next, faults);
    var (checkpoint, saved) := Checkpointed(g, m, workspace, next, faults);
    var clean := workspace.(head := checkpoint.value.after, dirty := false);
    hide Checkpointed;
    BoundIsRegistered(saved, m, ancestor, clean);
    BoundRetires(saved, m, clean, ancestor, faults);
    RetireIsLocal(saved, m, clean, clean.head, faults);
    PrepareAfterRetire(saved, m, clean, clean.head, ancestor, faults);
  }

  lemma BoundCheckpoints(g: Git, m: Manager, observed: ExecutionWorkspace, workspace: ExecutionWorkspace,
                         ancestor: Ancestry, next: Commit, faults: Faults)
    requires Bound(g, m, observed.base, ancestor, observed) && workspace == observed.(dirty := workspace.dirty)
    requires !faults.commit
    ensures Checkpointed(g, m, workspace, next, faults).0.Ok? && g.files[m.path].Checkout?
  {
  }

  lemma BoundIsRegistered(g: Git, m: Manager, ancestor: Ancestry, workspace: ExecutionWorkspace)
    requires Bound(g, m, workspace.base, ancestor, workspace)
    ensures RegisteredAt(g.registrations, m.path).Some? && workspace.base in g.trees
    ensures workspace.head == g.branches[m.branch] && ancestor(workspace.base, workspace.head)
  {
  }

  // ----- the repository that the manager's methods change -----

  class Repository {
    var trees: map<Commit, Tree>
    var branches: map<string, Commit>
    var registrations: seq<Registration>
    var files: map<Path, Entry>

    constructor (g: Git)
      ensures State() == g
    {
      trees, branches, registrations, files := g.trees, g.branches, g.registrations, g.files;
    }

    function State(): Git
      reads this
    {
      Git(trees, branches, registrations, files)
    }

    method Add(path: Path, branch: string, fails: bool) returns (ok: bool)
      modifies this
      ensures var added := AddWorktree(old(State()), path, branch);
              ok == (!fails && added.Some?) && State() == if ok then added.value else old(State())
    {
      ok := !fails && HeadTree(State(), OnBranch(branch)).Some? && BranchPath(registrations, branch).None?
            && RegisteredAt(registrations, path).None? && path !in files;
      if ok {
        var tree := HeadTree(State(), OnBranch(branch)).value;
        registrations := registrations + [Registration(path, OnBranch(branch), false)];
        files := files[path := Checkout(OnBranch(branch), tree, tree)];
      }
    }

    method Remove(path: Path, force: bool, fails: bool) returns (ok: bool)
      modifies this
      ensures var removed := RemoveWorktree(old(State()), path, force);
              ok == (!fails && removed.Some?) && State() == if ok then removed.value else old(State())
    {
      ok := !fails && RemoveWorktree(State(), path, force).Some?;
      if ok {
        registrations := WithoutPath(registrations, path);
        files := files - {path};
      }
    }

    method Prepare(m: Manager, base: Commit, ancestor: Ancestry, faults: Faults)
      returns (r: Result<ExecutionWorkspace, Problem>)
      modifies this
      ensures (r, State()) == Prepared(old(State()), m, base, ancestor, faults)
    {
      hide ValidateExisting, AddWorktree, RemoveWorktree;
      if base !in trees {
        return Err(BaseUnavailable);
      }
      if m.branch !in branches {
        if faults.branch {
          return Err(BranchNotCreated);
        }
        branches := branches[m.branch := base];
      }
      if !ancestor(base, branches[m.branch]) {
        return Err(UnrelatedBranch);
      }
      var branchPath := BranchPath(registrations, m.branch);
      if branchPath.Some? && branchPath.value != m.path {
        return Err(BranchElsewhere);
      }
      var registration := RegisteredAt(registrations, m.path);
      if registration.Some? {
        if IsDir(State(), m.path) {
          r := ValidateExisting(State(), m, registration, base);
          return;
        }
        var pruned := Remove(m.path, false, faults.remove);
        if !pruned {
          return Err(NotRemoved);
        }
      } else if m.path in files {
        var checkout := files[m.path].Checkout? || files[m.path].OtherRepository?;
        return Err(if checkout then OtherRepositoryThere else NotARegisteredWorktree);
      }
      if AddWorktree(State(), m.path, m.branch).Some? {
        AddedIsValid(State(), m, base);
      }
      var _ := Add(m.path, m.branch, faults.add);
      registration := RegisteredAt(registrations, m.path);
      if registration.None? {
        return Err(NotAdded);
      }
      r := ValidateExisting(State(), m, registration, base);
    }

    method Retire(m: Manager, workspace: ExecutionWorkspace, expected: Commit, faults: Faults)
      returns (problem: Option<Problem>)
      modifies this
      ensures (problem, State()) == Retired(old(State()), m, workspace, expected, faults)
    {
      hide ValidateExisting, RemoveWorktree;
      if workspace.ticket != m.ticket || workspace.branch != m.branch {
        return Some(WrongIdentity);
      }
      if workspace.path != m.path || workspace.head != expected {
        return Some(WrongCheckpoint);
      }
      if workspace.dirty {
        return Some(Unclean);
      }
      var branchPath := BranchPath(registrations, m.branch);
      if branchPath.Some? && branchPath.value != m.path {
        return Some(BranchElsewhere);
      }
      var registration := RegisteredAt(registrations, m.path);
      if registration.None? {
        return if m.path in files then Some(NotARegisteredWorktree) else None;
      }
      var validated := ValidateExisting(State(), m, registration, workspace.base);
      if validated.Err? {
        return Some(validated.error);
      }
      if validated.value.head != expected || validated.value.dirty {
        return Some(Changed);
      }
      var removed := Remove(m.path, true, faults.remove);
      if !removed || m.path in files || RegisteredAt(registrations, m.path).Some? {
        return Some(NotRemoved);
      }
      return None;
    }

    method Checkpoint(m: Manager, workspace: ExecutionWorkspace, next: Commit, faults: Faults)
      returns (r: Result<ExecutionCheckpoint, Problem>)
      modifies this
      ensures (r, State()) == Checkpointed(old(State()), m, workspace, next, faults)
    {
      if workspace.ticket != m.ticket || workspace.branch != m.branch || workspace.path != m.path {
        return Err(WrongIdentity);
      }
      var observed := ValidateExisting(State(), m, RegisteredAt(registrations, m.path), workspace.base);
      if observed.Err? {
        return Err(observed.error);
      }
      var before := observed.value.head;
      if before != workspace.head {
        return Err(HistoryChanged);
      }
      var checkout := files[m.path];
      files := files[m.path := checkout.(index := checkout.work)];
      if Some(checkout.work) == HeadTree(State(), checkout.head) {
        return Ok(ExecutionCheckpoint(before, before, false));
      }
      if faults.commit {
        return Err(NotCommitted);
      }
      trees := trees[next := checkout.work];
      branches := branches[m.branch := next];
      return Ok(ExecutionCheckpoint(before, next, true));
    }
  }
}
