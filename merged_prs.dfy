/**
 * Reconciling local branches with pull requests that have been merged:
 * `update_merged_pr_branch` and `update_merged_prs` of git_sync/git.py.
 */
module MergedBranches {

  import opened Wrappers
  import opened Text
  import opened GitOutput
  import opened GitRepo
  import opened Github

  // ---------------------------------------------------------------------
  // update_merged_pr_branch

  /** Changes `diff --cached --exit-code` or `diff --exit-code` would print. */
  predicate Dirty(s: RepoState) {
    s.staged || s.unstaged
  }

  /** The branch is deleted rather than moved: deletion is allowed and no branch tracks it. */
  predicate Deletes(s: RepoState, name: string, allowDelete: bool) {
    allowDelete && !IsUpstream(s, name)
  }

  /**
   * Delete or move one merged branch. The checked-out branch is skipped when
   * the working tree has changes; before it is deleted, its local upstream
   * (or `main`) is checked out; it is moved with `reset --hard`, any other
   * branch with `branch --force`. The first failing command is reported.
   */
  function MergedPrBranch(env: Env, s: RepoState, name: string, mergedHash: string, allowDelete: bool): (RepoState, Option<GitError>) {
    if s.head == Some(name) then
      if Dirty(s) then (s, None)
      else if Deletes(s, name, allowDelete) then
        var (s1, e1) := Run(env, s, GitCheckout(CheckoutTarget(s, name)));
        if e1.Some? then (s1, e1) else Run(env, s1, GitBranchDelete(name))
      else Run(env, s, GitResetHard(mergedHash))
    else if Deletes(s, name, allowDelete) then Run(env, s, GitBranchDelete(name))
    else Run(env, s, GitBranchForce(name, mergedHash))
  }

  /** The two maps agree about branch `n`. */
  predicate AgreesAt(m1: map<string, string>, m2: map<string, string>, n: string) {
    (n in m1 <==> n in m2) && (n in m1 ==> m1[n] == m2[n])
  }

  /** Uncommitted changes on the checked-out branch are never touched: the call does nothing. */
  lemma MergedPrBranchDirty(env: Env, s: RepoState, name: string, mergedHash: string, allowDelete: bool)
    requires s.head == Some(name) && Dirty(s)
    ensures MergedPrBranch(env, s, name, mergedHash, allowDelete) == (s, None)
  {
  }

  /**
   * On success the branch is gone exactly when deletion was chosen, and
   * otherwise it is at the merged commit.
   */
  lemma MergedPrBranchOutcome(env: Env, s: RepoState, name: string, mergedHash: string, allowDelete: bool)
    requires !(s.head == Some(name) && Dirty(s))
    ensures var (r, err) := MergedPrBranch(env, s, name, mergedHash, allowDelete);
      err.None? ==> (name in r.heads <==> !Deletes(s, name, allowDelete)) && (name in r.heads ==> r.heads[name] == mergedHash)
  {
    if s.head == Some(name) && Deletes(s, name, allowDelete) {
      var t := CheckoutTarget(s, name);
      var (s1, e1) := Run(env, s, GitCheckout(t));
      CheckoutSpec(env, s, t);
      BranchDeleteSpec(env, s1, name);
    } else if s.head == Some(name) {
      ResetHardSpec(env, s, name, mergedHash);
    } else if Deletes(s, name, allowDelete) {
      BranchDeleteSpec(env, s, name);
    } else {
      BranchForceSpec(env, s, name, mergedHash);
    }
  }

  /** When the call fails, in each of its four branches. */
  lemma MergedPrBranchSucceeds(env: Env, s: RepoState, name: string, mergedHash: string, allowDelete: bool)
    requires !(s.head == Some(name) && Dirty(s))
    ensures var err := MergedPrBranch(env, s, name, mergedHash, allowDelete).1;
      var t := CheckoutTarget(s, name);
      && (s.head == Some(name) && Deletes(s, name, allowDelete) ==>
            (err.None? <==> t in s.heads && t != name && name in s.heads))
      && (s.head == Some(name) && !Deletes(s, name, allowDelete) ==> (err.None? <==> mergedHash in env.objects))
      && (s.head != Some(name) && Deletes(s, name, allowDelete) ==> (err.None? <==> name in s.heads))
      && (s.head != Some(name) && !Deletes(s, name, allowDelete) ==> (err.None? <==> mergedHash in env.objects))
  {
    if s.head == Some(name) && Deletes(s, name, allowDelete) {
      var t := CheckoutTarget(s, name);
      var (s1, e1) := Run(env, s, GitCheckout(t));
      CheckoutSpec(env, s, t);
      BranchDeleteSpec(env, s1, name);
    } else if s.head == Some(name) {
      ResetHardSpec(env, s, name, mergedHash);
    } else if Deletes(s, name, allowDelete) {
      BranchDeleteSpec(env, s, name);
    } else {
      BranchForceSpec(env, s, name, mergedHash);
    }
  }

  /** No branch other than `name` is created, deleted or moved; no other upstream and no remote-tracking ref changes. */
  lemma MergedPrBranchFrame(env: Env, s: RepoState, name: string, mergedHash: string, allowDelete: bool, n: string)
    requires n != name
    ensures var r := MergedPrBranch(env, s, name, mergedHash, allowDelete).0;
      && AgreesAt(s.heads, r.heads, n) && AgreesAt(s.upstreams, r.upstreams, n)
      && r.remoteRefs == s.remoteRefs
  {
    if s.head == Some(name) && !Dirty(s) && Deletes(s, name, allowDelete) {
      SwitchAndDeleteFrame(env, s, name, n);
    } else if s.head == Some(name) && !Dirty(s) {
      ResetHardSpec(env, s, name, mergedHash);
    } else if s.head != Some(name) && Deletes(s, name, allowDelete) {
      BranchDeleteSpec(env, s, name);
    } else if s.head != Some(name) {
      BranchForceSpec(env, s, name, mergedHash);
    }
  }

  /** Checking out the target and deleting `name` leaves every other branch, upstream and remote ref alone. */
  lemma SwitchAndDeleteFrame(env: Env, s: RepoState, name: string, n: string)
    requires n != name
    ensures var t := CheckoutTarget(s, name);
      var (s1, e1) := Run(env, s, GitCheckout(t));
      var r := if e1.Some? then s1 else Run(env, s1, GitBranchDelete(name)).0;
      && AgreesAt(s.heads, r.heads, n) && AgreesAt(s.upstreams, r.upstreams, n)
      && r.remoteRefs == s.remoteRefs
  {
    var t := CheckoutTarget(s, name);
    var (s1, e1) := Run(env, s, GitCheckout(t));
    CheckoutSpec(env, s, t);
    BranchDeleteSpec(env, s1, name);
  }

  /**
   * Where HEAD ends up: it moves only when the checked-out branch is
   * deleted, and then to its local upstream or to `main`; a branch that is
   * moved while checked out has its working tree reset.
   */
  lemma MergedPrBranchHead(env: Env, s: RepoState, name: string, mergedHash: string, allowDelete: bool)
    ensures var (r, err) := MergedPrBranch(env, s, name, mergedHash, allowDelete);
      && (s.head != Some(name) ==> r.head == s.head && r.staged == s.staged && r.unstaged == s.unstaged)
      && (s.head == Some(name) && !Dirty(s) && Deletes(s, name, allowDelete) && err.None? ==>
            r.head == Some(CheckoutTarget(s, name)) && r.head != Some(name) && !Dirty(r))
      && (s.head == Some(name) && !Dirty(s) && !Deletes(s, name, allowDelete) && err.None? ==>
            r.head == Some(name) && !Dirty(r))
  {
    if s.head == Some(name) && !Dirty(s) && Deletes(s, name, allowDelete) {
      var t := CheckoutTarget(s, name);
      var (s1, e1) := Run(env, s, GitCheckout(t));
      CheckoutSpec(env, s, t);
      BranchDeleteSpec(env, s1, name);
    } else if s.head == Some(name) && !Dirty(s) {
      ResetHardSpec(env, s, name, mergedHash);
    } else if s.head != Some(name) && Deletes(s, name, allowDelete) {
      BranchDeleteSpec(env, s, name);
    } else if s.head != Some(name) {
      BranchForceSpec(env, s, name, mergedHash);
    }
  }

  // ---------------------------------------------------------------------
  // update_merged_prs

  /**
   * The gate of `update_merged_prs`: the PR has a merged commit, its branch
   * was present when the listing was taken and not already at that commit,
   * and the push remote is one of the PR's repositories.
   */
  predicate Eligible(snapshot: map<string, string>, pushUrl: string, pr: PullRequest) {
    && pr.mergedHash.Some? && pr.mergedHash.value != ""
    && pr.branchName in snapshot
    && pr.mergedHash.value != snapshot[pr.branchName]
    && pushUrl in pr.repoUrls
  }

  /** The branch is still at (an ancestor of) the commit the PR was merged from. */
  predicate BranchIsAncestor(env: Env, s: RepoState, pr: PullRequest) {
    IsAncestor(AncestorExit(env, s, pr.branchName, pr.branchHash)) == Ok(true)
  }

  /** One iteration of `update_merged_prs`; a failing `merge-base` skips the PR. */
  function MergedPrStep(env: Env, s: RepoState, snapshot: map<string, string>, pushUrl: string, pr: PullRequest, allowDelete: bool): (RepoState, Option<GitError>) {
    if Eligible(snapshot, pushUrl, pr) && BranchIsAncestor(env, s, pr) then
      MergedPrBranch(env, s, pr.branchName, pr.mergedHash.value, allowDelete)
    else (s, None)
  }

  /** The iterations from `prs` on, against a fixed branch listing; an error from a branch update stops the loop. */
  function MergedPrsFrom(env: Env, s: RepoState, snapshot: map<string, string>, pushUrl: string, prs: seq<PullRequest>, allowDelete: bool): (RepoState, Option<GitError>)
    decreases |prs|
  {
    if prs == [] then (s, None)
    else
      var (s1, err) := MergedPrStep(env, s, snapshot, pushUrl, prs[0], allowDelete);
      if err.Some? then (s1, err) else MergedPrsFrom(env, s1, snapshot, pushUrl, prs[1..], allowDelete)
  }

  /** `update_merged_prs`: the branch listing is taken once, before the loop. */
  function MergedPrs(env: Env, s: RepoState, pushUrl: string, prs: seq<PullRequest>, allowDelete: bool): (RepoState, Option<GitError>) {
    MergedPrsFrom(env, s, s.heads, pushUrl, prs, allowDelete)
  }

  /** The exit status of `merge-base --is-ancestor` and what `is_ancestor` makes of it. */
  lemma AncestorExitSpec(env: Env, s: RepoState, c1: string, c2: string)
    ensures var code := AncestorExit(env, s, c1, c2);
      && (code == 0 <==> Resolve(env, s, c1).Some? && Resolve(env, s, c2).Some? && Ancestor(env, Resolve(env, s, c1).value, Resolve(env, s, c2).value))
      && (code == 1 <==> Resolve(env, s, c1).Some? && Resolve(env, s, c2).Some? && !Ancestor(env, Resolve(env, s, c1).value, Resolve(env, s, c2).value))
      && (code == 128 <==> Resolve(env, s, c1).None? || Resolve(env, s, c2).None?)
      && (IsAncestor(code).Err? <==> code == 128)
  {
  }

  /** A PR that fails the gate, or whose branch has moved on, changes nothing. */
  lemma MergedPrStepSkips(env: Env, s: RepoState, snapshot: map<string, string>, pushUrl: string, pr: PullRequest, allowDelete: bool)
    requires !Eligible(snapshot, pushUrl, pr) || !BranchIsAncestor(env, s, pr)
    ensures MergedPrStep(env, s, snapshot, pushUrl, pr, allowDelete) == (s, None)
  {
  }

  /**
   * A branch deleted by an earlier PR of the same run is still in the
   * listing, but `merge-base` cannot resolve it: the PR is skipped without
   * an error.
   */
  lemma StaleListingSkips(env: Env, s: RepoState, snapshot: map<string, string>, pushUrl: string, pr: PullRequest, allowDelete: bool)
    requires pr.branchName !in s.heads && pr.branchName !in env.objects
    ensures MergedPrStep(env, s, snapshot, pushUrl, pr, allowDelete) == (s, None)
  {
    assert AncestorExit(env, s, pr.branchName, pr.branchHash) == 128;
  }

  /** One iteration touches only the PR's own branch, and HEAD only when that branch is checked out. */
  lemma MergedPrStepFrame(env: Env, s: RepoState, snapshot: map<string, string>, pushUrl: string, pr: PullRequest, allowDelete: bool, n: string)
    requires n != pr.branchName
    ensures var r := MergedPrStep(env, s, snapshot, pushUrl, pr, allowDelete).0;
      && AgreesAt(s.heads, r.heads, n) && AgreesAt(s.upstreams, r.upstreams, n) && r.remoteRefs == s.remoteRefs
      && (s.head != Some(pr.branchName) ==> r.head == s.head && r.staged == s.staged && r.unstaged == s.unstaged)
  {
    if Eligible(snapshot, pushUrl, pr) && BranchIsAncestor(env, s, pr) {
      MergedPrBranchFrame(env, s, pr.branchName, pr.mergedHash.value, allowDelete, n);
      MergedPrBranchHead(env, s, pr.branchName, pr.mergedHash.value, allowDelete);
    }
  }

  /** A branch that no PR names keeps its commit and its upstream; no remote-tracking ref changes. */
  lemma {:induction false} MergedPrsUntouched(env: Env, s: RepoState, snapshot: map<string, string>, pushUrl: string, prs: seq<PullRequest>, allowDelete: bool, n: string)
    requires forall i :: 0 <= i < |prs| ==> prs[i].branchName != n
    ensures var r := MergedPrsFrom(env, s, snapshot, pushUrl, prs, allowDelete).0;
      AgreesAt(s.heads, r.heads, n) && AgreesAt(s.upstreams, r.upstreams, n) && r.remoteRefs == s.remoteRefs
    decreases |prs|
  {
    if prs != [] {
      MergedPrStepFrame(env, s, snapshot, pushUrl, prs[0], allowDelete, n);
      var (s1, err) := MergedPrStep(env, s, snapshot, pushUrl, prs[0], allowDelete);
      if err.None? {
        MergedPrsUntouched(env, s1, snapshot, pushUrl, prs[1..], allowDelete, n);
      }
    }
  }

  // ---------------------------------------------------------------------
  // A second run with the same PRs changes nothing

  /** Nothing in the PR's situation would make an iteration act on it. */
  predicate Quiet(env: Env, s: RepoState, pushUrl: string, pr: PullRequest) {
    || !Eligible(s.heads, pushUrl, pr)
    || !BranchIsAncestor(env, s, pr)
    || (s.head == Some(pr.branchName) && Dirty(s))
  }

  /** The branch names of a PR list are distinct. */
  predicate DistinctNames(prs: seq<PullRequest>) {
    forall i, j :: 0 <= i < j < |prs| ==> prs[i].branchName != prs[j].branchName
  }

  /** No PR's head commit id is also the branch name of another PR of the list. */
  predicate HashesAreNotNames(prs: seq<PullRequest>) {
    forall i, j :: 0 <= i < |prs| && 0 <= j < |prs| && i != j ==> prs[i].branchHash != prs[j].branchName
  }

  /** With a fresh listing, a quiet PR is skipped. */
  lemma QuietStep(env: Env, s: RepoState, pushUrl: string, pr: PullRequest, allowDelete: bool)
    requires Quiet(env, s, pushUrl, pr)
    ensures MergedPrStep(env, s, s.heads, pushUrl, pr, allowDelete) == (s, None)
  {
    if Eligible(s.heads, pushUrl, pr) && BranchIsAncestor(env, s, pr) {
      MergedPrBranchDirty(env, s, pr.branchName, pr.mergedHash.value, allowDelete);
    }
  }

  /** A PR is quiet once its own iteration has succeeded. */
  lemma QuietAfter(env: Env, s: RepoState, snapshot: map<string, string>, pushUrl: string, pr: PullRequest, allowDelete: bool)
    requires AgreesAt(snapshot, s.heads, pr.branchName)
    requires MergedPrStep(env, s, snapshot, pushUrl, pr, allowDelete).1.None?
    ensures Quiet(env, MergedPrStep(env, s, snapshot, pushUrl, pr, allowDelete).0, pushUrl, pr)
  {
    if Eligible(snapshot, pushUrl, pr) && BranchIsAncestor(env, s, pr) {
      if !(s.head == Some(pr.branchName) && Dirty(s)) {
        MergedPrBranchOutcome(env, s, pr.branchName, pr.mergedHash.value, allowDelete);
      }
    }
  }

  /** The commit a revision names is unchanged when the branch of that name is. */
  lemma ResolveAgrees(env: Env, s: RepoState, r: RepoState, rev: string)
    requires AgreesAt(s.heads, r.heads, rev)
    ensures Resolve(env, s, rev) == Resolve(env, r, rev)
  {
  }

  /** An iteration for another branch keeps a quiet PR quiet. */
  lemma QuietKept(env: Env, s: RepoState, snapshot: map<string, string>, pushUrl: string, pr: PullRequest, other: PullRequest, allowDelete: bool)
    requires Quiet(env, s, pushUrl, pr)
    requires other.branchName != pr.branchName && other.branchName != pr.branchHash
    ensures Quiet(env, MergedPrStep(env, s, snapshot, pushUrl, other, allowDelete).0, pushUrl, pr)
  {
    var r := MergedPrStep(env, s, snapshot, pushUrl, other, allowDelete).0;
    MergedPrStepFrame(env, s, snapshot, pushUrl, other, allowDelete, pr.branchName);
    MergedPrStepFrame(env, s, snapshot, pushUrl, other, allowDelete, pr.branchHash);
    ResolveAgrees(env, s, r, pr.branchName);
    ResolveAgrees(env, s, r, pr.branchHash);
    assert AncestorExit(env, s, pr.branchName, pr.branchHash) == AncestorExit(env, r, pr.branchName, pr.branchHash);
  }

  lemma {:induction false} QuietKeptAll(env: Env, s: RepoState, snapshot: map<string, string>, pushUrl: string, prs: seq<PullRequest>, pr: PullRequest, allowDelete: bool)
    requires Quiet(env, s, pushUrl, pr)
    requires forall i :: 0 <= i < |prs| ==> prs[i].branchName != pr.branchName && prs[i].branchName != pr.branchHash
    ensures Quiet(env, MergedPrsFrom(env, s, snapshot, pushUrl, prs, allowDelete).0, pushUrl, pr)
    decreases |prs|
  {
    if prs != [] {
      QuietKept(env, s, snapshot, pushUrl, pr, prs[0], allowDelete);
      var (s1, err) := MergedPrStep(env, s, snapshot, pushUrl, prs[0], allowDelete);
      if err.None? {
        QuietKeptAll(env, s1, snapshot, pushUrl, prs[1..], pr, allowDelete);
      }
    }
  }

  /** A successful run leaves every PR of a list with distinct branch names quiet. */
  lemma {:induction false} SettlesAll(env: Env, s: RepoState, snapshot: map<string, string>, pushUrl: string, prs: seq<PullRequest>, allowDelete: bool)
    requires DistinctNames(prs) && HashesAreNotNames(prs)
    requires forall i :: 0 <= i < |prs| ==> AgreesAt(snapshot, s.heads, prs[i].branchName)
    requires MergedPrsFrom(env, s, snapshot, pushUrl, prs, allowDelete).1.None?
    ensures forall i :: 0 <= i < |prs| ==> Quiet(env, MergedPrsFrom(env, s, snapshot, pushUrl, prs, allowDelete).0, pushUrl, prs[i])
    decreases |prs|
  {
    if prs != [] {
      var p := prs[0];
      var rest := prs[1..];
      var (s1, err) := MergedPrStep(env, s, snapshot, pushUrl, p, allowDelete);
      assert err.None?;
      var r := MergedPrsFrom(env, s1, snapshot, pushUrl, rest, allowDelete).0;
      assert r == MergedPrsFrom(env, s, snapshot, pushUrl, prs, allowDelete).0;
      forall i | 0 <= i < |rest| ensures AgreesAt(snapshot, s1.heads, rest[i].branchName) {
        assert rest[i] == prs[i + 1];
        MergedPrStepFrame(env, s, snapshot, pushUrl, p, allowDelete, rest[i].branchName);
      }
      assert DistinctNames(rest) by {
        forall i, j | 0 <= i < j < |rest| ensures rest[i].branchName != rest[j].branchName {
          assert rest[i] == prs[i + 1] && rest[j] == prs[j + 1];
        }
      }
      assert HashesAreNotNames(rest) by {
        forall i, j | 0 <= i < |rest| && 0 <= j < |rest| && i != j ensures rest[i].branchHash != rest[j].branchName {
          assert rest[i] == prs[i + 1] && rest[j] == prs[j + 1];
        }
      }
      SettlesAll(env, s1, snapshot, pushUrl, rest, allowDelete);
      QuietAfter(env, s, snapshot, pushUrl, p, allowDelete);
      forall i | 0 <= i < |rest| ensures rest[i].branchName != p.branchName && rest[i].branchName != p.branchHash {
        assert rest[i] == prs[i + 1];
      }
      QuietKeptAll(env, s1, snapshot, pushUrl, rest, p, allowDelete);
      forall i | 0 <= i < |prs| ensures Quiet(env, r, pushUrl, prs[i]) {
        if i > 0 {
          assert prs[i] == rest[i - 1];
        }
      }
    }
  }

  /** With a fresh listing and every PR quiet, a run changes nothing. */
  lemma {:induction false} QuietRun(env: Env, s: RepoState, pushUrl: string, prs: seq<PullRequest>, allowDelete: bool)
    requires forall i :: 0 <= i < |prs| ==> Quiet(env, s, pushUrl, prs[i])
    ensures MergedPrsFrom(env, s, s.heads, pushUrl, prs, allowDelete) == (s, None)
    decreases |prs|
  {
    if prs != [] {
      QuietStep(env, s, pushUrl, prs[0], allowDelete);
      forall i | 0 <= i < |prs[1..]| ensures Quiet(env, s, pushUrl, prs[1..][i]) {
        assert prs[1..][i] == prs[i + 1];
      }
      QuietRun(env, s, pushUrl, prs[1..], allowDelete);
    }
  }

  /**
   * `update_merged_prs` is idempotent for PRs on distinct branches: after a
   * successful run, running it again with the same PRs changes nothing and
   * issues no command.
   */
  lemma MergedPrsIdempotent(env: Env, s: RepoState, pushUrl: string, prs: seq<PullRequest>, allowDelete: bool)
    requires DistinctNames(prs) && HashesAreNotNames(prs)
    requires MergedPrs(env, s, pushUrl, prs, allowDelete).1.None?
    ensures var r := MergedPrs(env, s, pushUrl, prs, allowDelete).0;
      MergedPrs(env, r, pushUrl, prs, allowDelete) == (r, None)
  {
    SettlesAll(env, s, s.heads, pushUrl, prs, allowDelete);
    QuietRun(env, MergedPrs(env, s, pushUrl, prs, allowDelete).0, pushUrl, prs, allowDelete);
  }

  // ---------------------------------------------------------------------
  // The reconciliation as programs over the repository

  method UpdateMergedPrBranch(repo: Repo, name: string, mergedHash: string, allowDelete: bool) returns (err: Option<GitError>)
    modifies repo
    ensures (repo.State(), err) == MergedPrBranch(repo.env, old(repo.State()), name, mergedHash, allowDelete)
  {
    err := None;
    var current := repo.head;
    if current == Some(name) {
      if repo.staged {
        return;
      }
      if repo.unstaged {
        return;
      }
      if allowDelete && !IsUpstream(repo.State(), name) {
        var upstream := UpstreamOf(repo.State(), name);
        var target := if upstream.Some? && upstream.value != "" then upstream.value else "main";
        err := repo.Git(GitCheckout(target), true);
        if err.Some? {
          return;
        }
        err := repo.Git(GitBranchDelete(name), true);
      } else {
        err := repo.Git(GitResetHard(mergedHash), true);
      }
    } else {
      if allowDelete && !IsUpstream(repo.State(), name) {
        err := repo.Git(GitBranchDelete(name), true);
      } else {
        err := repo.Git(GitBranchForce(name, mergedHash), true);
      }
    }
  }

  method UpdateMergedPrs(repo: Repo, pushUrl: string, prs: seq<PullRequest>, allowDelete: bool) returns (err: Option<GitError>)
    modifies repo
    ensures (repo.State(), err) == MergedPrs(repo.env, old(repo.State()), pushUrl, prs, allowDelete)
  {
    var branchHashes := repo.heads;
    ghost var s0 := repo.State();
    err := None;
    for i := 0 to |prs|
      invariant err.None?
      invariant MergedPrsFrom(repo.env, s0, branchHashes, pushUrl, prs, allowDelete)
        == MergedPrsFrom(repo.env, repo.State(), branchHashes, pushUrl, prs[i..], allowDelete)
    {
      assert prs[i..][1..] == prs[i + 1..];
      var pr := prs[i];
      var mergedHash := pr.mergedHash;
      if mergedHash.Some? && mergedHash.value != "" && pr.branchName in branchHashes
         && mergedHash.value != branchHashes[pr.branchName] && pushUrl in pr.repoUrls
      {
        var branchIsAncestor := repo.IsAncestorOf(pr.branchName, pr.branchHash);
        if branchIsAncestor == Ok(true) {
          err := UpdateMergedPrBranch(repo, pr.branchName, mergedHash.value, allowDelete);
          if err.Some? {
            return;
          }
        }
      }
    }
  }
}
