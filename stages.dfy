/**
 * The two synchronisation stages of git_sync/git.py: bringing local
 * branches up to their remote upstreams, and pushing local branches to
 * the push remote where it already has them.
 */
module GitStages {

  import opened Wrappers
  import opened Text
  import opened GitOutput
  import opened GitRepo

  // ---------------------------------------------------------------------
  // fetch_and_fast_forward_to_upstream

  predicate AnyCurrent(bs: seq<Branch>) {
    exists i :: 0 <= i < |bs| && bs[i].isCurrent
  }

  /** `upstream:name` for every branch that is not checked out, in order. */
  function Refspecs(bs: seq<Branch>): (rs: seq<Refspec>)
    ensures |rs| <= |bs|
    decreases |bs|
  {
    if bs == [] then []
    else
      var b := bs[|bs| - 1];
      var rest := Refspecs(bs[..|bs| - 1]);
      if b.isCurrent then rest else rest + [Refspec(b.upstream, b.name)]
  }

  lemma RefspecsMember(bs: seq<Branch>, r: Refspec)
    ensures r in Refspecs(bs) <==>
      exists i :: 0 <= i < |bs| && !bs[i].isCurrent && r == Refspec(bs[i].upstream, bs[i].name)
  {
    if r in Refspecs(bs) {
      RefspecsSound(bs, r);
    }
    forall i | 0 <= i < |bs| && !bs[i].isCurrent && r == Refspec(bs[i].upstream, bs[i].name)
      ensures r in Refspecs(bs)
    {
      RefspecsComplete(bs, i);
    }
  }

  lemma {:induction false} RefspecsSound(bs: seq<Branch>, r: Refspec)
    requires r in Refspecs(bs)
    ensures exists i :: 0 <= i < |bs| && !bs[i].isCurrent && r == Refspec(bs[i].upstream, bs[i].name)
    decreases |bs|
  {
    var k := |bs| - 1;
    var init, b := bs[..k], bs[k];
    if r in Refspecs(init) {
      RefspecsSound(init, r);
      var i :| 0 <= i < |init| && !init[i].isCurrent && r == Refspec(init[i].upstream, init[i].name);
      assert bs[i] == init[i];
    } else {
      assert !b.isCurrent && r == Refspec(b.upstream, b.name);
    }
  }

  lemma {:induction false} RefspecsComplete(bs: seq<Branch>, i: nat)
    requires i < |bs| && !bs[i].isCurrent
    ensures Refspec(bs[i].upstream, bs[i].name) in Refspecs(bs)
    decreases |bs|
  {
    var k := |bs| - 1;
    if i < k {
      var init := bs[..k];
      assert init[i] == bs[i];
      RefspecsComplete(init, i);
    }
  }

  lemma {:induction false} RefspecsEmpty(bs: seq<Branch>)
    ensures Refspecs(bs) == [] <==> forall i :: 0 <= i < |bs| ==> bs[i].isCurrent
  {
    if Refspecs(bs) == [] {
      forall i | 0 <= i < |bs| ensures bs[i].isCurrent {
        RefspecsMember(bs, Refspec(bs[i].upstream, bs[i].name));
      }
    } else {
      RefspecsMember(bs, Refspecs(bs)[0]);
    }
  }

  /** The branch a refspec writes: its destination without `refs/heads/`. */
  function Target(r: Refspec): string {
    Drop(r.dst, |HeadsPrefix|)
  }

  predicate DistinctTargets(rs: seq<Refspec>) {
    forall i, j :: 0 <= i < j < |rs| ==> Target(rs[i]) != Target(rs[j])
  }

  /** Names under `refs/heads/` are determined by their short name. */
  lemma ShortNameInjective(a: string, b: string)
    requires StartsWith(a, HeadsPrefix) && StartsWith(b, HeadsPrefix)
    requires Drop(a, |HeadsPrefix|) == Drop(b, |HeadsPrefix|)
    ensures a == b
  {
    assert a == HeadsPrefix + Drop(a, |HeadsPrefix|);
    assert b == HeadsPrefix + Drop(b, |HeadsPrefix|);
  }

  /** A listing of `refs/heads` names each branch once. */
  predicate BranchListing(bs: seq<Branch>) {
    && (forall i :: 0 <= i < |bs| ==> StartsWith(bs[i].name, HeadsPrefix))
    && (forall i, j :: 0 <= i < j < |bs| ==> bs[i].name != bs[j].name)
  }

  lemma {:induction false} RefspecsDistinct(bs: seq<Branch>)
    requires BranchListing(bs)
    ensures DistinctTargets(Refspecs(bs))
    decreases |bs|
  {
    if bs != [] {
      var k := |bs| - 1;
      var init := bs[..k];
      assert BranchListing(init) by {
        forall i | 0 <= i < |init| ensures StartsWith(init[i].name, HeadsPrefix) {
          assert init[i] == bs[i];
        }
      }
      RefspecsDistinct(init);
      var rs := Refspecs(init);
      if !bs[k].isCurrent {
        var r := Refspec(bs[k].upstream, bs[k].name);
        forall i | 0 <= i < |rs| ensures Target(rs[i]) != Target(r) {
          RefspecsMember(init, rs[i]);
          var j :| 0 <= j < |init| && !init[j].isCurrent && rs[i] == Refspec(init[j].upstream, init[j].name);
          assert init[j] == bs[j];
          if Target(rs[i]) == Target(r) {
            ShortNameInjective(bs[j].name, bs[k].name);
            assert false;
          }
        }
        assert Refspecs(bs) == rs + [r];
      }
    }
  }

  /** A refspec that `git fetch .` applies: see `ApplyRefspec`. */
  predicate Applies(env: Env, s: RepoState, r: Refspec) {
    ApplyRefspec(env, s, s.heads, r).Some?
  }

  /** Trying a refspec leaves every branch other than its target as it was. */
  lemma ApplyRefspecOther(env: Env, s: RepoState, heads: map<string, string>, r: Refspec, n: string)
    requires Target(r) != n
    ensures var h := ApplyRefspec(env, s, heads, r);
      h.Some? ==> (n in h.value <==> n in heads) && (n in heads ==> h.value[n] == heads[n])
  {
  }

  /** Trying a refspec on branches that agree with the repository at its target behaves as on the repository. */
  lemma ApplyRefspecSame(env: Env, s: RepoState, heads: map<string, string>, r: Refspec)
    requires (Target(r) in heads <==> Target(r) in s.heads)
    requires Target(r) in s.heads ==> heads[Target(r)] == s.heads[Target(r)]
    ensures var h := ApplyRefspec(env, s, heads, r);
      && (h.Some? <==> Applies(env, s, r))
      && (h.Some? ==> Target(r) in h.value && h.value[Target(r)] == s.remoteRefs[r.src])
  {
  }

  /** A branch no refspec targets keeps its commit. */
  lemma {:induction false} ApplyRefspecsUntouched(env: Env, s: RepoState, rs: seq<Refspec>, n: string)
    requires forall i :: 0 <= i < |rs| ==> Target(rs[i]) != n
    ensures var heads := ApplyRefspecs(env, s, rs).0;
      (n in heads <==> n in s.heads) && (n in s.heads ==> heads[n] == s.heads[n])
    decreases |rs|
  {
    if rs != [] {
      var k := |rs| - 1;
      ApplyRefspecsUntouched(env, s, rs[..k], n);
      ApplyRefspecOther(env, s, ApplyRefspecs(env, s, rs[..k]).0, rs[k], n);
    }
  }

  /** With one refspec per branch, each refspec's target ends where that refspec alone puts it. */
  lemma {:induction false} ApplyRefspecsAt(env: Env, s: RepoState, rs: seq<Refspec>, i: nat)
    requires DistinctTargets(rs) && i < |rs|
    ensures var heads := ApplyRefspecs(env, s, rs).0; var t := Target(rs[i]);
      && (Applies(env, s, rs[i]) ==> t in heads && heads[t] == s.remoteRefs[rs[i].src])
      && (!Applies(env, s, rs[i]) ==> (t in heads <==> t in s.heads) && (t in s.heads ==> heads[t] == s.heads[t]))
    decreases |rs|
  {
    var k := |rs| - 1;
    var init := rs[..k];
    var heads0 := ApplyRefspecs(env, s, init).0;
    if i == k {
      ApplyRefspecsUntouched(env, s, init, Target(rs[k]));
      ApplyRefspecSame(env, s, heads0, rs[k]);
    } else {
      assert DistinctTargets(init);
      ApplyRefspecsAt(env, s, init, i);
      assert init[i] == rs[i];
      ApplyRefspecOther(env, s, heads0, rs[k], Target(rs[i]));
    }
  }

  /** The local fetch exits with 0 exactly when every refspec applies. */
  lemma {:induction false} ApplyRefspecsOk(env: Env, s: RepoState, rs: seq<Refspec>)
    requires DistinctTargets(rs)
    ensures ApplyRefspecs(env, s, rs).1 <==> forall i :: 0 <= i < |rs| ==> Applies(env, s, rs[i])
    decreases |rs|
  {
    if rs != [] {
      var k := |rs| - 1;
      var init := rs[..k];
      assert DistinctTargets(init);
      ApplyRefspecsOk(env, s, init);
      ApplyRefspecsUntouched(env, s, init, Target(rs[k]));
      ApplyRefspecSame(env, s, ApplyRefspecs(env, s, init).0, rs[k]);
      if ApplyRefspecs(env, s, rs).1 {
        forall i | 0 <= i < |rs| ensures Applies(env, s, rs[i]) {
          if i < k {
            assert rs[i] == init[i];
          }
        }
      }
    }
  }

  /**
   * The refspecs tried one by one, with one refspec per branch: no branch is
   * lost, every branch ends at a descendant of its commit, and the
   * checked-out branch keeps its commit.
   */
  lemma ApplyRefspecsFastForward(env: Env, s: RepoState, rs: seq<Refspec>, n: string)
    requires DistinctTargets(rs) && n in s.heads
    ensures var heads := ApplyRefspecs(env, s, rs).0;
      && n in heads && Ancestor(env, s.heads[n], heads[n])
      && (s.head == Some(n) ==> heads[n] == s.heads[n])
  {
    if i :| 0 <= i < |rs| && Target(rs[i]) == n {
      ApplyRefspecsAt(env, s, rs, i);
    } else {
      ApplyRefspecsUntouched(env, s, rs, n);
    }
  }

  /**
   * `git fetch . src:dst ...` with one refspec per branch: when a source is
   * missing or a destination is checked out it exits with 128 and moves no
   * branch; otherwise each accepted refspec moves its branch to the commit
   * of its source, and a rejected one leaves its branch alone.
   */
  lemma FetchLocalAt(env: Env, s: RepoState, rs: seq<Refspec>, i: nat)
    requires DistinctTargets(rs) && i < |rs|
    ensures var (s', code) := Exec(env, s, GitFetchLocal(rs)); var t := Target(rs[i]);
      && (FetchAborts(s, rs) ==> code == 128 && s'.heads == s.heads)
      && (!FetchAborts(s, rs) && Applies(env, s, rs[i]) ==> t in s'.heads && s'.heads[t] == s.remoteRefs[rs[i].src])
      && (!FetchAborts(s, rs) && !Applies(env, s, rs[i]) ==> (t in s'.heads <==> t in s.heads) && (t in s.heads ==> s'.heads[t] == s.heads[t]))
  {
    if !FetchAborts(s, rs) {
      ApplyRefspecsAt(env, s, rs, i);
    }
  }

  /** The local fetch exits with 128 when it aborts, with 0 when every refspec applies, and with 1 otherwise. */
  lemma FetchLocalExit(env: Env, s: RepoState, rs: seq<Refspec>)
    requires DistinctTargets(rs)
    ensures var code := Exec(env, s, GitFetchLocal(rs)).1;
      && (code == 128 <==> FetchAborts(s, rs))
      && (code == 0 <==> !FetchAborts(s, rs) && forall i :: 0 <= i < |rs| ==> Applies(env, s, rs[i]))
      && (code == 0 || code == 1 || code == 128)
  {
    if !FetchAborts(s, rs) {
      ApplyRefspecsOk(env, s, rs);
    }
  }

  /**
   * Whether it aborts or not, the local fetch loses no branch, leaves every
   * branch at a descendant of its commit, and never moves the checked-out
   * branch.
   */
  lemma FetchLocalFastForward(env: Env, s: RepoState, rs: seq<Refspec>, n: string)
    requires DistinctTargets(rs) && n in s.heads
    ensures var heads := Exec(env, s, GitFetchLocal(rs)).0.heads;
      && n in heads && Ancestor(env, s.heads[n], heads[n])
      && (s.head == Some(n) ==> heads[n] == s.heads[n])
  {
    if !FetchAborts(s, rs) {
      ApplyRefspecsFastForward(env, s, rs, n);
    }
  }

  /** The upstream stage: `pull --all` or `fetch --all`, then a local fetch of every other branch. */
  function UpstreamStage(env: Env, s: RepoState, bs: seq<Branch>): (RepoState, Option<GitError>) {
    var first := if AnyCurrent(bs) then GitPullAll else GitFetchAll;
    var (s1, err) := Run(env, s, first);
    if err.Some? then (s1, err)
    else if Refspecs(bs) == [] then (s1, None)
    else (Exec(env, s1, GitFetchLocal(Refspecs(bs))).0, None)
  }

  /**
   * The stage fails exactly when its network command fails; the exit status
   * of the local fetch is ignored; the commands are issued in order.
   */
  lemma UpstreamStageCommands(env: Env, s: RepoState, bs: seq<Branch>)
    ensures var first := if AnyCurrent(bs) then GitPullAll else GitFetchAll;
      var (r, err) := UpstreamStage(env, s, bs);
      && (err.Some? <==> env.network(first) != 0)
      && (err.Some? ==> err.value == GitError(first, env.network(first)) && r.log == s.log + [first] && r.heads == s.heads)
      && (err.None? ==> r.remoteRefs == env.fetched && r.upstreams == s.upstreams && r.head == s.head)
      && (err.None? && (forall i :: 0 <= i < |bs| ==> bs[i].isCurrent) ==>
            r.log == s.log + [first] && r.heads == (if first == GitPullAll then PullHeads(env, s) else s.heads))
      && (err.None? && (exists i :: 0 <= i < |bs| && !bs[i].isCurrent) ==> r.log == s.log + [first, GitFetchLocal(Refspecs(bs))])
  {
    var first := if AnyCurrent(bs) then GitPullAll else GitFetchAll;
    FetchStep(env, s, first);
    RefspecsEmpty(bs);
    var (s1, e) := Run(env, s, first);
    if e.None? && Refspecs(bs) != [] {
      FetchLocalStep(env, s1, Refspecs(bs));
    }
  }

  /**
   * `pull --all` and `fetch --all`: logged, refreshing the remote-tracking
   * refs on success; a successful pull also moves the checked-out branch.
   */
  lemma FetchStep(env: Env, s: RepoState, c: Command)
    requires c == GitPullAll || c == GitFetchAll
    ensures var (s1, e) := Run(env, s, c);
      && s1.log == s.log + [c] && s1.upstreams == s.upstreams && s1.head == s.head
      && s1.heads == (if c == GitPullAll && e.None? then PullHeads(env, s) else s.heads)
      && (e.Some? <==> env.network(c) != 0)
      && (e.Some? ==> e.value == GitError(c, env.network(c)))
      && (e.None? ==> s1.remoteRefs == env.fetched)
  {
  }

  /** The local fetch is logged and changes only branches. */
  lemma FetchLocalStep(env: Env, s: RepoState, rs: seq<Refspec>)
    ensures var s1 := Exec(env, s, GitFetchLocal(rs)).0;
      && s1.log == s.log + [GitFetchLocal(rs)] && s1.upstreams == s.upstreams && s1.head == s.head
      && s1.remoteRefs == s.remoteRefs
  {
  }

  /** When the local fetch does not abort, each accepted refspec of the listing leaves its branch at the fetched commit. */
  lemma {:induction false} RefspecsApplied(env: Env, s1: RepoState, bs: seq<Branch>)
    requires BranchListing(bs) && !FetchAborts(s1, Refspecs(bs))
    ensures var m := Exec(env, s1, GitFetchLocal(Refspecs(bs))).0.heads;
      forall i :: 0 <= i < |bs| && !bs[i].isCurrent && Applies(env, s1, Refspec(bs[i].upstream, bs[i].name)) ==>
        Drop(bs[i].name, |HeadsPrefix|) in m && m[Drop(bs[i].name, |HeadsPrefix|)] == s1.remoteRefs[bs[i].upstream]
  {
    var rs := Refspecs(bs);
    RefspecsDistinct(bs);
    forall i | 0 <= i < |bs| && !bs[i].isCurrent && Applies(env, s1, Refspec(bs[i].upstream, bs[i].name))
      ensures var m := Exec(env, s1, GitFetchLocal(rs)).0.heads;
        Drop(bs[i].name, |HeadsPrefix|) in m && m[Drop(bs[i].name, |HeadsPrefix|)] == s1.remoteRefs[bs[i].upstream]
    {
      RefspecsMember(bs, Refspec(bs[i].upstream, bs[i].name));
      var j :| 0 <= j < |rs| && rs[j] == Refspec(bs[i].upstream, bs[i].name);
      FetchLocalAt(env, s1, rs, j);
    }
  }

  /** The branches after each step of the upstream stage. */
  lemma UpstreamStageHeads(env: Env, s: RepoState, bs: seq<Branch>)
    ensures var first := if AnyCurrent(bs) then GitPullAll else GitFetchAll;
      var s1 := Exec(env, s, first).0;
      var (r, err) := UpstreamStage(env, s, bs);
      && s1.head == s.head
      && (err.None? ==> s1.remoteRefs == env.fetched)
      && s1.heads == (if first == GitPullAll && err.None? then PullHeads(env, s) else s.heads)
      && r.heads == (if err.None? && Refspecs(bs) != [] then Exec(env, s1, GitFetchLocal(Refspecs(bs))).0.heads else s1.heads)
  {
    var first := if AnyCurrent(bs) then GitPullAll else GitFetchAll;
    FetchStep(env, s, first);
  }

  /**
   * After a successful network step, when the local fetch does not abort,
   * each listed branch that is not checked out is fast-forwarded to the
   * fetched commit of its upstream when git permits it; when it aborts (a
   * listed upstream no longer exists, say), no branch but the pulled one
   * moves.
   */
  lemma UpstreamStageApplied(env: Env, s: RepoState, bs: seq<Branch>)
    requires BranchListing(bs)
    ensures var first := if AnyCurrent(bs) then GitPullAll else GitFetchAll;
      var s1 := Exec(env, s, first).0;
      var (r, err) := UpstreamStage(env, s, bs);
      && (err.None? && !FetchAborts(s1, Refspecs(bs)) ==>
            forall i :: 0 <= i < |bs| && !bs[i].isCurrent && Applies(env, s1, Refspec(bs[i].upstream, bs[i].name)) ==>
              Drop(bs[i].name, |HeadsPrefix|) in r.heads && r.heads[Drop(bs[i].name, |HeadsPrefix|)] == env.fetched[bs[i].upstream])
      && (FetchAborts(s1, Refspecs(bs)) ==> forall n :: n in s.heads && s.head != Some(n) ==> n in r.heads && r.heads[n] == s.heads[n])
  {
    var first := if AnyCurrent(bs) then GitPullAll else GitFetchAll;
    var s1 := Exec(env, s, first).0;
    UpstreamStageHeads(env, s, bs);
    var err := UpstreamStage(env, s, bs).1;
    if err.None? && !FetchAborts(s1, Refspecs(bs)) {
      if Refspecs(bs) == [] {
        RefspecsEmpty(bs);
      } else {
        RefspecsApplied(env, s1, bs);
      }
    }
  }

  /**
   * The upstream stage loses no branch, leaves every branch that is not
   * checked out at a descendant of its commit, and leaves the checked-out
   * branch at the pulled commit when the stage pulled, and at its own
   * commit otherwise.
   */
  lemma UpstreamStageKeeps(env: Env, s: RepoState, bs: seq<Branch>)
    requires BranchListing(bs)
    ensures var (r, err) := UpstreamStage(env, s, bs);
      && (forall n :: n in s.heads ==> n in r.heads)
      && (forall n :: n in s.heads && s.head != Some(n) ==> Ancestor(env, s.heads[n], r.heads[n]))
      && (s.head.Some? && s.head.value in s.heads ==>
            r.heads[s.head.value] == (if err.None? && AnyCurrent(bs) then env.pulled else s.heads[s.head.value]))
  {
    var first := if AnyCurrent(bs) then GitPullAll else GitFetchAll;
    var s1 := Exec(env, s, first).0;
    var rs := Refspecs(bs);
    UpstreamStageHeads(env, s, bs);
    var (r, err) := UpstreamStage(env, s, bs);
    if err.None? && rs != [] {
      RefspecsDistinct(bs);
      forall n | n in s1.heads ensures n in r.heads && Ancestor(env, s1.heads[n], r.heads[n]) {
        FetchLocalFastForward(env, s1, rs, n);
      }
      if s.head.Some? && s.head.value in s.heads {
        FetchLocalFastForward(env, s1, rs, s.head.value);
      }
    }
  }

  /**
   * The upstream stage as a whole: `UpstreamStageApplied` for the branches it
   * fast-forwards, `UpstreamStageKeeps` for what it never does.
   */
  lemma UpstreamStageFastForwards(env: Env, s: RepoState, bs: seq<Branch>)
    requires BranchListing(bs)
    ensures var first := if AnyCurrent(bs) then GitPullAll else GitFetchAll;
      var s1 := Exec(env, s, first).0;
      var (r, err) := UpstreamStage(env, s, bs);
      && (err.None? && !FetchAborts(s1, Refspecs(bs)) ==>
            forall i :: 0 <= i < |bs| && !bs[i].isCurrent && Applies(env, s1, Refspec(bs[i].upstream, bs[i].name)) ==>
              Drop(bs[i].name, |HeadsPrefix|) in r.heads && r.heads[Drop(bs[i].name, |HeadsPrefix|)] == env.fetched[bs[i].upstream])
      && (FetchAborts(s1, Refspecs(bs)) ==> forall n :: n in s.heads && s.head != Some(n) ==> n in r.heads && r.heads[n] == s.heads[n])
      && (forall n :: n in s.heads ==> n in r.heads)
      && (forall n :: n in s.heads && s.head != Some(n) ==> Ancestor(env, s.heads[n], r.heads[n]))
      && (s.head.Some? && s.head.value in s.heads ==>
            r.heads[s.head.value] == (if err.None? && AnyCurrent(bs) then env.pulled else s.heads[s.head.value]))
  {
    UpstreamStageApplied(env, s, bs);
    UpstreamStageKeeps(env, s, bs);
  }

  // ---------------------------------------------------------------------
  // fast_forward_to_downstream

  /** The short name of a listed branch. */
  function Short(b: Branch): string {
    Drop(b.name, |HeadsPrefix|)
  }

  /** The push remote has the branch and it is not the branch's own upstream. */
  predicate ShouldPush(remoteBranches: set<string>, remote: string, b: Branch) {
    var ref := RemoteRef(remote, Short(b));
    ref in remoteBranches && b.upstream != ref
  }

  /** The pushes the stage intends, in order. */
  function Pushes(remoteBranches: set<string>, remote: string, bs: seq<Branch>): (cs: seq<Command>)
    ensures |cs| <= |bs|
    decreases |bs|
  {
    if bs == [] then []
    else if ShouldPush(remoteBranches, remote, bs[0]) then [GitPush(remote, Short(bs[0]))] + Pushes(remoteBranches, remote, bs[1..])
    else Pushes(remoteBranches, remote, bs[1..])
  }

  /** The pushes from `bs` on, against a fixed listing of the push remote; the first failure stops the stage. */
  function DownstreamFrom(env: Env, s: RepoState, remoteBranches: set<string>, remote: string, bs: seq<Branch>): (RepoState, Option<GitError>)
    decreases |bs|
  {
    if bs == [] then (s, None)
    else if ShouldPush(remoteBranches, remote, bs[0]) then
      var (s1, err) := Run(env, s, GitPush(remote, Short(bs[0])));
      if err.Some? then (s1, err) else DownstreamFrom(env, s1, remoteBranches, remote, bs[1..])
    else DownstreamFrom(env, s, remoteBranches, remote, bs[1..])
  }

  /** The downstream stage reads the push remote's branches once, before any push. */
  function DownstreamStage(env: Env, s: RepoState, remote: string, bs: seq<Branch>): (RepoState, Option<GitError>) {
    DownstreamFrom(env, s, RemoteBranchSet(s, remote), remote, bs)
  }

  lemma {:induction false} PushesMember(remoteBranches: set<string>, remote: string, bs: seq<Branch>, c: Command)
    ensures c in Pushes(remoteBranches, remote, bs) <==>
      exists i :: 0 <= i < |bs| && ShouldPush(remoteBranches, remote, bs[i]) && c == GitPush(remote, Short(bs[i]))
    decreases |bs|
  {
    if bs != [] {
      PushesMember(remoteBranches, remote, bs[1..], c);
      forall i | 1 <= i < |bs| ensures bs[i] == bs[1..][i - 1] { }
      if c in Pushes(remoteBranches, remote, bs[1..]) {
        var i :| 0 <= i < |bs[1..]| && ShouldPush(remoteBranches, remote, bs[1..][i]) && c == GitPush(remote, Short(bs[1..][i]));
        assert bs[i + 1] == bs[1..][i];
      }
    }
  }

  lemma RemoteRefInjective(remote: string, a: string, b: string)
    requires RemoteRef(remote, a) == RemoteRef(remote, b)
    ensures a == b
  {
    var p := RemotesPrefix + remote + "/";
    assert RemoteRef(remote, a) == p + a && RemoteRef(remote, b) == p + b;
    assert a == (p + a)[|p|..];
    assert b == (p + b)[|p|..];
  }

  /** The downstream stage changes no local branch and no working-tree state. */
  lemma {:induction false} DownstreamKeepsLocal(env: Env, s: RepoState, remoteBranches: set<string>, remote: string, bs: seq<Branch>)
    ensures var r := DownstreamFrom(env, s, remoteBranches, remote, bs).0;
      && r.heads == s.heads && r.upstreams == s.upstreams && r.head == s.head
      && r.staged == s.staged && r.unstaged == s.unstaged
    decreases |bs|
  {
    if bs != [] {
      if ShouldPush(remoteBranches, remote, bs[0]) {
        var (s1, e1) := Run(env, s, GitPush(remote, Short(bs[0])));
        if e1.None? {
          DownstreamKeepsLocal(env, s1, remoteBranches, remote, bs[1..]);
        }
      } else {
        DownstreamKeepsLocal(env, s, remoteBranches, remote, bs[1..]);
      }
    }
  }

  /** `k` is the first push of `ps` that fails. */
  predicate FirstFailure(env: Env, ps: seq<Command>, k: int) {
    && 0 <= k < |ps| && env.network(ps[k]) != 0
    && forall j :: 0 <= j < k ==> env.network(ps[j]) == 0
  }

  /** The stage stopped at push `k`: it issued `ps[..k + 1]` and reports the failure of `ps[k]`. */
  predicate StoppedAt(env: Env, s: RepoState, ps: seq<Command>, k: int, r: RepoState, e: GitError) {
    FirstFailure(env, ps, k) && r.log == s.log + ps[..k + 1] && e == GitError(ps[k], env.network(ps[k]))
  }

  /** A push that succeeds, followed by pushes that stopped at `k`, stopped at `k + 1`. */
  lemma StoppedAfter(env: Env, s: RepoState, s1: RepoState, c: Command, prs: seq<Command>, k: int, r: RepoState, e: GitError)
    requires s1.log == s.log + [c] && env.network(c) == 0
    requires StoppedAt(env, s1, prs, k, r, e)
    ensures StoppedAt(env, s, [c] + prs, k + 1, r, e)
  {
    var ps := [c] + prs;
    assert ps[..k + 2] == [c] + prs[..k + 1];
    forall j | 0 < j < k + 1 ensures ps[j] == prs[j - 1] { }
  }

  /** One push is logged and fails exactly when the network reports a nonzero status. */
  lemma PushStep(env: Env, s: RepoState, remote: string, branch: string)
    ensures var c := GitPush(remote, branch); var (s1, e) := Run(env, s, c);
      && s1.log == s.log + [c]
      && (e.None? <==> env.network(c) == 0)
      && (e.Some? ==> e.value == GitError(c, env.network(c)))
  {
  }

  /** The stage succeeds exactly when no push fails, and then it has issued every push in order. */
  lemma {:induction false} DownstreamSuccess(env: Env, s: RepoState, remoteBranches: set<string>, remote: string, bs: seq<Branch>)
    ensures var ps := Pushes(remoteBranches, remote, bs);
      var (r, err) := DownstreamFrom(env, s, remoteBranches, remote, bs);
      && (err.None? <==> forall k :: 0 <= k < |ps| ==> env.network(ps[k]) == 0)
      && (err.None? ==> r.log == s.log + ps)
    decreases |bs|
  {
    if bs != [] {
      var rest := bs[1..];
      var ps := Pushes(remoteBranches, remote, bs);
      var prs := Pushes(remoteBranches, remote, rest);
      if ShouldPush(remoteBranches, remote, bs[0]) {
        var c := GitPush(remote, Short(bs[0]));
        PushStep(env, s, remote, Short(bs[0]));
        var (s1, e1) := Run(env, s, c);
        assert ps == [c] + prs;
        if e1.None? {
          DownstreamSuccess(env, s1, remoteBranches, remote, rest);
          assert DownstreamFrom(env, s, remoteBranches, remote, bs) == DownstreamFrom(env, s1, remoteBranches, remote, rest);
          forall k | 0 < k < |ps| ensures ps[k] == prs[k - 1] { }
          assert (forall k :: 0 <= k < |ps| ==> env.network(ps[k]) == 0) <==>
            (forall k :: 0 <= k < |prs| ==> env.network(prs[k]) == 0) by {
            if forall k :: 0 <= k < |prs| ==> env.network(prs[k]) == 0 {
              forall k | 0 <= k < |ps| ensures env.network(ps[k]) == 0 {
                if k > 0 { assert ps[k] == prs[k - 1]; }
              }
            }
            if forall k :: 0 <= k < |ps| ==> env.network(ps[k]) == 0 {
              forall k | 0 <= k < |prs| ensures env.network(prs[k]) == 0 {
                assert prs[k] == ps[k + 1];
              }
            }
          }
        } else {
          assert ps[0] == c;
        }
      } else {
        DownstreamSuccess(env, s, remoteBranches, remote, rest);
      }
    }
  }

  /** A failing stage stopped at the first failing push and reports it. */
  lemma {:induction false} DownstreamFailure(env: Env, s: RepoState, remoteBranches: set<string>, remote: string, bs: seq<Branch>)
    ensures var out := DownstreamFrom(env, s, remoteBranches, remote, bs);
      out.1.Some? ==> exists k :: StoppedAt(env, s, Pushes(remoteBranches, remote, bs), k, out.0, out.1.value)
    decreases |bs|
  {
    if bs != [] {
      var rest := bs[1..];
      var ps := Pushes(remoteBranches, remote, bs);
      var prs := Pushes(remoteBranches, remote, rest);
      if ShouldPush(remoteBranches, remote, bs[0]) {
        var c := GitPush(remote, Short(bs[0]));
        PushStep(env, s, remote, Short(bs[0]));
        var (s1, e1) := Run(env, s, c);
        assert ps == [c] + prs;
        if e1.None? {
          DownstreamFailure(env, s1, remoteBranches, remote, rest);
          var (r, err) := DownstreamFrom(env, s1, remoteBranches, remote, rest);
          if err.Some? {
            var k :| StoppedAt(env, s1, prs, k, r, err.value);
            StoppedAfter(env, s, s1, c, prs, k, r, err.value);
          }
        } else {
          assert ps[..1] == [c];
          assert StoppedAt(env, s, ps, 0, s1, e1.value);
        }
      } else {
        DownstreamFailure(env, s, remoteBranches, remote, rest);
        assert ps == prs;
        var (r, err) := DownstreamFrom(env, s, remoteBranches, remote, rest);
        assert DownstreamFrom(env, s, remoteBranches, remote, bs) == (r, err);
        if err.Some? {
          var k :| StoppedAt(env, s, prs, k, r, err.value);
          assert StoppedAt(env, s, Pushes(remoteBranches, remote, bs), k, DownstreamFrom(env, s, remoteBranches, remote, bs).0,
            DownstreamFrom(env, s, remoteBranches, remote, bs).1.value);
        }
      }
    }
  }

  /** When no push fails, every pushed branch's remote-tracking ref ends at the branch's commit. */
  lemma {:induction false} DownstreamPushed(env: Env, s: RepoState, remoteBranches: set<string>, remote: string, bs: seq<Branch>)
    ensures var (r, err) := DownstreamFrom(env, s, remoteBranches, remote, bs);
      err.None? ==> forall i :: 0 <= i < |bs| && ShouldPush(remoteBranches, remote, bs[i]) && Short(bs[i]) in s.heads ==>
        RemoteRef(remote, Short(bs[i])) in r.remoteRefs && r.remoteRefs[RemoteRef(remote, Short(bs[i]))] == s.heads[Short(bs[i])]
    decreases |bs|
  {
    if bs != [] {
      var rest := bs[1..];
      var (r, err) := DownstreamFrom(env, s, remoteBranches, remote, bs);
      if ShouldPush(remoteBranches, remote, bs[0]) {
        var (s1, e1) := Run(env, s, GitPush(remote, Short(bs[0])));
        if e1.None? {
          DownstreamPushed(env, s1, remoteBranches, remote, rest);
          if err.None? {
            forall i | 0 <= i < |bs| && ShouldPush(remoteBranches, remote, bs[i]) && Short(bs[i]) in s.heads
              ensures RemoteRef(remote, Short(bs[i])) in r.remoteRefs
              ensures r.remoteRefs[RemoteRef(remote, Short(bs[i]))] == s.heads[Short(bs[i])]
            {
              if i > 0 {
                assert bs[i] == rest[i - 1];
              } else {
                DownstreamRefKept(env, s1, remoteBranches, remote, rest, Short(bs[0]));
              }
            }
          }
        }
      } else {
        DownstreamPushed(env, s, remoteBranches, remote, rest);
        if err.None? {
          forall i | 0 <= i < |bs| && ShouldPush(remoteBranches, remote, bs[i]) && Short(bs[i]) in s.heads
            ensures RemoteRef(remote, Short(bs[i])) in r.remoteRefs
            ensures r.remoteRefs[RemoteRef(remote, Short(bs[i]))] == s.heads[Short(bs[i])]
          {
            assert bs[i] == rest[i - 1];
          }
        }
      }
    }
  }

  /** A later push of the same stage never moves a remote-tracking ref away from the branch's commit. */
  lemma {:induction false} DownstreamRefKept(env: Env, s: RepoState, remoteBranches: set<string>, remote: string, bs: seq<Branch>, name: string)
    requires name in s.heads
    requires RemoteRef(remote, name) in s.remoteRefs && s.remoteRefs[RemoteRef(remote, name)] == s.heads[name]
    ensures var r := DownstreamFrom(env, s, remoteBranches, remote, bs).0;
      RemoteRef(remote, name) in r.remoteRefs && r.remoteRefs[RemoteRef(remote, name)] == s.heads[name]
    decreases |bs|
  {
    if bs != [] {
      if ShouldPush(remoteBranches, remote, bs[0]) {
        var c := GitPush(remote, Short(bs[0]));
        var (s1, e1) := Run(env, s, c);
        if RemoteRef(remote, Short(bs[0])) == RemoteRef(remote, name) {
          RemoteRefInjective(remote, Short(bs[0]), name);
        }
        if e1.None? {
          DownstreamRefKept(env, s1, remoteBranches, remote, bs[1..], name);
        }
      } else {
        DownstreamRefKept(env, s, remoteBranches, remote, bs[1..], name);
      }
    }
  }

  // ---------------------------------------------------------------------
  // The stages as programs over the repository

  method FetchAndFastForwardToUpstream(repo: Repo, branches: seq<Branch>) returns (err: Option<GitError>)
    modifies repo
    ensures (repo.State(), err) == UpstreamStage(repo.env, old(repo.State()), branches)
  {
    var anyCurrent := false;
    for i := 0 to |branches|
      invariant anyCurrent <==> exists j :: 0 <= j < i && branches[j].isCurrent
    {
      if branches[i].isCurrent {
        anyCurrent := true;
      }
    }
    var first := if anyCurrent then GitPullAll else GitFetchAll;
    err := repo.Git(first, true);
    if err.Some? {
      return;
    }
    var fetchArgs: seq<Refspec> := [];
    for i := 0 to |branches|
      invariant fetchArgs == Refspecs(branches[..i])
    {
      assert branches[..i + 1][..i] == branches[..i];
      if !branches[i].isCurrent {
        fetchArgs := fetchArgs + [Refspec(branches[i].upstream, branches[i].name)];
      }
    }
    assert branches[..|branches|] == branches;
    if fetchArgs != [] {
      var ignored := repo.Git(GitFetchLocal(fetchArgs), false);
    }
  }

  method FastForwardToDownstream(repo: Repo, pushRemote: string, branches: seq<Branch>) returns (err: Option<GitError>)
    modifies repo
    ensures (repo.State(), err) == DownstreamStage(repo.env, old(repo.State()), pushRemote, branches)
  {
    var remoteBranches := RemoteBranchSet(repo.State(), pushRemote);
    ghost var s0 := repo.State();
    err := None;
    for i := 0 to |branches|
      invariant err.None?
      invariant DownstreamFrom(repo.env, s0, remoteBranches, pushRemote, branches)
        == DownstreamFrom(repo.env, repo.State(), remoteBranches, pushRemote, branches[i..])
    {
      assert branches[i..][1..] == branches[i + 1..];
      var b := branches[i];
      var short := Drop(b.name, |HeadsPrefix|);
      var remote := RemoteRef(pushRemote, short);
      if remote in remoteBranches && b.upstream != remote {
        err := repo.Git(GitPush(pushRemote, short), true);
        if err.Some? {
          return;
        }
      }
    }
  }
}
