/**
 * The repository git_sync/git.py acts on, as an abstract state, and the git
 * commands it issues, as transitions of that state. The commit graph, the
 * remotes and the network are an environment the program never changes.
 */
module GitRepo {

  import opened Wrappers
  import opened Text
  import opened GitOutput

  /** The argument `src:dst` of `git fetch .`. */
  datatype Refspec = Refspec(src: string, dst: string)

  /** The git commands that change the repository, with the arguments the program passes. */
  datatype Command =
    | GitPullAll                              // git pull --all
    | GitFetchAll                             // git fetch --all
    | GitFetchLocal(refspecs: seq<Refspec>)   // git fetch . <upstream>:<name> ...
    | GitPush(remote: string, branch: string) // git push <remote> <branch>
    | GitCheckout(target: string)             // git checkout <target>
    | GitBranchDelete(name: string)           // git branch -D <name>
    | GitBranchForce(name: string, hash: string) // git branch --force <name> <hash>
    | GitResetHard(hash: string)              // git reset --hard <hash>

  /** `GitError`: the command and its nonzero exit status. */
  datatype GitError = GitError(command: Command, code: int)

  /**
   * What the program can observe and change. Branches are keyed by their
   * short name (without `refs/heads/`); upstreams are full ref names, as
   * `%(upstream)` prints them.
   */
  datatype RepoState = RepoState(
    heads: map<string, string>,
    upstreams: map<string, string>,
    head: Option<string>,
    staged: bool,
    unstaged: bool,
    remoteRefs: map<string, string>,
    log: seq<Command>)

  /**
   * What the program does not change: the commits present locally, the
   * ancestor relation between them (a pair `(a, b)` says `a` is an ancestor
   * of `b`), the remote-tracking refs a fetch of all remotes brings, the
   * commit the checked-out branch is at after `pull --all` has merged its
   * upstream into it, and the exit status of each network command.
   */
  datatype Env = Env(
    objects: set<string>,
    ancestry: set<(string, string)>,
    fetched: map<string, string>,
    pulled: string,
    network: Command -> int)

  /** Every commit is its own ancestor. */
  predicate Ancestor(env: Env, a: string, b: string) {
    a == b || (a, b) in env.ancestry
  }

  // ---------------------------------------------------------------------
  // Queries

  /**
   * The commit a revision names: a commit id is taken as such, otherwise it
   * is looked up as a local branch.
   */
  function Resolve(env: Env, s: RepoState, rev: string): Option<string> {
    if rev in env.objects then Some(rev)
    else if rev in s.heads then Some(s.heads[rev])
    else None
  }

  /** The exit status of `git merge-base --is-ancestor c1 c2`. */
  function AncestorExit(env: Env, s: RepoState, c1: string, c2: string): (code: int)
    ensures code == 0 || code == 1 || code == 128
  {
    match (Resolve(env, s, c1), Resolve(env, s, c2))
    case (Some(a), Some(b)) => if Ancestor(env, a, b) then 0 else 1
    case _ => 128
  }

  /** `branch_is_an_upstream`: some existing branch has `refs/heads/<name>` (or `name` itself) as upstream. */
  predicate IsUpstream(s: RepoState, name: string) {
    exists b :: b in s.heads && b in s.upstreams && RemovePrefix(s.upstreams[b], HeadsPrefix) == name
  }

  /** `get_upstream_branch`: the upstream of an existing branch when it is a local branch. */
  function UpstreamOf(s: RepoState, name: string): (r: Option<string>)
    ensures r.Some? <==> name in s.heads && name in s.upstreams && StartsWith(s.upstreams[name], HeadsPrefix)
    ensures r.Some? ==> s.upstreams[name] == HeadsPrefix + r.value
  {
    if name in s.heads && name in s.upstreams && StartsWith(s.upstreams[name], HeadsPrefix) then
      Some(RemovePrefix(s.upstreams[name], HeadsPrefix))
    else None
  }

  /** The name `update_merged_pr_branch` checks out before deleting the current branch. */
  function CheckoutTarget(s: RepoState, name: string): (t: string)
    ensures t != ""
    ensures t != "main" ==> UpstreamOf(s, name) == Some(t)
    ensures t == "main" ==> UpstreamOf(s, name) in {None, Some(""), Some("main")}
  {
    match UpstreamOf(s, name)
    case Some(u) => if u != "" then u else "main"
    case None => "main"
  }

  /** The short name of each remote under `refs/remotes/<remote>/`. */
  function RemoteRef(remote: string, branch: string): string {
    RemotesPrefix + remote + "/" + branch
  }

  /** The refs `get_remote_branches` lists: those under `refs/remotes/<remote>/`. */
  function RemoteBranchSet(s: RepoState, remote: string): (refs: set<string>)
    ensures forall r :: r in refs <==> r in s.remoteRefs && StartsWith(r, RemotesPrefix + remote + "/")
  {
    set r | r in s.remoteRefs && StartsWith(r, RemotesPrefix + remote + "/")
  }

  // ---------------------------------------------------------------------
  // The queries as the program reads them from git's output

  /** What `git symbolic-ref -q HEAD` prints: the checked-out branch as a full ref, nothing when HEAD is detached. */
  function SymbolicRefOutput(s: RepoState): string {
    if s.head.Some? then Listing([HeadsPrefix + s.head.value]) else ""
  }

  /** `get_current_branch` reads back the checked-out branch as `refs/heads/<name>`, and None when HEAD is detached. */
  lemma CurrentBranchOfState(s: RepoState)
    requires s.head.Some? ==> Word(s.head.value)
    ensures CurrentBranch(SymbolicRefOutput(s)) == if s.head.Some? then Some(HeadsPrefix + s.head.value) else None
  {
    if s.head.Some? {
      var line := HeadsPrefix + s.head.value;
      WordLine(s.head.value);
      forall i | 0 <= i < |line| ensures !IsLineBreak(line[i]) {
        if i >= |HeadsPrefix| {
          assert line[i] == s.head.value[i - |HeadsPrefix|];
        }
      }
      CapturedListing([line]);
      assert [line][..LastFilled([line])] == [line];
    }
  }

  /**
   * `get_remote_branches` on a listing of the refs under
   * `refs/remotes/<remote>/`, in any order, reads back exactly those refs.
   */
  lemma RemoteBranchesOfState(s: RepoState, remote: string, refs: seq<string>)
    requires forall i :: 0 <= i < |refs| ==> Word(refs[i]) && refs[i] != ""
    requires forall r :: r in refs <==> r in RemoteBranchSet(s, remote)
    ensures (set r | r in RemoteBranches(Listing(refs))) == RemoteBranchSet(s, remote)
  {
    RemoteBranchesOfListing(refs);
  }

  /** The `%(upstream)` column for branch `b`: empty when it has none. */
  function UpstreamCell(s: RepoState, b: string): string {
    if b in s.upstreams then s.upstreams[b] else ""
  }

  /** `for-each-ref --format=%(upstream) refs/heads` for branches listed as `names`. */
  function UpstreamColumn(s: RepoState, names: seq<string>): (ups: seq<string>)
    ensures |ups| == |names| && forall i :: 0 <= i < |names| ==> ups[i] == UpstreamCell(s, names[i])
  {
    seq(|names|, i requires 0 <= i < |names| => UpstreamCell(s, names[i]))
  }

  /**
   * `branch_is_an_upstream` on the listing of every branch's upstream
   * answers `IsUpstream`.
   */
  lemma IsUpstreamOfListing(s: RepoState, names: seq<string>, name: string)
    requires forall b :: b in s.heads <==> b in names
    requires forall b :: b in s.upstreams ==> Word(s.upstreams[b])
    requires name != ""
    ensures BranchIsAnUpstream(name, Listing(UpstreamColumn(s, names))) <==> IsUpstream(s, name)
  {
    var ups := UpstreamColumn(s, names);
    forall i | 0 <= i < |ups| ensures Word(ups[i]) {
      assert ups[i] == UpstreamCell(s, names[i]);
    }
    BranchIsAnUpstreamOfListing(ups, name);
    if IsUpstream(s, name) {
      var b :| b in s.heads && b in s.upstreams && RemovePrefix(s.upstreams[b], HeadsPrefix) == name;
      var i :| 0 <= i < |names| && names[i] == b;
      assert RemovePrefix(ups[i], HeadsPrefix) == name;
    }
    assert RemovePrefix("", HeadsPrefix) == "";
    if i :| 0 <= i < |ups| && RemovePrefix(ups[i], HeadsPrefix) == name {
      var b := names[i];
      assert ups[i] == UpstreamCell(s, b);
      assert b in s.upstreams;
      assert b in s.heads && RemovePrefix(s.upstreams[b], HeadsPrefix) == name;
    }
  }

  /** `get_upstream_branch` on the listing of one branch's upstream answers `UpstreamOf`. */
  lemma UpstreamOfListing(s: RepoState, name: string)
    requires name in s.heads
    requires NoLineBreak(UpstreamCell(s, name))
    ensures UpstreamBranch(Listing([UpstreamCell(s, name)])) == UpstreamOf(s, name)
  {
    UpstreamBranchOfListing(UpstreamCell(s, name));
    assert !StartsWith("", HeadsPrefix);
  }

  /** `get_branch_hashes` on a listing of every branch, each once, reads back the branches. */
  lemma BranchHashesOfState(s: RepoState, rows: seq<(string, string)>)
    requires forall i :: 0 <= i < |rows| ==> HashRowOk(rows[i])
    requires forall i, j :: 0 <= i < j < |rows| ==> rows[i].0 != rows[j].0
    requires forall i :: 0 <= i < |rows| ==> rows[i].0 in s.heads && s.heads[rows[i].0] == rows[i].1
    requires forall b :: b in s.heads ==> exists i :: 0 <= i < |rows| && rows[i].0 == b
    ensures BranchHashes(Listing(HashLines(rows))) == Some(s.heads)
  {
    BranchHashesOfDistinct(rows);
    var m := BranchHashes(Listing(HashLines(rows))).value;
    forall b | b in s.heads ensures b in m && m[b] == s.heads[b] {
      var i :| 0 <= i < |rows| && rows[i].0 == b;
      RowNamesMember(rows, b);
    }
    forall b | b in m ensures b in s.heads {
      RowNamesMember(rows, b);
    }
    SameMaps(m, s.heads);
  }

  lemma SameMaps(m1: map<string, string>, m2: map<string, string>)
    requires forall b :: b in m1 ==> b in m2
    requires forall b :: b in m2 ==> b in m1 && m1[b] == m2[b]
    ensures m1 == m2
  {
  }

  // ---------------------------------------------------------------------
  // Commands

  /**
   * One refspec of `git fetch . src:dst`: the local branch `dst` moves to
   * the commit of the remote-tracking ref `src` when the move is a
   * fast-forward (or the branch is new); otherwise the refspec is rejected
   * and the other refspecs still apply. A missing source or a checked-out
   * destination stops the whole fetch instead (`FetchAborts`); the test is
   * repeated here so that the function stands on its own.
   */
  function ApplyRefspec(env: Env, s: RepoState, heads: map<string, string>, r: Refspec): Option<map<string, string>> {
    var name := Drop(r.dst, |HeadsPrefix|);
    if r.src in s.remoteRefs && StartsWith(r.dst, HeadsPrefix) && s.head != Some(name)
       && (name in heads ==> Ancestor(env, heads[name], s.remoteRefs[r.src]))
    then Some(heads[name := s.remoteRefs[r.src]])
    else None
  }

  /**
   * `git fetch .` dies before it updates any ref when the source of a
   * refspec does not exist or its destination is the checked-out branch.
   */
  predicate FetchAborts(s: RepoState, rs: seq<Refspec>) {
    exists i :: 0 <= i < |rs| &&
      (rs[i].src !in s.remoteRefs || (StartsWith(rs[i].dst, HeadsPrefix) && s.head == Some(Drop(rs[i].dst, |HeadsPrefix|))))
  }

  /** The branches after `pull --all` has merged into the checked-out branch. */
  function PullHeads(env: Env, s: RepoState): map<string, string> {
    if s.head.Some? && s.head.value in s.heads then s.heads[s.head.value := env.pulled] else s.heads
  }

  /** The branches after every refspec has been tried, and whether all of them were applied. */
  function ApplyRefspecs(env: Env, s: RepoState, rs: seq<Refspec>): (map<string, string>, bool)
    decreases |rs|
  {
    if rs == [] then (s.heads, true)
    else
      var (heads, ok) := ApplyRefspecs(env, s, rs[..|rs| - 1]);
      match ApplyRefspec(env, s, heads, rs[|rs| - 1])
      case Some(heads') => (heads', ok)
      case None => (heads, false)
  }

  /** The state after a command and its exit status; every command is recorded in `log`. */
  function Exec(env: Env, s: RepoState, cmd: Command): (RepoState, int) {
    var s' := s.(log := s.log + [cmd]);
    match cmd
    case GitPullAll =>
      var code := env.network(cmd);
      (if code == 0 then s'.(remoteRefs := env.fetched, heads := PullHeads(env, s)) else s', code)
    case GitFetchAll =>
      var code := env.network(cmd);
      (if code == 0 then s'.(remoteRefs := env.fetched) else s', code)
    case GitFetchLocal(rs) =>
      if FetchAborts(s, rs) then (s', 128)
      else
        var (heads, ok) := ApplyRefspecs(env, s, rs);
        (s'.(heads := heads), if ok then 0 else 1)
    case GitPush(remote, branch) =>
      var code := env.network(cmd);
      if code == 0 && branch in s.heads then
        (s'.(remoteRefs := s.remoteRefs[RemoteRef(remote, branch) := s.heads[branch]]), code)
      else (s', code)
    case GitCheckout(target) =>
      if target in s.heads then (s'.(head := Some(target)), 0) else (s', 1)
    case GitBranchDelete(name) =>
      if name !in s.heads || s.head == Some(name) then (s', 1)
      else (s'.(heads := s.heads - {name}, upstreams := s.upstreams - {name}), 0)
    case GitBranchForce(name, hash) =>
      if s.head == Some(name) || hash !in env.objects then (s', 128)
      else (s'.(heads := s.heads[name := hash]), 0)
    case GitResetHard(hash) =>
      if hash !in env.objects then (s', 128)
      else
        var heads := if s.head.Some? then s.heads[s.head.value := hash] else s.heads;
        (s'.(heads := heads, staged := false, unstaged := false), 0)
  }

  /** `git(...)` with `check_return=True`: a nonzero exit raises `GitError`. */
  function Run(env: Env, s: RepoState, cmd: Command): (RepoState, Option<GitError>) {
    var (s', code) := Exec(env, s, cmd);
    (s', if code != 0 then Some(GitError(cmd, code)) else None)
  }

  /**
   * `pull --all` refreshes every remote-tracking ref and moves the
   * checked-out branch, and no other, to the commit its merge produces;
   * when it fails nothing but the log changes.
   */
  lemma PullSpec(env: Env, s: RepoState)
    ensures var (s', code) := Exec(env, s, GitPullAll);
      && code == env.network(GitPullAll)
      && s'.remoteRefs == (if code == 0 then env.fetched else s.remoteRefs)
      && (code == 0 && s.head.Some? && s.head.value in s.heads ==> s'.heads[s.head.value] == env.pulled)
      && (forall n :: n in s.heads && (code != 0 || s.head != Some(n)) ==> n in s'.heads && s'.heads[n] == s.heads[n])
      && s'.heads.Keys == s.heads.Keys
      && s'.upstreams == s.upstreams && s'.head == s.head
  {
  }

  /** Deleting a branch removes it and its upstream and nothing else, and fails for a missing or checked-out branch. */
  lemma BranchDeleteSpec(env: Env, s: RepoState, name: string)
    ensures var (s', code) := Exec(env, s, GitBranchDelete(name));
      && (code == 0 <==> name in s.heads && s.head != Some(name))
      && (code == 0 ==> name !in s'.heads && s'.heads.Keys == s.heads.Keys - {name})
      && (forall n :: n != name && n in s.heads ==> n in s'.heads && s'.heads[n] == s.heads[n])
      && (forall n :: n != name && n in s.upstreams ==> n in s'.upstreams && s'.upstreams[n] == s.upstreams[n])
      && s'.head == s.head
  {
  }

  /** `branch --force` moves one branch that is not checked out to an existing commit, creating it if needed. */
  lemma BranchForceSpec(env: Env, s: RepoState, name: string, hash: string)
    ensures var (s', code) := Exec(env, s, GitBranchForce(name, hash));
      && (code == 0 <==> s.head != Some(name) && hash in env.objects)
      && (code == 0 ==> name in s'.heads && s'.heads[name] == hash && s'.heads.Keys == s.heads.Keys + {name})
      && (forall n :: n != name && n in s.heads ==> n in s'.heads && s'.heads[n] == s.heads[n])
      && s'.upstreams == s.upstreams && s'.head == s.head
  {
  }

  /** `reset --hard` moves the checked-out branch and discards staged and unstaged changes. */
  lemma ResetHardSpec(env: Env, s: RepoState, name: string, hash: string)
    requires s.head == Some(name)
    ensures var (s', code) := Exec(env, s, GitResetHard(hash));
      && (code == 0 <==> hash in env.objects)
      && (code == 0 ==> name in s'.heads && s'.heads[name] == hash && !s'.staged && !s'.unstaged)
      && (forall n :: n != name && n in s.heads ==> n in s'.heads && s'.heads[n] == s.heads[n])
      && s'.upstreams == s.upstreams && s'.head == s.head
  {
  }

  /** `checkout` of an existing branch makes it current and changes no branch. */
  lemma CheckoutSpec(env: Env, s: RepoState, target: string)
    ensures var (s', code) := Exec(env, s, GitCheckout(target));
      && (code == 0 <==> target in s.heads)
      && s'.head == (if code == 0 then Some(target) else s.head)
      && s'.heads == s.heads && s'.upstreams == s.upstreams
      && s'.staged == s.staged && s'.unstaged == s.unstaged
  {
  }

  // ---------------------------------------------------------------------
  // The repository as an object

  /** The working repository: its fields are what the commands change in place. */
  class Repo {
    var heads: map<string, string>
    var upstreams: map<string, string>
    var head: Option<string>
    var staged: bool
    var unstaged: bool
    var remoteRefs: map<string, string>
    var log: seq<Command>
    const env: Env

    function State(): RepoState
      reads this
    {
      RepoState(heads, upstreams, head, staged, unstaged, remoteRefs, log)
    }

    constructor (env: Env, s: RepoState)
      ensures this.env == env && State() == s
    {
      this.env := env;
      heads := s.heads;
      upstreams := s.upstreams;
      head := s.head;
      staged := s.staged;
      unstaged := s.unstaged;
      remoteRefs := s.remoteRefs;
      log := s.log;
    }

    /** `git merge-base --is-ancestor c1 c2` as `is_ancestor` reads it. */
    method IsAncestorOf(c1: string, c2: string) returns (r: Result<bool, int>)
      ensures r == IsAncestor(AncestorExit(env, State(), c1, c2))
      ensures r == Ok(true) <==> exists a, b :: Resolve(env, State(), c1) == Some(a) && Resolve(env, State(), c2) == Some(b) && Ancestor(env, a, b)
    {
      var code := AncestorExit(env, State(), c1, c2);
      r := IsAncestor(code);
    }

    method PullAll() returns (code: int)
      modifies this
      ensures (State(), code) == Exec(env, old(State()), GitPullAll)
    {
      log := log + [GitPullAll];
      code := env.network(GitPullAll);
      if code == 0 {
        remoteRefs := env.fetched;
        if head.Some? && head.value in heads {
          heads := heads[head.value := env.pulled];
        }
      }
    }

    method FetchAll() returns (code: int)
      modifies this
      ensures (State(), code) == Exec(env, old(State()), GitFetchAll)
    {
      log := log + [GitFetchAll];
      code := env.network(GitFetchAll);
      if code == 0 {
        remoteRefs := env.fetched;
      }
    }

    method FetchLocal(refspecs: seq<Refspec>) returns (code: int)
      modifies this
      ensures (State(), code) == Exec(env, old(State()), GitFetchLocal(refspecs))
    {
      var s := State();
      log := log + [GitFetchLocal(refspecs)];
      if FetchAborts(s, refspecs) {
        code := 128;
      } else {
        var (heads', ok) := ApplyRefspecs(env, s, refspecs);
        heads := heads';
        code := if ok then 0 else 1;
      }
    }

    method Push(remote: string, branch: string) returns (code: int)
      modifies this
      ensures (State(), code) == Exec(env, old(State()), GitPush(remote, branch))
    {
      log := log + [GitPush(remote, branch)];
      code := env.network(GitPush(remote, branch));
      if code == 0 && branch in heads {
        remoteRefs := remoteRefs[RemoteRef(remote, branch) := heads[branch]];
      }
    }

    method Checkout(target: string) returns (code: int)
      modifies this
      ensures (State(), code) == Exec(env, old(State()), GitCheckout(target))
    {
      log := log + [GitCheckout(target)];
      if target in heads {
        head := Some(target);
        code := 0;
      } else {
        code := 1;
      }
    }

    method DeleteBranch(name: string) returns (code: int)
      modifies this
      ensures (State(), code) == Exec(env, old(State()), GitBranchDelete(name))
    {
      log := log + [GitBranchDelete(name)];
      if name !in heads || head == Some(name) {
        code := 1;
      } else {
        heads := heads - {name};
        upstreams := upstreams - {name};
        code := 0;
      }
    }

    method ForceBranch(name: string, hash: string) returns (code: int)
      modifies this
      ensures (State(), code) == Exec(env, old(State()), GitBranchForce(name, hash))
    {
      log := log + [GitBranchForce(name, hash)];
      if head == Some(name) || hash !in env.objects {
        code := 128;
      } else {
        heads := heads[name := hash];
        code := 0;
      }
    }

    method ResetHard(hash: string) returns (code: int)
      modifies this
      ensures (State(), code) == Exec(env, old(State()), GitResetHard(hash))
    {
      log := log + [GitResetHard(hash)];
      if hash !in env.objects {
        code := 128;
      } else {
        if head.Some? {
          heads := heads[head.value := hash];
        }
        staged, unstaged := false, false;
        code := 0;
      }
    }

    /** Issues one command; with `check`, a nonzero exit becomes a `GitError`. */
    method Git(cmd: Command, check: bool) returns (err: Option<GitError>)
      modifies this
      ensures State() == Exec(env, old(State()), cmd).0
      ensures check ==> (State(), err) == Run(env, old(State()), cmd)
      ensures !check ==> err.None?
    {
      var code;
      match cmd {
        case GitPullAll => code := PullAll();
        case GitFetchAll => code := FetchAll();
        case GitFetchLocal(rs) => code := FetchLocal(rs);
        case GitPush(remote, branch) => code := Push(remote, branch);
        case GitCheckout(target) => code := Checkout(target);
        case GitBranchDelete(name) => code := DeleteBranch(name);
        case GitBranchForce(name, hash) => code := ForceBranch(name, hash);
        case GitResetHard(hash) => code := ResetHard(hash);
      }
      err := if check && code != 0 then Some(GitError(cmd, code)) else None;
    }
  }
}
