/**
 * The integration scenarios of the repository's tests for `is_ancestor`
 * and `update_merged_prs`, stated against the model, and a run that shows
 * why idempotence needs distinct branch names.
 */
module Scenarios {

  import opened Wrappers
  import opened Text
  import opened GitOutput
  import opened GitRepo
  import opened Github
  import opened MergedBranches

  const RepoUrl: string := "https://github.com/example/example.git"

  /** No scenario pulls, so the commit a pull would produce is never read. */
  const NoPull: string := ""

  /** A network on which every command succeeds. */
  function Online(c: Command): int {
    0
  }

  // ---------------------------------------------------------------------
  // is_ancestor

  /** `base` is an ancestor of its child `second`, and not the other way round. */
  lemma IsAncestorSimple(base: string, second: string)
    requires base != second
    ensures var env := Env({base, second}, {(base, second)}, map[], NoPull, Online);
      var s := RepoState(map[], map[], None, false, false, map[], []);
      && IsAncestor(AncestorExit(env, s, base, second)) == Ok(true)
      && IsAncestor(AncestorExit(env, s, second, base)) == Ok(false)
  {
  }

  // ---------------------------------------------------------------------
  // update_merged_prs
  //
  // Commits `a` to `e`: `b` is a child of `a`, `c` squash-merges `b` onto
  // `a`, and `d` is a child of `b`.

  function History(): Env {
    Env({"a", "b", "c", "d"}, {("a", "b"), ("a", "c"), ("a", "d"), ("b", "d")}, map[], NoPull, Online)
  }

  function Branches(main: string, myPr: string, moreWork: string): map<string, string> {
    map["main" := main, "my_pr" := myPr, "more_work" := moreWork]
  }

  /** The PR of the tests: branch `my_pr` at `b`, merged as `c`. */
  function MergedPr(): PullRequest {
    PullRequest("my_pr", {RepoUrl}, "b", Some("c"))
  }

  lemma HeadsPrefixOf(name: string)
    ensures RemovePrefix(HeadsPrefix + name, HeadsPrefix) == name
  {
    assert (HeadsPrefix + name)[..|HeadsPrefix|] == HeadsPrefix;
    assert (HeadsPrefix + name)[|HeadsPrefix|..] == name;
  }

  lemma NamesDiffer()
    ensures "my_pr" != "main" && "my_pr" != "more_work" && "main" != "more_work"
    ensures "my_pr" !in History().objects
  {
  }

  /** `my_pr` is tracked by no branch when both branches follow `main`. */
  lemma NotAnUpstream(s: RepoState)
    requires s.heads.Keys == {"main", "my_pr", "more_work"}
    requires s.upstreams == map["my_pr" := HeadsPrefix + "main", "more_work" := HeadsPrefix + "main"]
    ensures !IsUpstream(s, "my_pr")
  {
    HeadsPrefixOf("main");
    NamesDiffer();
  }

  /** A merged PR branch that is not checked out and is no branch's upstream is deleted. */
  lemma DeleteMergedInactivePrBranch()
    ensures var s := RepoState(Branches("c", "b", "d"), map["my_pr" := HeadsPrefix + "main", "more_work" := HeadsPrefix + "main"],
                               Some("main"), false, false, map[], []);
      var (r, err) := MergedPrs(History(), s, RepoUrl, [MergedPr()], true);
      err.None? && r.heads == map["main" := "c", "more_work" := "d"] && r.head == Some("main")
  {
    var s := RepoState(Branches("c", "b", "d"), map["my_pr" := HeadsPrefix + "main", "more_work" := HeadsPrefix + "main"],
                       Some("main"), false, false, map[], []);
    NamesDiffer();
    NotAnUpstream(s);
    assert Eligible(s.heads, RepoUrl, MergedPr());
    assert BranchIsAncestor(History(), s, MergedPr());
    assert s.heads - {"my_pr"} == map["main" := "c", "more_work" := "d"];
  }

  /** A merged PR branch that another branch tracks is moved to the merged commit instead. */
  lemma ForceInactiveUpstreamBranch()
    ensures var s := RepoState(Branches("c", "b", "d"), map["my_pr" := HeadsPrefix + "main", "more_work" := HeadsPrefix + "my_pr"],
                               Some("main"), false, false, map[], []);
      var (r, err) := MergedPrs(History(), s, RepoUrl, [MergedPr()], true);
      err.None? && r.heads == Branches("c", "c", "d") && r.head == Some("main")
  {
    var s := RepoState(Branches("c", "b", "d"), map["my_pr" := HeadsPrefix + "main", "more_work" := HeadsPrefix + "my_pr"],
                       Some("main"), false, false, map[], []);
    NamesDiffer();
    HeadsPrefixOf("my_pr");
    assert "more_work" in s.heads && "more_work" in s.upstreams;
    assert IsUpstream(s, "my_pr");
    assert Eligible(s.heads, RepoUrl, MergedPr());
    assert BranchIsAncestor(History(), s, MergedPr());
    assert s.heads["my_pr" := "c"] == Branches("c", "c", "d");
  }

  /** With deletion disabled, an inactive merged PR branch is moved to the merged commit. */
  lemma InactiveBranchWithDeletionDisabled()
    ensures var s := RepoState(Branches("c", "b", "d"), map["my_pr" := HeadsPrefix + "main", "more_work" := HeadsPrefix + "main"],
                               Some("main"), false, false, map[], []);
      var (r, err) := MergedPrs(History(), s, RepoUrl, [MergedPr()], false);
      err.None? && r.heads == Branches("c", "c", "d")
  {
    var s := RepoState(Branches("c", "b", "d"), map["my_pr" := HeadsPrefix + "main", "more_work" := HeadsPrefix + "main"],
                       Some("main"), false, false, map[], []);
    NamesDiffer();
    assert Eligible(s.heads, RepoUrl, MergedPr());
    assert BranchIsAncestor(History(), s, MergedPr());
    assert s.heads["my_pr" := "c"] == Branches("c", "c", "d");
  }

  /** Deleting the checked-out PR branch first checks out its upstream `main`. */
  lemma DeleteMergedActivePrBranch()
    ensures var s := RepoState(Branches("c", "b", "d"), map["my_pr" := HeadsPrefix + "main", "more_work" := HeadsPrefix + "main"],
                               Some("my_pr"), false, false, map[], []);
      var (r, err) := MergedPrs(History(), s, RepoUrl, [MergedPr()], true);
      err.None? && r.heads == map["main" := "c", "more_work" := "d"] && r.head == Some("main")
  {
    var s := RepoState(Branches("c", "b", "d"), map["my_pr" := HeadsPrefix + "main", "more_work" := HeadsPrefix + "main"],
                       Some("my_pr"), false, false, map[], []);
    NamesDiffer();
    NotAnUpstream(s);
    HeadsPrefixOf("main");
    assert UpstreamOf(s, "my_pr") == Some("main");
    assert CheckoutTarget(s, "my_pr") == "main";
    assert Eligible(s.heads, RepoUrl, MergedPr());
    assert BranchIsAncestor(History(), s, MergedPr());
    assert s.heads - {"my_pr"} == map["main" := "c", "more_work" := "d"];
  }

  /** A checked-out PR branch that another branch tracks is reset to the merged commit. */
  lemma ForceActiveUpstreamBranch()
    ensures var s := RepoState(Branches("c", "b", "d"), map["my_pr" := HeadsPrefix + "main", "more_work" := HeadsPrefix + "my_pr"],
                               Some("my_pr"), false, false, map[], []);
      var (r, err) := MergedPrs(History(), s, RepoUrl, [MergedPr()], true);
      err.None? && r.heads == Branches("c", "c", "d") && r.head == Some("my_pr")
  {
    var s := RepoState(Branches("c", "b", "d"), map["my_pr" := HeadsPrefix + "main", "more_work" := HeadsPrefix + "my_pr"],
                       Some("my_pr"), false, false, map[], []);
    NamesDiffer();
    HeadsPrefixOf("my_pr");
    assert "more_work" in s.heads && "more_work" in s.upstreams;
    assert IsUpstream(s, "my_pr");
    assert Eligible(s.heads, RepoUrl, MergedPr());
    assert BranchIsAncestor(History(), s, MergedPr());
    assert s.heads["my_pr" := "c"] == Branches("c", "c", "d");
  }

  /** With deletion disabled, a checked-out merged PR branch is reset to the merged commit. */
  lemma ActiveBranchWithDeletionDisabled()
    ensures var s := RepoState(Branches("c", "b", "d"), map["my_pr" := HeadsPrefix + "main", "more_work" := HeadsPrefix + "main"],
                               Some("my_pr"), false, false, map[], []);
      var (r, err) := MergedPrs(History(), s, RepoUrl, [MergedPr()], false);
      err.None? && r.heads == Branches("c", "c", "d") && r.head == Some("my_pr")
  {
    var s := RepoState(Branches("c", "b", "d"), map["my_pr" := HeadsPrefix + "main", "more_work" := HeadsPrefix + "main"],
                       Some("my_pr"), false, false, map[], []);
    NamesDiffer();
    assert Eligible(s.heads, RepoUrl, MergedPr());
    assert BranchIsAncestor(History(), s, MergedPr());
    assert s.heads["my_pr" := "c"] == Branches("c", "c", "d");
  }

  /** Staged changes on the checked-out PR branch keep it, and the changes, as they were. */
  lemma StagedChangesNotLost()
    ensures var s := RepoState(map["main" := "c", "my_pr" := "b"], map[], Some("my_pr"), true, false, map[], []);
      MergedPrs(History(), s, RepoUrl, [MergedPr()], true) == (s, None)
  {
    var s := RepoState(map["main" := "c", "my_pr" := "b"], map[], Some("my_pr"), true, false, map[], []);
    NamesDiffer();
    assert Eligible(s.heads, RepoUrl, MergedPr());
    assert BranchIsAncestor(History(), s, MergedPr());
  }

  /** Unstaged changes to tracked files on the checked-out PR branch are kept likewise. */
  lemma UnstagedChangesNotLost()
    ensures var s := RepoState(map["main" := "c", "my_pr" := "b"], map[], Some("my_pr"), false, true, map[], []);
      MergedPrs(History(), s, RepoUrl, [MergedPr()], true) == (s, None)
  {
    var s := RepoState(map["main" := "c", "my_pr" := "b"], map[], Some("my_pr"), false, true, map[], []);
    NamesDiffer();
    assert Eligible(s.heads, RepoUrl, MergedPr());
    assert BranchIsAncestor(History(), s, MergedPr());
  }

  // Commits for the two scenarios where the PR and the branch diverge:
  // `b` child of `a`, `c` child of `b`, `d` squash-merges `c` onto `a`,
  // `e` child of `b`.

  function LongerHistory(): Env {
    Env({"a", "b", "c", "d", "e"},
        {("a", "b"), ("a", "c"), ("b", "c"), ("a", "d"), ("a", "e"), ("b", "e")}, map[], NoPull, Online)
  }

  /** The PR gained commits the local branch lacks: the branch is still an ancestor and is moved. */
  lemma FastForwardWhenPrHadAdditionalCommits()
    ensures var s := RepoState(Branches("d", "b", "e"), map["my_pr" := HeadsPrefix + "main", "more_work" := HeadsPrefix + "my_pr"],
                               Some("my_pr"), false, false, map[], []);
      var (r, err) := MergedPrs(LongerHistory(), s, RepoUrl, [PullRequest("my_pr", {RepoUrl}, "c", Some("d"))], true);
      err.None? && r.heads == Branches("d", "d", "e")
  {
    var s := RepoState(Branches("d", "b", "e"), map["my_pr" := HeadsPrefix + "main", "more_work" := HeadsPrefix + "my_pr"],
                       Some("my_pr"), false, false, map[], []);
    var pr := PullRequest("my_pr", {RepoUrl}, "c", Some("d"));
    NamesDiffer();
    HeadsPrefixOf("my_pr");
    assert "my_pr" !in LongerHistory().objects;
    assert "more_work" in s.heads && "more_work" in s.upstreams;
    assert IsUpstream(s, "my_pr");
    assert Eligible(s.heads, RepoUrl, pr);
    assert BranchIsAncestor(LongerHistory(), s, pr);
    assert s.heads["my_pr" := "d"] == Branches("d", "d", "e");
    var step := MergedPrStep(LongerHistory(), s, s.heads, RepoUrl, pr, true);
    assert step.1.None? && step.0.heads == Branches("d", "d", "e");
    assert [pr][1..] == [];
    assert MergedPrsFrom(LongerHistory(), s, s.heads, RepoUrl, [pr], true) == MergedPrsFrom(LongerHistory(), step.0, s.heads, RepoUrl, [], true);
  }

  /** The local branch has commits the PR lacks: it is not an ancestor and is left alone. */
  lemma NoFastForwardWhenBranchHasAdditionalCommits()
    ensures var s := RepoState(map["main" := "d", "my_pr" := "c"], map[], Some("my_pr"), false, false, map[], []);
      var pr := PullRequest("my_pr", {RepoUrl}, "b", Some("d"));
      MergedPrs(LongerHistory(), s, RepoUrl, [pr], true) == (s, None)
  {
    var s := RepoState(map["main" := "d", "my_pr" := "c"], map[], Some("my_pr"), false, false, map[], []);
    var pr := PullRequest("my_pr", {RepoUrl}, "b", Some("d"));
    assert "my_pr" !in LongerHistory().objects;
    assert AncestorExit(LongerHistory(), s, "my_pr", "b") == 1;
    assert MergedPrStep(LongerHistory(), s, s.heads, RepoUrl, pr, true) == (s, None);
    assert [pr][1..] == [];
    assert MergedPrsFrom(LongerHistory(), s, s.heads, RepoUrl, [pr], true) == MergedPrsFrom(LongerHistory(), s, s.heads, RepoUrl, [], true);
  }

  // ---------------------------------------------------------------------
  // Two PRs on one branch name

  /**
   * A branch name reused for a second PR: `x` is still at `h0`, the first PR
   * (head `h0`) was squash-merged as `m1`, and the second PR, branched from
   * `m1` at `h1`, was merged as `m2`. Listed newest first, the first run
   * skips the second PR and moves `x` to `m1`; a second run then moves `x`
   * again, to `m2`. So `update_merged_prs` is not idempotent without
   * distinct branch names.
   */
  lemma RepeatedNameNotIdempotent()
    ensures var env := Env({"h0", "m1", "h1", "m2"}, {("m1", "h1")}, map[], NoPull, Online);
      var s := RepoState(map["main" := "m2", "x" := "h0"], map[], Some("main"), false, false, map[], []);
      var prs := [PullRequest("x", {RepoUrl}, "h1", Some("m2")), PullRequest("x", {RepoUrl}, "h0", Some("m1"))];
      var (r, err) := MergedPrs(env, s, RepoUrl, prs, false);
      && err.None? && r.heads == map["main" := "m2", "x" := "m1"]
      && MergedPrs(env, r, RepoUrl, prs, false).0.heads == map["main" := "m2", "x" := "m2"]
  {
    var env := Env({"h0", "m1", "h1", "m2"}, {("m1", "h1")}, map[], NoPull, Online);
    var s := RepoState(map["main" := "m2", "x" := "h0"], map[], Some("main"), false, false, map[], []);
    var second := PullRequest("x", {RepoUrl}, "h1", Some("m2"));
    var first := PullRequest("x", {RepoUrl}, "h0", Some("m1"));
    assert "x" !in env.objects;
    assert AncestorExit(env, s, "x", "h1") == 1;
    assert MergedPrStep(env, s, s.heads, RepoUrl, second, false) == (s, None);
    var r := MergedPrStep(env, s, s.heads, RepoUrl, first, false).0;
    assert r.heads == map["main" := "m2", "x" := "m1"];
    assert AncestorExit(env, r, "x", "h1") == 0;
    var r2 := MergedPrStep(env, r, r.heads, RepoUrl, second, false).0;
    assert r2.heads == map["main" := "m2", "x" := "m2"];
    assert AncestorExit(env, r2, "x", "h0") == 1;
    assert MergedPrStep(env, r2, r.heads, RepoUrl, first, false) == (r2, None);
    var prs := [second, first];
    assert prs[1..] == [first] && prs[1..][1..] == [];
    assert MergedPrsFrom(env, s, s.heads, RepoUrl, prs, false) == MergedPrsFrom(env, s, s.heads, RepoUrl, [first], false);
    assert MergedPrsFrom(env, s, s.heads, RepoUrl, [first], false) == MergedPrsFrom(env, r, s.heads, RepoUrl, [], false);
    assert MergedPrsFrom(env, r, r.heads, RepoUrl, prs, false) == MergedPrsFrom(env, r2, r.heads, RepoUrl, [first], false);
    assert MergedPrsFrom(env, r2, r.heads, RepoUrl, [first], false) == MergedPrsFrom(env, r2, r.heads, RepoUrl, [], false);
  }
}
