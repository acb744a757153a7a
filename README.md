# git-sync, modelled in Dafny

git-sync brings local branches up to date in three stages:

1. It fetches from every remote and fast-forwards each non-checked-out branch to its upstream.
2. It pushes branches whose copy on the push remote has fallen behind.
3. It reconciles branches whose pull request has been merged: each such branch is deleted, force-moved or hard-reset to the merge commit, behind an ancestry gate and a dirty-working-tree gate.

The list of pull requests comes from the hosting service's GraphQL API. Repository URLs are grouped by domain, a per-domain token gates each fetch, and PR records are built from the response tree.

This project models that core. It proves what each stage does to the repository.

## Structure

- **`wrappers.dfy`** (`Wrappers`): `Option` and `Result`.
- **`text.dfy`** (`Text`): the byte-string operations the parsers use, defined exactly:
  - `bytes.splitlines()`, which breaks at `\n`, `\r` and `\r\n`;
  - `split(b" ")` unpacked into two parts;
  - `strip()`, `rstrip(b"\r\n")`, `removeprefix` and the slices `[11:]` and `[7:-4]`;
  - `count`.
- **`git_output.dfy`** (`GitOutput`): the parsers of `git_sync/git.py`, each a function of git's captured output. It proves, for each one, what it returns on the listing git prints:
  - `get_branch_hashes`;
  - `get_branches_with_remote_upstreams`;
  - `get_remotes`;
  - `get_remote_branches`;
  - `get_upstream_branch`;
  - `branch_is_an_upstream`;
  - the exit-code reading of `is_ancestor`.
- **`git_repo.dfy`** (`GitRepo`): the repository.
  - `RepoState` holds the branch tips, the upstream configuration, HEAD, the staged and unstaged flags, the remote-tracking refs and a log of the git commands issued.
  - `Env` supplies what the repository does not decide itself: the commit objects, the ancestry relation, the tips a fetch brings in, the commit the checked-out branch is at after `pull --all` has merged into it, and the exit code of each network command.
  - `git fetch . src:dst ...` follows git: a missing source ref or a checked-out destination stops the whole fetch with exit 128 before any branch moves (`FetchAborts`). Otherwise each refspec that is a fast-forward moves its branch, any other is rejected on its own, and the exit status is 1 when some refspec was rejected.
  - `Exec` gives the effect and exit status of each git command the core issues. `Run` raises `GitError` on a nonzero exit, as `git(..., check_return=True)` does.
  - `class Repo` has one field per part of the state. Its methods `PullAll`, `FetchAll`, `FetchLocal`, `Push`, `Checkout`, `DeleteBranch`, `ForceBranch` and `ResetHard` each update the fields exactly as `Exec` says. `IsAncestorOf` runs `merge-base --is-ancestor`.
  - Bridging lemmas show that the repository's queries are what the `GitOutput` parsers return on the listing `for-each-ref` prints for that state.
- **`stages.dfy`** (`GitStages`): `fetch_and_fast_forward_to_upstream` and `fast_forward_to_downstream`.
  - Each is a method on `Repo`, proved against a specification function: `UpstreamStage` and `DownstreamStage`.
  - Lemmas state what those functions do.
- **`merged_prs.dfy`** (`MergedBranches`): `update_merged_pr_branch` and `update_merged_prs`.
  - Each is a method on `Repo`, proved against `MergedPrBranch` and `MergedPrs`.
  - Lemmas cover:
    - the four outcomes and their failure conditions;
    - the gates;
    - the frame: no other branch, upstream or remote ref changes;
    - where HEAD ends up;
    - idempotence.
- **`github.dfy`** (`Github`): `git_sync/github.py`.
  - `parse_repo_url` and its soundness and completeness.
  - `repos_by_domain`: a loop over a dict kept as an association list, so that key order is insertion order.
  - The endpoint choice.
  - The record-building loop of `fetch_pull_requests_from_domain`, over a `Response` datatype.
  - The token gating and concatenation of `fetch_pull_requests`.
- **`scenarios.dfy`** (`Scenarios`): the integration tests, replayed on concrete states.
  - The merged-PR scenarios of `tests/integration/test_fast_forward_merged_prs.py`.
  - `tests/integration/test_is_ancestor.py`.
  - A two-PR example on which reconciliation is not idempotent.

## Where the code does more or less than its comments say

- **Ancestry-check failures.** The comment at `git_sync/git.py:220` gives one cause for a `GitError` from the ancestry check: the commit may no longer be present. The `except GitError` around it (`git_sync/git.py:217-220`) catches every `GitError`, whatever its cause. The model therefore skips the PR on every exit status other than 0 and 1.
- **The upstream test.** The docstrings at `git_sync/git.py:155` and `git_sync/git.py:172-173` speak of a branch that is upstream of "any other branch". The test itself (`git_sync/git.py:156-161`) asks whether any local branch's upstream is `refs/heads/<name>`, and that includes the branch itself. The model follows the test.
- **The GraphQL exchange.** `fetch_pull_requests_from_domain` sends one GraphQL query per domain. It yields one record per PR node that lists a commit, and the first listed commit is the record's `branch_hash` (`git_sync/github.py:93-110`).
- **Domains with `/`.** The SSH pattern's domain group `[^:]*` (`git_sync/github.py:19`) accepts `/`, so `parse_repo_url` can return a domain such as `x.y/api`. The endpoint choice (`git_sync/github.py:85-89`) then builds a URL that another domain also gets: `Github.SshDomainEndpointClash` shows `x.y/api` and `api.x.y` sharing `https://api.x.y/api/graphql`. The round trip and injectivity of the endpoint are proved for slash-free domains only.
- **Idempotence.**
  - `MergedBranches.MergedPrsIdempotent` proves that a second run over the same PRs changes nothing, under two conditions:
    - no two PRs share a branch name;
    - no PR's recorded head hash names another PR's branch.
  - Without them the second run can act again. `Scenarios.RepeatedNameNotIdempotent` shows this with two merged PRs on branch `x`, the newer one listed first.
    - On the first run the newer PR fails the ancestry check, since `x` is not yet an ancestor of its head. The older PR then moves `x` to its merge commit.
    - That merge commit is an ancestor of the newer PR's head, so the second run moves `x` again, to the newer merge commit.
    - The cause is the list order together with the ancestry gate (`git_sync/git.py:208-227`). Reading the branch-hash snapshot afresh before each PR would give the same two runs.

## Model

| member | source | states |
|---|---|---|
| GitOutput.CurrentBranch | git_sync/git.py:54-56 | the definition of `get_current_branch` on the captured output of `symbolic-ref -q HEAD`: None for empty output, otherwise that output; its property on states is `GitRepo.CurrentBranchOfState` |
| GitOutput.BranchHashes | git_sync/git.py:64-71 | the definition of `get_branch_hashes` on the captured output: split into lines, each parsed as `refs/heads/<name> <hash>`; its properties are the rows below |
| GitOutput.HashEntriesFail | git_sync/git.py:68-71 | the branch-hash parse succeeds exactly when every line is a `ref hash` pair with an ASCII hash |
| GitOutput.MapOfRowsSpec | git_sync/git.py:68-71 | the dict's keys are exactly the listed names, and a name maps to the hash of its last line |
| GitOutput.HashLineEntry | git_sync/git.py:69-70 | the line `refs/heads/<name> <hash>` yields key `<name>` (first 11 bytes dropped) and value `<hash>` |
| GitOutput.HashEntriesOfRows | git_sync/git.py:68-71 | the parse of the listed lines is the dict built row by row |
| GitOutput.BranchHashesOfListing | git_sync/git.py:64-71 | on git's listing, the result is defined, its keys are the listed branch names, and each maps to its hash |
| GitOutput.BranchesWithRemoteUpstreams | git_sync/git.py:74-83 | the definition of `get_branches_with_remote_upstreams` on the two captured outputs; its properties are the rows below |
| GitOutput.UpstreamEntriesOfRows | git_sync/git.py:79-83 | the parse of the `refname upstream` lines is the remote-tracked filter of the rows |
| GitOutput.RemoteTrackedMember | git_sync/git.py:79-83 | a branch is kept exactly when it is listed with an upstream under `refs/remotes/`, and `is_current` is true exactly when its ref equals the current branch |
| GitOutput.RemoteTrackedConcat | git_sync/git.py:79-83 | the filter keeps input order: it distributes over concatenation |
| GitOutput.BranchesOfListing | git_sync/git.py:74-83 | on git's listing, `get_branches_with_remote_upstreams` returns the remote-tracked filter of the rows |
| GitOutput.Remotes | git_sync/git.py:92-99 | the definition of `get_remotes` on the captured output of `config --get-regexp`; its properties are the rows below |
| GitOutput.RemoteLineEntry | git_sync/git.py:96-98 | the line `remote.<name>.url <url>` yields that remote: the name is `key[7:-4]` |
| GitOutput.RemoteEntriesOfRemotes | git_sync/git.py:96-98 | the lines of a list of remotes parse back to that list, in order |
| GitOutput.RemotesOfListing | git_sync/git.py:92-99 | `get_remotes` on git's output returns every configured remote, name and URL, in order |
| GitOutput.RemoteBranches | git_sync/git.py:102-106 | the definition of `get_remote_branches`: the captured lines |
| GitOutput.RemoteBranchesOfListing | git_sync/git.py:102-106 | `get_remote_branches` returns the listed refs, one per line, in order |
| GitOutput.UpstreamBranch | git_sync/git.py:145-151 | a result exactly when the upstream starts with `refs/heads/`, and then it is the rest of it |
| GitOutput.UpstreamBranchOfListing | git_sync/git.py:145-151 | for one listed branch, the result is its upstream without `refs/heads/`, or None for any other upstream |
| GitOutput.UpstreamHeads | git_sync/git.py:156-160 | the definition of the set `upstream_heads`: each stripped line without `refs/heads/` |
| GitOutput.BranchIsAnUpstream | git_sync/git.py:154-161 | the definition of `branch_is_an_upstream`: membership in `UpstreamHeads` |
| GitOutput.UpstreamHeadsLines | git_sync/git.py:156-159 | after `strip()`, the lines read are the listing without its leading and trailing empty lines |
| GitOutput.FilledLinesMatch | git_sync/git.py:157-161 | dropping empty lines changes no membership test for a non-empty name |
| GitOutput.BranchIsAnUpstreamOfListing | git_sync/git.py:154-161 | a non-empty name is an upstream exactly when some listed upstream, with `refs/heads/` removed, is that name |
| GitOutput.IsAncestor | git_sync/git.py:109-117 | exit 0 gives true, exit 1 gives false, and any other exit code is an error carrying that code |
| Github.ParseRepoUrl | git_sync/github.py:22-36 | the definition of `parse_repo_url`: the HTTPS pattern first, then the SSH pattern; its properties are the rows below |
| Github.RepoName | git_sync/github.py:18-19 | the `([^/]*)\.git$` tail: a slash-free name followed by `.git` and at most one final newline |
| Github.RepoNameOf | git_sync/github.py:18-19 | every slash-free name with `.git` (and an optional newline) is matched back to that name |
| Github.MatchOwnerOf | git_sync/github.py:18-19 | `<owner>/<name>.git` with slash-free owner and name matches to that owner and name |
| Github.MatchShapeOf | git_sync/github.py:18-19 | a URL of either shape is matched back to its repository |
| Github.ParseHttpsUrl | git_sync/github.py:22-32 | `https://D/O/N.git`, with no `/` in D, O or N and with or without a final newline, parses to `(D, O, N)` |
| Github.ParseSshUrl | git_sync/github.py:22-36 | `git@D:O/N.git`, with no `:` in D and no `/` in O or N, parses to `(D, O, N)` |
| Github.MatchOwnerSound | git_sync/github.py:18-19 | a match of `O/N.git` has slash-free O and N, and the text is exactly that |
| Github.MatchDomainSound | git_sync/github.py:18-19 | a match after the prefix has a separator-free domain, and the text is exactly the shaped tail |
| Github.MatchShapeSound | git_sync/github.py:18-19 | the matched URL is exactly the shaped URL of the repository it returns |
| Github.ParseRepoUrlSound | git_sync/github.py:22-36 | a parsed URL is the HTTPS or the SSH URL of its repository, optionally with one final newline; every other URL gives None |
| Github.HttpsDoctestUrl | git_sync/github.py:25-26 | the doctest's HTTPS URL is the HTTPS URL of `(github.com, alicederyn, git-sync)` |
| Github.SshDoctestUrl | git_sync/github.py:27-28 | the doctest's SSH URL is the SSH URL of `(github.com, alicederyn, git-graph-branch)` |
| Github.ParseHttpsExample | git_sync/github.py:25-26 | the first doctest: the HTTPS URL parses to `Repository('github.com', 'alicederyn', 'git-sync')` |
| Github.ParseSshExample | git_sync/github.py:27-28 | the second doctest: the SSH URL parses to `Repository('github.com', 'alicederyn', 'git-graph-branch')` |
| Github.ParsedUrlsStep | git_sync/github.py:41-43 | each URL adds its repository when it parses, and nothing otherwise |
| Github.Distinct | git_sync/github.py:44 | dict keys in first-insertion order: the same elements, each once, ordered by their first occurrence in the input |
| Github.OnDomain | git_sync/github.py:44 | the repositories appended under a domain are exactly those on it |
| Github.GroupByDomain | git_sync/github.py:39-45 | the definition of the dict `repos_by_domain` builds, as an association list in insertion order |
| Github.GroupByDomainKeys | git_sync/github.py:39-45 | the keys are the distinct domains of the parsed URLs, in first-seen order |
| Github.GroupByDomainGroups | git_sync/github.py:39-45 | each key's list is the parsed repositories on that domain, in input order |
| Github.GroupByDomainSnoc | git_sync/github.py:41-44 | one more URL appends to its domain's list, or adds a new key at the end |
| Github.ReposByDomain | git_sync/github.py:39-45 | the loop with `setdefault(...).append` computes the grouping of the parsed URLs |
| Github.Endpoint | git_sync/github.py:85-89 | `https://api.<domain>/graphql` when the domain has exactly one dot, otherwise `https://<domain>/api/graphql` |
| Github.EndpointExamples | git_sync/github.py:85-89 | `github.com` and `github.example.com` get the public and the enterprise endpoint |
| Github.EndpointRoundTrip | git_sync/github.py:85-89 | every slash-free domain (every HTTPS-parsed domain) can be read back from its endpoint |
| Github.EndpointInjective | git_sync/github.py:85-89 | distinct slash-free domains get distinct endpoints |
| Github.SshDomainEndpointClash | git_sync/github.py:85-89 | the SSH pattern (github.py:19) parses `git@x.y/api:o/n.git` to domain `x.y/api`, whose endpoint equals that of `api.x.y`, so round trip and injectivity need the slash-free condition |
| Github.RepoUrls | git_sync/github.py:102-107 | exactly the non-None values among `sshUrl` and `url`, and none when `headRepository` is missing |
| Github.Record | git_sync/github.py:104-110 | a node yields a record exactly when its `commits.nodes` is non-empty |
| Github.RecordsMember | git_sync/github.py:100-110 | a record is yielded exactly when a node with a commit has that head ref, those URLs, its first commit's oid and its merge commit's oid |
| Github.RecordsCount | git_sync/github.py:104-110 | nodes without commits yield nothing, and nodes with commits yield one record each |
| Github.RecordsConcat | git_sync/github.py:101-110 | records keep response order |
| Github.AllRecordsConcat | git_sync/github.py:100-101 | repositories' records follow the order of `data` |
| Github.PullRequestsOf | git_sync/github.py:99-110 | nothing is yielded exactly when the response reports errors |
| Github.YieldPullRequests | git_sync/github.py:98-110 | the nested loop yields exactly the records of the response, or fails on errors |
| Github.FetchDomain | git_sync/github.py:125-132 | the definition of the inner `fetch`: no truthy token gives no PRs, otherwise the records of the domain's response |
| Github.FetchGroups | git_sync/github.py:134-138 | the definition of the gather and flatten over the domains in key order; any failing domain fails the whole result |
| Github.FetchPullRequests | git_sync/github.py:113-138 | the definition of `fetch_pull_requests`: `FetchGroups` over the grouping of the parsed URLs |
| Github.FetchGroupsSpec | git_sync/github.py:125-138 | the fetch fails exactly when a domain with a token gets an error response; otherwise a PR is returned exactly when a domain with a token returned it |
| Github.NoTokensNoPullRequests | git_sync/github.py:127-129 | with no truthy token for any domain, the result is empty |
| GitRepo.AncestorExit | git_sync/git.py:112 | `merge-base --is-ancestor` exits with 0, 1 or 128 |
| GitRepo.UpstreamOf | git_sync/git.py:145-151 | the upstream is a local branch exactly when it is configured under `refs/heads/`, and the result is its name |
| GitRepo.CheckoutTarget | git_sync/git.py:191 | the checkout target is the local upstream when there is a non-empty one, and `main` otherwise |
| GitRepo.RemoteBranchSet | git_sync/git.py:102-106 | the definition of the refs that `for-each-ref refs/remotes/<remote>` selects: those under `refs/remotes/<remote>/`; its property is `GitRepo.RemoteBranchesOfState` |
| GitRepo.CurrentBranchOfState | git_sync/git.py:54-56 | `get_current_branch` on what `symbolic-ref -q HEAD` prints for a state is the checked-out branch as `refs/heads/<name>`, and None when HEAD is detached |
| GitRepo.RemoteBranchesOfState | git_sync/git.py:102-106 | `get_remote_branches` on a listing of the refs under `refs/remotes/<remote>/`, in any order, returns exactly those refs |
| GitRepo.IsUpstreamOfListing | git_sync/git.py:154-161 | `branch_is_an_upstream` on the state's listing holds exactly when some branch's upstream is `refs/heads/<name>` |
| GitRepo.UpstreamOfListing | git_sync/git.py:145-151 | `get_upstream_branch` on the state's listing is the branch's local upstream |
| GitRepo.BranchHashesOfState | git_sync/git.py:64-71 | `get_branch_hashes` on the state's listing is exactly the branch→hash map |
| GitRepo.Exec | git_sync/git.py:121-200 | the definition of the effect and exit status of each git command the program issues; its properties are the `...Spec` rows |
| GitRepo.ApplyRefspec | git_sync/git.py:130 | the definition of one refspec of `fetch .`: a fast-forward (or a new branch) moves the branch, anything else is rejected |
| GitRepo.FetchAborts | git_sync/git.py:130 | the definition of when `fetch .` dies before it updates any ref: a missing source or a checked-out destination |
| GitRepo.BranchDeleteSpec | git_sync/git.py:193 | `branch -D` succeeds exactly when the branch exists and is not checked out; it then removes only that branch |
| GitRepo.BranchForceSpec | git_sync/git.py:200 | `branch --force` succeeds exactly when the branch is not checked out and the commit exists; it moves only that branch |
| GitRepo.ResetHardSpec | git_sync/git.py:195 | `reset --hard` moves the checked-out branch to the commit and cleans the tree, and touches no other branch |
| GitRepo.CheckoutSpec | git_sync/git.py:192 | checkout succeeds exactly for a local branch, moves HEAD there and changes no branch and no working state |
| GitRepo.Repo.IsAncestorOf | git_sync/git.py:109-117 | `Ok(true)` exactly when both revisions resolve and the first is an ancestor of the second |
| GitRepo.PullSpec | git_sync/git.py:122 | `pull --all` exits with the network's status; on success it refreshes every remote-tracking ref and moves the checked-out branch, and no other, to the pulled commit; on failure no branch and no remote ref changes |
| GitRepo.Repo.PullAll | git_sync/git.py:122 | the fields change exactly as `pull --all` does: remote-tracking refs refreshed and the checked-out branch at the pulled commit on success |
| GitRepo.Repo.FetchAll | git_sync/git.py:124 | the fields change exactly as `fetch --all` does |
| GitRepo.Repo.FetchLocal | git_sync/git.py:130 | the fields change exactly as `fetch . <refspecs>` does: nothing but the log on an abort (exit 128), otherwise the accepted refspecs' branches |
| GitRepo.Repo.Push | git_sync/git.py:142 | the fields change exactly as `push <remote> <branch>` does |
| GitRepo.Repo.Checkout | git_sync/git.py:192 | the fields change exactly as `checkout` does |
| GitRepo.Repo.DeleteBranch | git_sync/git.py:198 | the fields change exactly as `branch -D` does |
| GitRepo.Repo.ForceBranch | git_sync/git.py:200 | the fields change exactly as `branch --force` does |
| GitRepo.Repo.ResetHard | git_sync/git.py:195 | the fields change exactly as `reset --hard` does |
| GitRepo.Repo.Git | git_sync/git.py:21-26 | runs the command; a nonzero exit is a `GitError` only when the return code is checked |
| GitStages.RefspecsMember | git_sync/git.py:125 | a refspec `upstream:name` is built exactly for each non-current branch |
| GitStages.RefspecsEmpty | git_sync/git.py:125-126 | there is no refspec exactly when every branch is current |
| GitStages.RefspecsDistinct | git_sync/git.py:125 | on a listing of distinct `refs/heads/` branches, no two refspecs target the same branch |
| GitStages.FetchLocalAt | git_sync/git.py:130 | a fetch with a missing source or a checked-out destination exits 128 and moves no branch; otherwise each accepted refspec sets its branch to its source's commit, and a rejected one leaves its branch alone |
| GitStages.FetchLocalExit | git_sync/git.py:127-130 | the refspec fetch exits 128 exactly when it aborts, 0 exactly when it does not abort and every refspec is accepted, and 1 otherwise |
| GitStages.FetchLocalFastForward | git_sync/git.py:127-130 | whether or not it aborts, no branch is lost, each ends at a descendant of its tip, and the checked-out branch is not moved |
| GitStages.UpstreamStage | git_sync/git.py:120-130 | the definition of `fetch_and_fast_forward_to_upstream` on states; its properties are the rows below |
| GitStages.UpstreamStageCommands | git_sync/git.py:120-130 | `pull --all` when some branch is current, `fetch --all` otherwise; its failure is an error; then one `fetch .` exactly when a non-current branch exists; its exit status is ignored |
| GitStages.UpstreamStageApplied | git_sync/git.py:120-130 | after a successful network step and a local fetch that does not abort, each accepted non-current branch is at its upstream's fetched tip; when the local fetch aborts, no branch but the pulled one moves |
| GitStages.UpstreamStageKeeps | git_sync/git.py:120-130 | no branch is lost, every branch that is not checked out only fast-forwards, and the checked-out branch ends at the pulled commit when the stage pulled successfully and at its own commit otherwise |
| GitStages.UpstreamStageFastForwards | git_sync/git.py:120-130 | the conjunction of `UpstreamStageApplied` and `UpstreamStageKeeps`: the whole effect of the stage on the branches |
| GitStages.DownstreamStage | git_sync/git.py:133-142 | the definition of `fast_forward_to_downstream` on states, with the push remote's branches read once; its properties are the rows below |
| GitStages.PushesMember | git_sync/git.py:137-142 | a push is issued exactly for each branch whose ref on the push remote exists and is not its upstream |
| GitStages.DownstreamKeepsLocal | git_sync/git.py:133-142 | pushing changes no local branch, upstream, HEAD or working state |
| GitStages.DownstreamSuccess | git_sync/git.py:137-142 | the stage succeeds exactly when every selected push exits 0, and then it issued exactly those pushes, in order |
| GitStages.DownstreamFailure | git_sync/git.py:137-142 | on failure, the pushes before the first failing one were issued and the error is that push's |
| GitStages.DownstreamPushed | git_sync/git.py:137-142 | after success, each pushed branch's ref on the push remote holds the local tip |
| GitStages.DownstreamRefKept | git_sync/git.py:141 | a ref on the push remote that already holds the local tip still holds it |
| GitStages.FetchAndFastForwardToUpstream | git_sync/git.py:120-130 | the method's new state and error are those of `UpstreamStage` |
| GitStages.FastForwardToDownstream | git_sync/git.py:133-142 | the method's new state and error are those of `DownstreamStage` |
| MergedBranches.MergedPrBranch | git_sync/git.py:164-201 | the definition of `update_merged_pr_branch` on states; its properties are the rows below |
| MergedBranches.MergedPrBranchDirty | git_sync/git.py:177-189 | with staged or unstaged changes on the checked-out branch, nothing changes at all |
| MergedBranches.MergedPrBranchOutcome | git_sync/git.py:190-200 | on success the branch is gone exactly when deletion was chosen, and otherwise it is at the merged commit |
| MergedBranches.MergedPrBranchSucceeds | git_sync/git.py:190-200 | the exact condition under which each of the four outcomes succeeds |
| MergedBranches.MergedPrBranchFrame | git_sync/git.py:190-200 | no other branch, no other upstream and no remote ref changes |
| MergedBranches.MergedPrBranchHead | git_sync/git.py:175-200 | HEAD moves only when the checked-out branch is deleted, and then to its upstream or `main`; a reset leaves a clean tree |
| MergedBranches.AncestorExitSpec | git_sync/git.py:109-117 | exit 0 or 1 by ancestry when both revisions resolve, 128 otherwise, and only 128 raises |
| MergedBranches.MergedPrStep | git_sync/git.py:208-227 | the definition of one iteration of `update_merged_prs`: the gates, the ancestry check, then `MergedPrBranch` |
| MergedBranches.MergedPrs | git_sync/git.py:204-227 | the definition of `update_merged_prs`: the iterations in order over the snapshot read before the loop |
| MergedBranches.MergedPrStepSkips | git_sync/git.py:211-222 | a PR that fails any of the gates or the ancestry check changes nothing |
| MergedBranches.StaleListingSkips | git_sync/git.py:207-220 | a PR whose branch was deleted earlier in the run is skipped |
| MergedBranches.MergedPrStepFrame | git_sync/git.py:208-227 | one PR touches no other branch, upstream or remote ref, and leaves HEAD alone unless its branch is checked out |
| MergedBranches.MergedPrsUntouched | git_sync/git.py:208-227 | a branch named by no PR keeps its tip and upstream |
| MergedBranches.QuietStep | git_sync/git.py:211-222 | a PR whose branch is settled is skipped |
| MergedBranches.QuietAfter | git_sync/git.py:211-227 | a successful step leaves its PR settled |
| MergedBranches.SettlesAll | git_sync/git.py:207-227 | after a successful run every PR is settled |
| MergedBranches.QuietRun | git_sync/git.py:207-227 | a run over settled PRs changes nothing |
| MergedBranches.MergedPrsIdempotent | git_sync/git.py:204-227 | when no two PRs share a branch and no PR's head hash names another PR's branch, a second run after a successful one changes nothing |
| MergedBranches.UpdateMergedPrBranch | git_sync/git.py:164-201 | the method's new state and error are those of `MergedPrBranch` |
| MergedBranches.UpdateMergedPrs | git_sync/git.py:204-227 | the method's new state and error are those of `MergedPrs`, over the once-read snapshot |
| Scenarios.IsAncestorSimple | tests/integration/test_is_ancestor.py:8-16 | base is an ancestor of second, and second is not an ancestor of base |
| Scenarios.DeleteMergedInactivePrBranch | tests/integration/test_fast_forward_merged_prs.py:23-48 | the merged, non-current `my_pr` is deleted; `main` and `more_work` are unchanged |
| Scenarios.ForceInactiveUpstreamBranch | tests/integration/test_fast_forward_merged_prs.py:51-77 | `my_pr`, the upstream of `more_work`, is force-moved to the merge commit |
| Scenarios.InactiveBranchWithDeletionDisabled | tests/integration/test_fast_forward_merged_prs.py:80-106 | with deletion disabled, `my_pr` is force-moved instead of deleted |
| Scenarios.DeleteMergedActivePrBranch | tests/integration/test_fast_forward_merged_prs.py:109-136 | the checked-out `my_pr` is deleted and HEAD moves to `main` |
| Scenarios.ForceActiveUpstreamBranch | tests/integration/test_fast_forward_merged_prs.py:139-165 | the checked-out upstream `my_pr` is reset to the merge commit and stays checked out |
| Scenarios.ActiveBranchWithDeletionDisabled | tests/integration/test_fast_forward_merged_prs.py:167-193 | with deletion disabled, the checked-out `my_pr` is reset to the merge commit and stays checked out |
| Scenarios.StagedChangesNotLost | tests/integration/test_fast_forward_merged_prs.py:197-221 | staged changes leave the whole state unchanged |
| Scenarios.UnstagedChangesNotLost | tests/integration/test_fast_forward_merged_prs.py:224-248 | unstaged changes leave the whole state unchanged |
| Scenarios.FastForwardWhenPrHadAdditionalCommits | tests/integration/test_fast_forward_merged_prs.py:251-278 | a local tip behind the PR's last commit is moved to the merge commit |
| Scenarios.NoFastForwardWhenBranchHasAdditionalCommits | tests/integration/test_fast_forward_merged_prs.py:281-302 | a local tip with commits of its own fails the ancestry gate, and nothing changes |
| Scenarios.RepeatedNameNotIdempotent | git_sync/git.py:208-227 | two merged PRs on one branch, the newer listed first: the first run skips the newer at the ancestry gate and moves the branch for the older; the second run moves it again |

## Left out

- Subprocess plumbing is not modelled: `git`, `git_output`, `in_git_repo`, `create_subprocess_exec` and stdout capture. Each git command is an `Exec` transition. Each query is a function of the state, or of the text git prints.
- `get_default_push_remote` reads configuration and has no logic; the push remote is a parameter of `FastForwardToDownstream`.
- The stages receive the branch listing as a parameter. The model's `get_branches_with_remote_upstreams` is the parser in `GitOutput`, not a method reading from `Repo`.
- Concurrency is not modelled: `asyncio`, `Semaphore` and `gather`. The sequential result is modelled.
- `GraphQLClient`, HTTP and the query text of `gql_query` are left out. The server is a function from endpoint, token and repositories to a `Response`.
- Printed messages and the text of `GitError` messages are left out. A `GitError` carries its command and exit code.
- `git_sync/__init__.py`, `.github/scripts/check-version-change.py` and the integration-test helpers (`tests/integration/gitutils.py`, `tests/integration/conftest.py`) are not part of this model.
- `tests/test_github.py` is written against a different version of `github.py`, so no property is taken from it beyond the two endpoint shapes.
- Commit graphs are given, not computed. Ancestry is a relation in `Env` and need not be transitive. The tips a fetch brings in and the exit codes of network commands are also given.
- Revision lookup is simplified. A revision is a known commit hash, or else a local branch name. Tags, remote refs, abbreviated hashes and checkout's guessing of remote branches are not modelled.
- `pull --all`'s merge is given, not computed: `Env.pulled` is the commit the checked-out branch is at after a successful pull, and `Env` does not require it to descend from the branch's old commit. Its effect on the index and working tree is not modelled, and a failing or conflicting merge is a nonzero status from the network.
- The local fetch distinguishes only an abort (exit 128) from a rejected refspec (exit 1). Which refspec git reports, and its messages, are not modelled.
- `for-each-ref` pattern matching is modelled as prefix matching on whole path components.
- Text is `seq<char>`. Non-ASCII names, UTF-8 encoding and decoding, and the `errors="replace"` of messages are not modelled. An ASCII decode failure is a parse error.
- GitOutput.BranchHashesOfListing: the listing lemmas assume git's own output format: space-free names and hashes, one record per line. Arbitrary captured text is covered only by the error paths of the parsers.
- MergedBranches.MergedPrsIdempotent: proved only when no two PRs share a branch name and no PR's recorded head hash is another PR's branch name. `Scenarios.RepeatedNameNotIdempotent` shows the property fails otherwise.
