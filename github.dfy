/**
 * The data handling of git_sync/github.py: repository URLs, grouping them by
 * domain, the GraphQL endpoint of a domain, the pull-request records built
 * from a GraphQL response, and the flattening of the per-domain results.
 * The HTTP client is a parameter: a function from endpoint, token and
 * repositories to the response the server sends.
 */
module Github {

  import opened Wrappers
  import opened Text

  datatype Repository = Repository(domain: string, owner: string, name: string)

  datatype PullRequest = PullRequest(
    branchName: string,
    repoUrls: set<string>,
    branchHash: string,
    mergedHash: Option<string>)

  // ---------------------------------------------------------------------
  // parse_repo_url

  const HttpsPrefix: string := "https://"
  const SshPrefix: string := "git@"

  /**
   * The tail `([^/]*)\.git$` both patterns end with. Python's `$` also
   * matches just before a final "\n", so one trailing newline is accepted.
   */
  function RepoName(rest: string): (r: Option<string>)
    ensures r.Some? ==> '/' !in r.value && (rest == r.value + ".git" || rest == r.value + ".git\n")
  {
    if '/' in rest then None
    else if EndsWith(rest, ".git") then Some(rest[..|rest| - 4])
    else if EndsWith(rest, ".git\n") then Some(rest[..|rest| - 5])
    else None
  }

  /**
   * One of the two patterns, `^<prefix>([^<sep>]*)<sep>([^/]*)/([^/]*)\.git$`:
   * `HTTPS_URL` has prefix `https://` and separator `/`, `GIT_URL` has
   * prefix `git@` and separator `:`. Each group runs to the first character
   * it may not hold.
   */
  function MatchShape(url: string, prefix: string, sep: char): Option<Repository> {
    if !StartsWith(url, prefix) then None else MatchDomain(url[|prefix|..], sep)
  }

  /** The domain group runs to the first `sep`. */
  function MatchDomain(t: string, sep: char): Option<Repository> {
    var i := IndexOf(t, sep);
    if i == |t| then None else MatchOwner(t[..i], t[i + 1..])
  }

  /** The owner group runs to the first `/`; the name group takes the rest. */
  function MatchOwner(domain: string, u: string): Option<Repository> {
    var j := IndexOf(u, '/');
    if j == |u| then None
    else
      match RepoName(u[j + 1..])
      case None => None
      case Some(n) => Some(Repository(domain, u[..j], n))
  }

  /** `parse_repo_url`: the HTTPS shape is tried first, then the SSH shape. */
  function ParseRepoUrl(url: string): Option<Repository> {
    match MatchShape(url, HttpsPrefix, '/')
    case Some(repo) => Some(repo)
    case None => MatchShape(url, SshPrefix, ':')
  }

  function ShapedUrl(prefix: string, sep: char, r: Repository): string {
    prefix + r.domain + [sep] + r.owner + "/" + r.name + ".git"
  }

  function HttpsUrl(r: Repository): string {
    ShapedUrl(HttpsPrefix, '/', r)
  }

  function SshUrl(r: Repository): string {
    ShapedUrl(SshPrefix, ':', r)
  }

  /** What the groups `[^<sep>]*`, `[^/]*` and `[^/]*` can capture. */
  predicate Shaped(sep: char, r: Repository) {
    sep !in r.domain && '/' !in r.owner && '/' !in r.name
  }

  predicate HttpsShaped(r: Repository) {
    Shaped('/', r)
  }

  predicate SshShaped(r: Repository) {
    Shaped(':', r)
  }

  function Newline(nl: bool): string {
    if nl then "\n" else ""
  }

  lemma RepoNameOf(n: string, nl: bool)
    requires '/' !in n
    ensures RepoName(n + ".git" + Newline(nl)) == Some(n)
  {
    var rest := n + ".git" + Newline(nl);
    if nl {
      assert rest[|rest| - 1] == '\n';
      assert rest[..|rest| - 5] == n;
    } else {
      assert rest[..|rest| - 4] == n;
    }
  }

  /** The first separator splits a URL into the group before it and the text after it. */
  lemma SplitAt(a: string, c: char, b: string)
    requires c !in a
    ensures var t := a + [c] + b; var i := IndexOf(t, c);
      i < |t| && t[..i] == a && t[i + 1..] == b
  {
    IndexOfAfter(a, c, b);
    var t := a + [c] + b;
    assert t[..|a|] == a;
    assert t[|a| + 1..] == b;
  }

  lemma MatchOwnerOf(domain: string, owner: string, name: string, nl: bool)
    requires '/' !in owner && '/' !in name
    ensures MatchOwner(domain, owner + "/" + (name + ".git" + Newline(nl))) == Some(Repository(domain, owner, name))
  {
    SplitAt(owner, '/', name + ".git" + Newline(nl));
    RepoNameOf(name, nl);
  }

  lemma MatchDomainOf(sep: char, r: Repository, nl: bool)
    requires Shaped(sep, r)
    ensures MatchDomain(r.domain + [sep] + (r.owner + "/" + (r.name + ".git" + Newline(nl))), sep) == Some(r)
  {
    SplitAt(r.domain, sep, r.owner + "/" + (r.name + ".git" + Newline(nl)));
    MatchOwnerOf(r.domain, r.owner, r.name, nl);
  }

  lemma MatchShapeOf(prefix: string, sep: char, r: Repository, nl: bool)
    requires Shaped(sep, r)
    ensures MatchShape(ShapedUrl(prefix, sep, r) + Newline(nl), prefix, sep) == Some(r)
  {
    var t := r.domain + [sep] + (r.owner + "/" + (r.name + ".git" + Newline(nl)));
    var url := ShapedUrl(prefix, sep, r) + Newline(nl);
    assert url == prefix + t;
    assert url[..|prefix|] == prefix;
    assert url[|prefix|..] == t;
    MatchDomainOf(sep, r, nl);
  }

  /** An HTTPS URL parses back to its repository, with or without a final newline. */
  lemma ParseHttpsUrl(r: Repository, nl: bool)
    requires HttpsShaped(r)
    ensures ParseRepoUrl(HttpsUrl(r) + Newline(nl)) == Some(r)
  {
    MatchShapeOf(HttpsPrefix, '/', r, nl);
  }

  /** An SSH URL parses back to its repository, with or without a final newline. */
  lemma ParseSshUrl(r: Repository, nl: bool)
    requires SshShaped(r)
    ensures ParseRepoUrl(SshUrl(r) + Newline(nl)) == Some(r)
  {
    var url := SshUrl(r) + Newline(nl);
    assert url[0] == 'g';
    assert !StartsWith(url, HttpsPrefix);
    MatchShapeOf(SshPrefix, ':', r, nl);
  }

  /** The text before the first `c` of `t` holds no `c`, and `t` is that text, `c`, and the rest. */
  lemma BeforeFirst(t: string, c: char)
    requires IndexOf(t, c) < |t|
    ensures var i := IndexOf(t, c); c !in t[..i] && t == t[..i] + [c] + t[i + 1..]
  {
    var i := IndexOf(t, c);
    assert forall k :: 0 <= k < i ==> t[..i][k] == t[k];
    Around(t, i);
  }

  /** What follows the prefix of a URL of the given shape. */
  function Tail(sep: char, r: Repository, nl: bool): string {
    r.domain + [sep] + (r.owner + "/" + (r.name + ".git" + Newline(nl)))
  }

  lemma UrlTail(prefix: string, sep: char, r: Repository, nl: bool)
    ensures ShapedUrl(prefix, sep, r) + Newline(nl) == prefix + Tail(sep, r, nl)
  {
  }

  lemma MatchOwnerSound(domain: string, u: string)
    requires MatchOwner(domain, u).Some?
    ensures var r := MatchOwner(domain, u).value;
      r.domain == domain && '/' !in r.owner && '/' !in r.name &&
      exists nl :: u == r.owner + "/" + (r.name + ".git" + Newline(nl))
  {
    var j := IndexOf(u, '/');
    assert j < |u|;
    BeforeFirst(u, '/');
    var owner, rest := u[..j], u[j + 1..];
    var n := RepoName(rest).value;
    assert MatchOwner(domain, u) == Some(Repository(domain, owner, n));
    var nl := rest != n + ".git";
    assert rest == n + ".git" + Newline(nl);
    assert u == owner + "/" + (n + ".git" + Newline(nl));
  }

  lemma MatchDomainSound(t: string, sep: char)
    requires MatchDomain(t, sep).Some?
    ensures var r := MatchDomain(t, sep).value;
      Shaped(sep, r) && exists nl :: t == Tail(sep, r, nl)
  {
    BeforeFirst(t, sep);
    var i := IndexOf(t, sep);
    MatchOwnerSound(t[..i], t[i + 1..]);
    var r := MatchDomain(t, sep).value;
    var nl :| t[i + 1..] == r.owner + "/" + (r.name + ".git" + Newline(nl));
    assert t == Tail(sep, r, nl);
  }

  lemma MatchShapeSound(url: string, prefix: string, sep: char)
    requires MatchShape(url, prefix, sep).Some?
    ensures var r := MatchShape(url, prefix, sep).value;
      Shaped(sep, r) && exists nl :: url == ShapedUrl(prefix, sep, r) + Newline(nl)
  {
    var t := url[|prefix|..];
    assert url == prefix + t;
    MatchDomainSound(t, sep);
    var r := MatchShape(url, prefix, sep).value;
    var nl :| t == Tail(sep, r, nl);
    UrlTail(prefix, sep, r, nl);
  }

  /** Every URL that parses has one of the two shapes, as a whole or followed by one newline. */
  lemma ParseRepoUrlSound(url: string)
    requires ParseRepoUrl(url).Some?
    ensures var r := ParseRepoUrl(url).value;
      || (HttpsShaped(r) && (url == HttpsUrl(r) || url == HttpsUrl(r) + "\n"))
      || (SshShaped(r) && (url == SshUrl(r) || url == SshUrl(r) + "\n"))
  {
    var https := MatchShape(url, HttpsPrefix, '/').Some?;
    var prefix, sep := if https then HttpsPrefix else SshPrefix, if https then '/' else ':';
    MatchShapeSound(url, prefix, sep);
    var r := ParseRepoUrl(url).value;
    var nl :| url == ShapedUrl(prefix, sep, r) + Newline(nl);
    assert url == ShapedUrl(prefix, sep, r) || url == ShapedUrl(prefix, sep, r) + "\n";
  }

  lemma HttpsDoctestUrl()
    ensures HttpsUrl(Repository("github.com", "alicederyn", "git-sync")) + Newline(false)
      == "https://github.com/alicederyn/git-sync.git"
  {
    assert "https://" + "github.com" + ['/'] + "alicederyn" == "https://github.com/alicederyn";
    assert "https://github.com/alicederyn" + "/" + "git-sync" + ".git" == "https://github.com/alicederyn/git-sync.git";
  }

  lemma SshDoctestUrl()
    ensures SshUrl(Repository("github.com", "alicederyn", "git-graph-branch")) + Newline(false)
      == "git@github.com:alicederyn/git-graph-branch.git"
  {
    assert "git@" + "github.com" + [':'] + "alicederyn" == "git@github.com:alicederyn";
    assert "git@github.com:alicederyn" + "/" + "git-graph-branch" + ".git" == "git@github.com:alicederyn/git-graph-branch.git";
  }

  /** The first doctest of `parse_repo_url`. */
  lemma ParseHttpsExample()
    ensures ParseRepoUrl("https://github.com/alicederyn/git-sync.git")
      == Some(Repository("github.com", "alicederyn", "git-sync"))
  {
    HttpsDoctestUrl();
    ParseHttpsUrl(Repository("github.com", "alicederyn", "git-sync"), false);
  }

  /** The second doctest of `parse_repo_url`. */
  lemma ParseSshExample()
    ensures ParseRepoUrl("git@github.com:alicederyn/git-graph-branch.git")
      == Some(Repository("github.com", "alicederyn", "git-graph-branch"))
  {
    SshDoctestUrl();
    ParseSshUrl(Repository("github.com", "alicederyn", "git-graph-branch"), false);
  }

  // ---------------------------------------------------------------------
  // repos_by_domain

  /** The repositories of the URLs that parse, in input order; the others are dropped. */
  function ParsedUrls(urls: seq<string>): (repos: seq<Repository>)
    ensures |repos| <= |urls|
  {
    if urls == [] then []
    else
      ParsedUrls(urls[..|urls| - 1])
        + match ParseRepoUrl(urls[|urls| - 1]) case Some(r) => [r] case None => []
  }

  /** A dict from domain to repositories, as its items in insertion order. */
  type Groups = seq<(string, seq<Repository>)>

  function Keys(groups: Groups): (keys: seq<string>)
    ensures |keys| == |groups|
    ensures forall i :: 0 <= i < |groups| ==> keys[i] == groups[i].0
  {
    if groups == [] then [] else Keys(groups[..|groups| - 1]) + [groups[|groups| - 1].0]
  }

  /** Where `key` sits among the items, or `|groups|` when it is not a key. */
  function FindKey(groups: Groups, key: string): (k: nat)
    ensures k <= |groups|
    ensures k < |groups| ==> groups[k].0 == key
    ensures forall i :: 0 <= i < k ==> groups[i].0 != key
  {
    if groups == [] then 0
    else if groups[0].0 == key then 0
    else 1 + FindKey(groups[1..], key)
  }

  /** `result.setdefault(repo.domain, []).append(repo)` */
  function AddRepo(groups: Groups, r: Repository): Groups {
    var k := FindKey(groups, r.domain);
    if k == |groups| then groups + [(r.domain, [r])]
    else groups[k := (r.domain, groups[k].1 + [r])]
  }

  /** The dict `repos_by_domain` returns for these repositories. */
  function GroupByDomain(repos: seq<Repository>): Groups {
    if repos == [] then [] else AddRepo(GroupByDomain(repos[..|repos| - 1]), repos[|repos| - 1])
  }

  function Domains(repos: seq<Repository>): (ds: seq<string>)
    ensures |ds| == |repos|
    ensures forall i :: 0 <= i < |repos| ==> ds[i] == repos[i].domain
  {
    if repos == [] then [] else Domains(repos[..|repos| - 1]) + [repos[|repos| - 1].domain]
  }

  /** The index of the first occurrence of `x` in `xs`. */
  function FirstIndex(xs: seq<string>, x: string): (i: nat)
    requires x in xs
    ensures i < |xs| && xs[i] == x && x !in xs[..i]
  {
    if xs[0] == x then 0 else 1 + FirstIndex(xs[1..], x)
  }

  /** Appending an element keeps the first occurrence of everything already present. */
  lemma {:induction false} FirstIndexSnoc(xs: seq<string>, y: string, x: string)
    requires x in xs
    ensures FirstIndex(xs + [y], x) == FirstIndex(xs, x)
  {
    if xs[0] != x {
      assert (xs + [y])[1..] == xs[1..] + [y];
      FirstIndexSnoc(xs[1..], y, x);
    }
  }

  /** A new last element is first seen at the end. */
  lemma FirstIndexLast(xs: seq<string>, x: string)
    requires x !in xs
    ensures FirstIndex(xs + [x], x) == |xs|
  {
  }

  /** The first occurrence of each element, in the order of their first occurrences. */
  function Distinct(xs: seq<string>): (ys: seq<string>)
    ensures forall x :: x in ys <==> x in xs
    ensures forall i, j :: 0 <= i < j < |ys| ==> ys[i] != ys[j]
    ensures forall i, j :: 0 <= i < j < |ys| ==> FirstIndex(xs, ys[i]) < FirstIndex(xs, ys[j])
  {
    if xs == [] then []
    else
      var init := Distinct(xs[..|xs| - 1]);
      var x := xs[|xs| - 1];
      assert xs == xs[..|xs| - 1] + [x];
      assert forall y :: y in xs <==> y in xs[..|xs| - 1] || y == x;
      forall y | y in init
        ensures FirstIndex(xs, y) == FirstIndex(xs[..|xs| - 1], y) < |xs| - 1
      {
        FirstIndexSnoc(xs[..|xs| - 1], x, y);
      }
      if x in init then init
      else
        FirstIndexLast(xs[..|xs| - 1], x);
        init + [x]
  }

  /** The repositories on domain `d`, in order. */
  function OnDomain(repos: seq<Repository>, d: string): (rs: seq<Repository>)
    ensures forall r :: r in rs <==> r in repos && r.domain == d
  {
    if repos == [] then []
    else
      var r := repos[|repos| - 1];
      assert forall x :: x in repos <==> x in repos[..|repos| - 1] || x == r by {
        assert repos == repos[..|repos| - 1] + [r];
      }
      OnDomain(repos[..|repos| - 1], d) + (if r.domain == d then [r] else [])
  }

  lemma {:induction false} OnAbsentDomain(repos: seq<Repository>, d: string)
    requires d !in Domains(repos)
    ensures OnDomain(repos, d) == []
  {
    if repos != [] {
      var init := repos[..|repos| - 1];
      assert Domains(repos) == Domains(init) + [repos[|repos| - 1].domain];
      OnAbsentDomain(init, d);
    }
  }

  /**
   * The keys of the dict `repos_by_domain` builds are the domains of the
   * repositories, each once and in order of first appearance.
   */
  lemma {:induction false} GroupByDomainKeys(repos: seq<Repository>)
    ensures Keys(GroupByDomain(repos)) == Distinct(Domains(repos))
  {
    if repos != [] {
      var init, r := repos[..|repos| - 1], repos[|repos| - 1];
      GroupByDomainKeys(init);
      var g := GroupByDomain(init);
      var g' := GroupByDomain(repos);
      assert Domains(repos)[..|repos| - 1] == Domains(init);
      var k := FindKey(g, r.domain);
      if k == |g| {
        assert r.domain !in Keys(g);
        assert Keys(g') == Keys(g) + [r.domain];
      } else {
        assert Keys(g)[k] == r.domain;
        assert Keys(g') == Keys(g);
      }
    }
  }

  /** Under each domain of that dict are the repositories on it, in input order. */
  lemma {:induction false} GroupByDomainGroups(repos: seq<Repository>)
    ensures forall i :: 0 <= i < |GroupByDomain(repos)| ==>
      GroupByDomain(repos)[i].1 == OnDomain(repos, GroupByDomain(repos)[i].0)
  {
    if repos != [] {
      var init, r := repos[..|repos| - 1], repos[|repos| - 1];
      assert repos == init + [r];
      GroupByDomainGroups(init);
      GroupByDomainKeys(init);
      var g := GroupByDomain(init);
      assert GroupByDomain(repos) == AddRepo(g, r);
      if FindKey(g, r.domain) == |g| {
        assert r.domain !in Keys(g);
        AddNewGroup(g, init, r);
      } else {
        AddToGroup(g, init, r);
      }
    }
  }

  lemma OnDomainSnoc(repos: seq<Repository>, r: Repository, d: string)
    ensures OnDomain(repos + [r], d) == OnDomain(repos, d) + (if r.domain == d then [r] else [])
  {
    assert (repos + [r])[..|repos|] == repos;
  }

  lemma AddNewGroup(g: Groups, repos: seq<Repository>, r: Repository)
    requires forall i :: 0 <= i < |g| ==> g[i].1 == OnDomain(repos, g[i].0)
    requires FindKey(g, r.domain) == |g| && r.domain !in Domains(repos)
    ensures forall i :: 0 <= i < |AddRepo(g, r)| ==> AddRepo(g, r)[i].1 == OnDomain(repos + [r], AddRepo(g, r)[i].0)
  {
    var g' := AddRepo(g, r);
    OnAbsentDomain(repos, r.domain);
    forall i | 0 <= i < |g'| ensures g'[i].1 == OnDomain(repos + [r], g'[i].0) {
      OnDomainSnoc(repos, r, g'[i].0);
      if i < |g| {
        assert g'[i] == g[i] && g[i].0 != r.domain;
      }
    }
  }

  lemma AddToGroup(g: Groups, repos: seq<Repository>, r: Repository)
    requires forall i :: 0 <= i < |g| ==> g[i].1 == OnDomain(repos, g[i].0)
    requires FindKey(g, r.domain) < |g|
    requires Keys(g) == Distinct(Domains(repos))
    ensures forall i :: 0 <= i < |AddRepo(g, r)| ==> AddRepo(g, r)[i].1 == OnDomain(repos + [r], AddRepo(g, r)[i].0)
  {
    var g' := AddRepo(g, r);
    var k := FindKey(g, r.domain);
    forall i | 0 <= i < |g'| ensures g'[i].1 == OnDomain(repos + [r], g'[i].0) {
      OnDomainSnoc(repos, r, g'[i].0);
      if i != k {
        assert Keys(g)[i] != Keys(g)[k];
        assert g'[i] == g[i] && g[i].0 != r.domain;
      }
    }
  }

  lemma ParsedUrlsStep(urls: seq<string>, i: nat)
    requires i < |urls|
    ensures ParsedUrls(urls[..i + 1]) == ParsedUrls(urls[..i])
      + match ParseRepoUrl(urls[i]) case Some(r) => [r] case None => []
  {
    assert urls[..i + 1][..i] == urls[..i];
  }

  lemma GroupByDomainSnoc(repos: seq<Repository>, r: Repository)
    ensures GroupByDomain(repos + [r]) == AddRepo(GroupByDomain(repos), r)
  {
    assert (repos + [r])[..|repos|] == repos;
  }

  /** `repos_by_domain`, filling the dict one URL at a time. */
  method ReposByDomain(urls: seq<string>) returns (groups: Groups)
    ensures groups == GroupByDomain(ParsedUrls(urls))
  {
    groups := [];
    for i := 0 to |urls|
      invariant groups == GroupByDomain(ParsedUrls(urls[..i]))
    {
      ParsedUrlsStep(urls, i);
      var repo := ParseRepoUrl(urls[i]);
      if repo.Some? {
        GroupByDomainSnoc(ParsedUrls(urls[..i]), repo.value);
        var k := FindKey(groups, repo.value.domain);
        if k == |groups| {
          groups := groups + [(repo.value.domain, [repo.value])];
        } else {
          groups := groups[k := (repo.value.domain, groups[k].1 + [repo.value])];
        }
      } else {
        assert ParsedUrls(urls[..i + 1]) == ParsedUrls(urls[..i]);
      }
    }
    assert urls[..|urls|] == urls;
  }

  // ---------------------------------------------------------------------
  // The endpoint of fetch_pull_requests_from_domain

  /** GitHub itself for a domain with a single dot, an Enterprise server otherwise. */
  function Endpoint(domain: string): (e: string)
    ensures Count(domain, '.') == 1 ==> e == "https://api." + domain + "/graphql"
    ensures Count(domain, '.') != 1 ==> e == "https://" + domain + "/api/graphql"
  {
    if Count(domain, '.') == 1 then "https://api." + domain + "/graphql"
    else "https://" + domain + "/api/graphql"
  }

  lemma CountAfter(a: string, c: char, b: string)
    requires c !in a
    ensures Count(a + [c] + b, c) == 1 + Count(b, c)
  {
    CountConcat(a, [c] + b, c);
    assert a + [c] + b == a + ([c] + b);
    assert ([c] + b)[1..] == b;
  }

  lemma PublicDots()
    ensures Count("github.com", '.') == 1
  {
    CountAfter("github", '.', "com");
    assert "github" + ['.'] + "com" == "github.com";
  }

  // String-literal steps, stated on their own so that the lemmas using them stay cheap.
  lemma EnterpriseDomainParts()
    ensures "github" + ['.'] + ("example" + ['.'] + "com") == "github.example.com"
  {
  }

  lemma PublicEndpointText()
    ensures "https://api." + "github.com" + "/graphql" == "https://api.github.com/graphql"
  {
  }

  lemma EnterpriseEndpointText()
    ensures "https://" + "github.example.com" + "/api/graphql" == "https://github.example.com/api/graphql"
  {
  }

  lemma ClashEndpointText()
    ensures "https://api." + "x.y/api" + "/graphql" == "https://" + "api.x.y" + "/api/graphql"
  {
  }

  lemma EnterpriseDots()
    ensures Count("github.example.com", '.') == 2
  {
    CountAfter("example", '.', "com");
    CountAfter("github", '.', "example" + ['.'] + "com");
    EnterpriseDomainParts();
  }

  /** The public and the Enterprise endpoint the tests expect. */
  lemma EndpointExamples()
    ensures Endpoint("github.com") == "https://api.github.com/graphql"
    ensures Endpoint("github.example.com") == "https://github.example.com/api/graphql"
  {
    PublicDots();
    EnterpriseDots();
    PublicEndpointText();
    EnterpriseEndpointText();
  }

  /** The domain an endpoint serves: the inverse of `Endpoint` on domains without `/`. */
  function EndpointDomain(e: string): Option<string> {
    if |e| >= 20 && StartsWith(e, "https://") && EndsWith(e, "/api/graphql") && '/' !in e[8..|e| - 12] then
      Some(e[8..|e| - 12])
    else if |e| >= 20 && StartsWith(e, "https://api.") && EndsWith(e, "/graphql") then
      Some(e[12..|e| - 8])
    else None
  }

  lemma PublicEndpointDomain(d: string)
    requires '/' !in d
    ensures EndpointDomain("https://api." + d + "/graphql") == Some(d)
  {
    var e := "https://api." + d + "/graphql";
    var k := |e| - 12;
    assert e[k] == ("api." + d)[|d|];
    assert e[k] != '/';
    assert e[..12] == "https://api.";
    assert e[|e| - 8..] == "/graphql";
    assert e[12..|e| - 8] == d;
  }

  lemma EnterpriseEndpointDomain(d: string)
    requires '/' !in d
    ensures EndpointDomain("https://" + d + "/api/graphql") == Some(d)
  {
    var e := "https://" + d + "/api/graphql";
    assert e[..8] == "https://";
    assert e[|e| - 12..] == "/api/graphql";
    assert e[8..|e| - 12] == d;
  }

  /**
   * Every domain without `/`, as HTTPS-parsed domains are, is recovered from its endpoint.
   * An SSH-parsed domain may contain `/`; `SshDomainEndpointClash` shows what then goes wrong.
   */
  lemma EndpointRoundTrip(d: string)
    requires '/' !in d
    ensures EndpointDomain(Endpoint(d)) == Some(d)
  {
    if Count(d, '.') == 1 {
      PublicEndpointDomain(d);
    } else {
      EnterpriseEndpointDomain(d);
    }
  }

  /** So different domains are served by different endpoints. */
  lemma EndpointInjective(d1: string, d2: string)
    requires '/' !in d1 && '/' !in d2
    requires Endpoint(d1) == Endpoint(d2)
    ensures d1 == d2
  {
    EndpointRoundTrip(d1);
    EndpointRoundTrip(d2);
  }

  /**
   * The SSH pattern's domain group `[^:]*` accepts `/`, and such a domain can share its
   * endpoint with another: `x.y/api` (one dot) and `api.x.y` (two dots) both give
   * `https://api.x.y/api/graphql`.
   */
  lemma SshDomainEndpointClash()
    ensures ParseRepoUrl("git@x.y/api:o/n.git") == Some(Repository("x.y/api", "o", "n"))
    ensures Endpoint("x.y/api") == Endpoint("api.x.y")
    ensures "x.y/api" != "api.x.y"
  {
    SlashDomainParses();
    SlashDomainDots();
    ClashDomainDots();
    ClashEndpointText();
  }

  lemma SlashDomainParses()
    ensures ParseRepoUrl("git@x.y/api:o/n.git") == Some(Repository("x.y/api", "o", "n"))
  {
    SlashDomainUrl();
    ParseSshUrl(Repository("x.y/api", "o", "n"), false);
  }

  lemma SlashDomainUrl()
    ensures SshUrl(Repository("x.y/api", "o", "n")) + Newline(false) == "git@x.y/api:o/n.git"
  {
    assert "git@" + "x.y/api" + [':'] + "o" == "git@x.y/api:o";
    assert "git@x.y/api:o" + "/" + "n" + ".git" == "git@x.y/api:o/n.git";
  }

  lemma SlashDomainDots()
    ensures Count("x.y/api", '.') == 1
  {
    CountAfter("x", '.', "y/api");
    assert "x" + ['.'] + "y/api" == "x.y/api";
  }

  lemma ClashDomainDots()
    ensures Count("api.x.y", '.') == 2
  {
    CountAfter("x", '.', "y");
    CountAfter("api", '.', "x" + ['.'] + "y");
    assert "api" + ['.'] + ("x" + ['.'] + "y") == "api.x.y";
  }

  // ---------------------------------------------------------------------
  // The records of fetch_pull_requests_from_domain

  datatype HeadRepository = HeadRepository(sshUrl: Option<string>, url: Option<string>)

  datatype MergeCommit = MergeCommit(oid: Option<string>)

  /**
   * One node of `pullRequests.nodes`. A missing or null `headRepository` or
   * `mergeCommit` is `None`; `commitOids` lists the `commit.oid` of each of
   * `commits.nodes`.
   */
  datatype PrNode = PrNode(
    headRefName: string,
    headRepository: Option<HeadRepository>,
    commitOids: seq<string>,
    mergeCommit: Option<MergeCommit>)

  /** A GraphQL response: its `errors`, and the PR nodes of each repository in `data`, in order. */
  datatype Response = Response(errors: seq<string>, data: seq<seq<PrNode>>)

  /** The non-None values among `sshUrl` and `url`, none when there is no head repository. */
  function RepoUrls(h: Option<HeadRepository>): (urls: set<string>)
    ensures forall u :: u in urls <==> h.Some? && (h.value.sshUrl == Some(u) || h.value.url == Some(u))
  {
    match h
    case None => {}
    case Some(repo) =>
      (if repo.sshUrl.Some? then {repo.sshUrl.value} else {})
        + (if repo.url.Some? then {repo.url.value} else {})
  }

  /** `(pr_data.get("mergeCommit") or {}).get("oid")` */
  function MergedHash(m: Option<MergeCommit>): Option<string> {
    match m
    case None => None
    case Some(c) => c.oid
  }

  /** The record yielded for one node: none when the node lists no commit. */
  function Record(node: PrNode): (r: Option<PullRequest>)
    ensures r.Some? <==> node.commitOids != []
  {
    if node.commitOids == [] then None
    else Some(PullRequest(node.headRefName, RepoUrls(node.headRepository), node.commitOids[0], MergedHash(node.mergeCommit)))
  }

  /** The records of one repository's nodes, in response order. */
  function Records(nodes: seq<PrNode>): seq<PullRequest> {
    if nodes == [] then []
    else
      Records(nodes[..|nodes| - 1])
        + match Record(nodes[|nodes| - 1]) case Some(pr) => [pr] case None => []
  }

  /** The records of every repository in `data`, repository after repository. */
  function AllRecords(data: seq<seq<PrNode>>): seq<PullRequest> {
    if data == [] then [] else AllRecords(data[..|data| - 1]) + Records(data[|data| - 1])
  }

  /** What the generator yields, or None when the assertion on `errors` fails first. */
  function PullRequestsOf(response: Response): (prs: Option<seq<PullRequest>>)
    ensures prs.None? <==> response.errors != []
  {
    if response.errors != [] then None else Some(AllRecords(response.data))
  }

  lemma {:induction false} RecordsConcat(xs: seq<PrNode>, ys: seq<PrNode>)
    ensures Records(xs + ys) == Records(xs) + Records(ys)
  {
    if ys == [] {
      assert xs + ys == xs;
    } else {
      assert (xs + ys)[..|xs + ys| - 1] == xs + ys[..|ys| - 1];
      RecordsConcat(xs, ys[..|ys| - 1]);
    }
  }

  /**
   * The record a node yields: its branch is the head ref, its hash the first
   * commit's oid, its URLs those of the head repository and its merged hash
   * the merge commit's oid.
   */
  predicate Yields(node: PrNode, pr: PullRequest) {
    && node.commitOids != []
    && pr.branchName == node.headRefName
    && pr.repoUrls == RepoUrls(node.headRepository)
    && pr.branchHash == node.commitOids[0]
    && pr.mergedHash == MergedHash(node.mergeCommit)
  }

  /** A record is in the result exactly when some node with a commit yields it. */
  lemma {:induction false} RecordsMember(nodes: seq<PrNode>, pr: PullRequest)
    ensures pr in Records(nodes) <==> exists i :: 0 <= i < |nodes| && Yields(nodes[i], pr)
  {
    if nodes != [] {
      var init, last := nodes[..|nodes| - 1], nodes[|nodes| - 1];
      RecordsMember(init, pr);
      assert Record(last) == Some(pr) <==> Yields(last, pr);
      assert forall i :: 0 <= i < |init| ==> init[i] == nodes[i];
      if exists i :: 0 <= i < |nodes| && Yields(nodes[i], pr) {
        var i :| 0 <= i < |nodes| && Yields(nodes[i], pr);
        assert i < |init| || nodes[i] == last;
      }
    }
  }

  /** Nodes without commits yield nothing, and nodes that all have commits yield one record each. */
  lemma {:induction false} RecordsCount(nodes: seq<PrNode>)
    ensures (forall i :: 0 <= i < |nodes| ==> nodes[i].commitOids == []) ==> Records(nodes) == []
    ensures (forall i :: 0 <= i < |nodes| ==> nodes[i].commitOids != []) ==> |Records(nodes)| == |nodes|
  {
    if nodes != [] {
      var init := nodes[..|nodes| - 1];
      RecordsCount(init);
      assert forall i :: 0 <= i < |init| ==> init[i] == nodes[i];
    }
  }

  /** The records come repository by repository. */
  lemma {:induction false} AllRecordsConcat(xs: seq<seq<PrNode>>, ys: seq<seq<PrNode>>)
    ensures AllRecords(xs + ys) == AllRecords(xs) + AllRecords(ys)
  {
    if ys == [] {
      assert xs + ys == xs;
    } else {
      assert (xs + ys)[..|xs + ys| - 1] == xs + ys[..|ys| - 1];
      AllRecordsConcat(xs, ys[..|ys| - 1]);
    }
  }

  /** The nested loop of `fetch_pull_requests_from_domain` that yields the records. */
  method YieldPullRequests(response: Response) returns (prs: Option<seq<PullRequest>>)
    ensures prs == PullRequestsOf(response)
  {
    if response.errors != [] {
      return None;
    }
    var out: seq<PullRequest> := [];
    for i := 0 to |response.data|
      invariant out == AllRecords(response.data[..i])
    {
      assert response.data[..i + 1][..i] == response.data[..i];
      var nodes := response.data[i];
      for j := 0 to |nodes|
        invariant out == AllRecords(response.data[..i]) + Records(nodes[..j])
      {
        assert nodes[..j + 1][..j] == nodes[..j];
        var node := nodes[j];
        if node.commitOids != [] {
          var urls := RepoUrls(node.headRepository);
          out := out + [PullRequest(node.headRefName, urls, node.commitOids[0], MergedHash(node.mergeCommit))];
        }
      }
      assert nodes[..|nodes|] == nodes;
    }
    assert response.data[..|response.data|] == response.data;
    return Some(out);
  }

  // ---------------------------------------------------------------------
  // fetch_pull_requests

  /** The token lookup returns something truthy for this domain. */
  predicate Tokened(tokens: string -> Option<string>, domain: string) {
    tokens(domain).Some? && tokens(domain).value != ""
  }

  /** Inner `fetch`: no token gives no PRs, otherwise the PRs the domain's server returns. */
  function FetchDomain(tokens: string -> Option<string>, server: (string, string, seq<Repository>) -> Response,
                       group: (string, seq<Repository>)): Option<seq<PullRequest>>
  {
    if !Tokened(tokens, group.0) then Some([])
    else PullRequestsOf(server(Endpoint(group.0), tokens(group.0).value, group.1))
  }

  /** The per-domain lists, concatenated in key order; any failing domain fails the whole gather. */
  function FetchGroups(tokens: string -> Option<string>, server: (string, string, seq<Repository>) -> Response,
                       groups: Groups): Option<seq<PullRequest>>
  {
    if groups == [] then Some([])
    else
      match FetchGroups(tokens, server, groups[..|groups| - 1])
      case None => None
      case Some(prs) =>
        match FetchDomain(tokens, server, groups[|groups| - 1])
        case None => None
        case Some(more) => Some(prs + more)
  }

  /**
   * `fetch_pull_requests` with the GraphQL server as a parameter; None
   * stands for the assertion error that a response with errors raises.
   */
  function FetchPullRequests(tokens: string -> Option<string>, server: (string, string, seq<Repository>) -> Response,
                             urls: seq<string>): Option<seq<PullRequest>>
  {
    FetchGroups(tokens, server, GroupByDomain(ParsedUrls(urls)))
  }

  /** The domain's response reports errors, so its fetch raises. */
  predicate Fails(tokens: string -> Option<string>, server: (string, string, seq<Repository>) -> Response,
                  group: (string, seq<Repository>))
  {
    Tokened(tokens, group.0) && server(Endpoint(group.0), tokens(group.0).value, group.1).errors != []
  }

  /** The `i`-th domain has a token and its server returned `pr`. */
  predicate Contributes(tokens: string -> Option<string>, server: (string, string, seq<Repository>) -> Response,
                        groups: Groups, i: int, pr: PullRequest)
  {
    && 0 <= i < |groups|
    && Tokened(tokens, groups[i].0)
    && pr in AllRecords(server(Endpoint(groups[i].0), tokens(groups[i].0).value, groups[i].1).data)
  }

  /**
   * The whole fetch fails exactly when some domain with a token gets a
   * response with errors; otherwise a PR is in the result exactly when the
   * server of a domain with a token returned it, and domains without a token
   * contribute nothing.
   */
  lemma FetchGroupsSpec(tokens: string -> Option<string>,
                        server: (string, string, seq<Repository>) -> Response, groups: Groups)
    ensures FetchGroups(tokens, server, groups).None? <==> exists i :: 0 <= i < |groups| && Fails(tokens, server, groups[i])
    ensures FetchGroups(tokens, server, groups).Some? ==> forall pr ::
      pr in FetchGroups(tokens, server, groups).value <==> exists i :: Contributes(tokens, server, groups, i, pr)
  {
    FetchGroupsFail(tokens, server, groups);
    if FetchGroups(tokens, server, groups).Some? {
      FetchGroupsMembers(tokens, server, groups);
    }
  }

  lemma {:induction false} FetchGroupsFail(tokens: string -> Option<string>,
                                           server: (string, string, seq<Repository>) -> Response, groups: Groups)
    ensures FetchGroups(tokens, server, groups).None? <==> exists i :: 0 <= i < |groups| && Fails(tokens, server, groups[i])
  {
    if groups != [] {
      var n := |groups| - 1;
      var init := groups[..n];
      FetchGroupsFail(tokens, server, init);
      assert forall i :: 0 <= i < n ==> init[i] == groups[i];
      assert FetchDomain(tokens, server, groups[n]).None? <==> Fails(tokens, server, groups[n]);
      if exists i :: 0 <= i < |groups| && Fails(tokens, server, groups[i]) {
        var i :| 0 <= i < |groups| && Fails(tokens, server, groups[i]);
        if i < n {
          assert Fails(tokens, server, init[i]);
        }
      }
    }
  }

  lemma {:induction false} FetchGroupsMembers(tokens: string -> Option<string>,
                                              server: (string, string, seq<Repository>) -> Response, groups: Groups)
    requires FetchGroups(tokens, server, groups).Some?
    ensures forall pr ::
      pr in FetchGroups(tokens, server, groups).value <==> exists i :: Contributes(tokens, server, groups, i, pr)
  {
    if groups != [] {
      var n := |groups| - 1;
      var init, last := groups[..n], groups[n];
      var prs := FetchGroups(tokens, server, init).value;
      FetchGroupsMembers(tokens, server, init);
      var more := FetchDomain(tokens, server, last).value;
      assert FetchGroups(tokens, server, groups).value == prs + more;
      ContributesInit(tokens, server, groups);
      forall pr
        ensures pr in more <==> Contributes(tokens, server, groups, n, pr)
      {
      }
      forall pr | exists i :: Contributes(tokens, server, groups, i, pr)
        ensures pr in prs + more
      {
        var i :| Contributes(tokens, server, groups, i, pr);
        if i < n {
          assert Contributes(tokens, server, init, i, pr);
        }
      }
    }
  }

  /** The domains before the last contribute the same with or without it. */
  lemma ContributesInit(tokens: string -> Option<string>,
                        server: (string, string, seq<Repository>) -> Response, groups: Groups)
    requires groups != []
    ensures var n := |groups| - 1; forall i, pr :: 0 <= i < n ==>
      (Contributes(tokens, server, groups[..n], i, pr) <==> Contributes(tokens, server, groups, i, pr))
  {
    var n := |groups| - 1;
    assert forall i :: 0 <= i < n ==> groups[..n][i] == groups[i];
  }

  /** With no token for any domain, nothing is fetched and no server is asked. */
  lemma {:induction false} NoTokensNoPullRequests(tokens: string -> Option<string>,
                                                  server: (string, string, seq<Repository>) -> Response, groups: Groups)
    requires forall i :: 0 <= i < |groups| ==> !Tokened(tokens, groups[i].0)
    ensures FetchGroups(tokens, server, groups) == Some([])
  {
    if groups != [] {
      var init := groups[..|groups| - 1];
      assert forall i :: 0 <= i < |init| ==> init[i] == groups[i];
      NoTokensNoPullRequests(tokens, server, init);
      assert !Tokened(tokens, groups[|groups| - 1].0);
      assert FetchDomain(tokens, server, groups[|groups| - 1]) == Some([]);
      assert FetchGroups(tokens, server, init).value + [] == [];
    }
  }}
