/**
 * The read-only queries of git_sync/git.py: what each one makes of the
 * text git prints. git is not run here; each query is a function of the
 * captured standard output, and the lemmas say what the query returns when
 * git prints the listing it is asked for.
 */
module GitOutput {

  import opened Wrappers
  import opened Text

  /** The 11 characters that `ref[11:]` and `name[11:]` drop. */
  const HeadsPrefix: string := "refs/heads/"
  const RemotesPrefix: string := "refs/remotes/"

  /** A local branch (full ref name) with a remote upstream, as the upstream stage sees it. */
  datatype Branch = Branch(name: string, upstream: string, isCurrent: bool)

  datatype Remote = Remote(name: string, url: string)

  /** What `git_output` returns for the bytes git printed: trailing "\r" and "\n" removed. */
  function Captured(stdout: string): string {
    RStripBreaks(stdout)
  }

  /** `get_current_branch`: the output of `git symbolic-ref -q HEAD`, or None when it is empty. */
  function CurrentBranch(stdout: string): (r: Option<string>)
    ensures r.None? <==> Captured(stdout) == ""
    ensures r.Some? ==> r.value == Captured(stdout)
  {
    var raw := Captured(stdout);
    if raw == "" then None else Some(raw)
  }

  lemma WordLine(s: string)
    requires Word(s)
    ensures NoLineBreak(s) && ' ' !in s
  {
    assert forall i :: 0 <= i < |s| ==> !IsSpace(s[i]);
  }

  // ---------------------------------------------------------------------
  // get_branch_hashes

  /** One line `refname hash`: the key drops the first 11 characters. */
  function HashEntry(line: string): Option<(string, string)> {
    match SplitPair(line)
    case None => None
    case Some((ref, hash)) => if IsAscii(hash) then Some((Drop(ref, 11), hash)) else None
  }

  /** The dict comprehension of `get_branch_hashes`: a later line for the same key wins. */
  function HashEntries(lines: seq<string>): Option<map<string, string>>
    decreases |lines|
  {
    if lines == [] then Some(map[])
    else
      match HashEntries(lines[..|lines| - 1])
      case None => None
      case Some(m) =>
        match HashEntry(lines[|lines| - 1])
        case None => None
        case Some((k, v)) => Some(m[k := v])
  }

  /** `get_branch_hashes` on the output of `for-each-ref --format=%(refname) %(objectname) refs/heads`. */
  function BranchHashes(stdout: string): Option<map<string, string>> {
    HashEntries(SplitLines(Captured(stdout)))
  }

  /** The parse fails exactly when some line is not `ref hash` with an ASCII hash. */
  lemma {:induction false} HashEntriesFail(lines: seq<string>)
    ensures HashEntries(lines).Some? <==> forall i :: 0 <= i < |lines| ==> HashEntry(lines[i]).Some?
  {
    if lines != [] {
      var init := lines[..|lines| - 1];
      HashEntriesFail(init);
      assert forall i :: 0 <= i < |init| ==> init[i] == lines[i];
    }
  }

  /** A branch whose ref and hash are git words: no whitespace in either. */
  predicate HashRowOk(row: (string, string)) {
    Word(row.0) && Word(row.1) && IsAscii(row.1)
  }

  /** The line `for-each-ref` prints for branch `row.0` at commit `row.1`. */
  function HashLine(row: (string, string)): string {
    HeadsPrefix + row.0 + " " + row.1
  }

  function HashLines(rows: seq<(string, string)>): (lines: seq<string>)
    ensures |lines| == |rows|
    ensures forall i :: 0 <= i < |rows| ==> lines[i] == HashLine(rows[i])
  {
    if rows == [] then [] else [HashLine(rows[0])] + HashLines(rows[1..])
  }

  /** The last row for each name gives its value, as when a dict is filled in order. */
  function MapOfRows(rows: seq<(string, string)>): map<string, string> {
    if rows == [] then map[]
    else MapOfRows(rows[..|rows| - 1])[rows[|rows| - 1].0 := rows[|rows| - 1].1]
  }

  /** The names the rows list. */
  function RowNames(rows: seq<(string, string)>): set<string> {
    set i | 0 <= i < |rows| :: rows[i].0
  }

  lemma RowNamesMember(rows: seq<(string, string)>, b: string)
    ensures b in RowNames(rows) <==> exists i :: 0 <= i < |rows| && rows[i].0 == b
  {
    if b in RowNames(rows) {
      var i :| 0 <= i < |rows| && rows[i].0 == b;
    }
  }

  /** Filling a dict in order: its keys are the listed names, and each name holds its last value. */
  lemma MapOfRowsSpec(rows: seq<(string, string)>)
    ensures MapOfRows(rows).Keys == RowNames(rows)
    ensures forall i :: 0 <= i < |rows| && (forall j :: i < j < |rows| ==> rows[j].0 != rows[i].0) ==>
      MapOfRows(rows)[rows[i].0] == rows[i].1
  {
    MapOfRowsKeys(rows);
    forall i | 0 <= i < |rows| && (forall j :: i < j < |rows| ==> rows[j].0 != rows[i].0)
      ensures MapOfRows(rows)[rows[i].0] == rows[i].1
    {
      MapOfRowsLast(rows, i);
    }
  }

  lemma {:induction false} MapOfRowsKeys(rows: seq<(string, string)>)
    ensures MapOfRows(rows).Keys == RowNames(rows)
  {
    if rows != [] {
      var init := rows[..|rows| - 1];
      MapOfRowsKeys(init);
      forall b ensures b in RowNames(rows) <==> b in RowNames(init) || b == rows[|rows| - 1].0 {
        RowNamesMember(rows, b);
        RowNamesMember(init, b);
        assert forall i :: 0 <= i < |init| ==> init[i] == rows[i];
      }
    }
  }

  lemma {:induction false} MapOfRowsLast(rows: seq<(string, string)>, i: nat)
    requires i < |rows|
    requires forall j :: i < j < |rows| ==> rows[j].0 != rows[i].0
    ensures rows[i].0 in MapOfRows(rows) && MapOfRows(rows)[rows[i].0] == rows[i].1
  {
    var n := |rows| - 1;
    if i < n {
      var init := rows[..n];
      assert init[i] == rows[i];
      assert forall j :: i < j < |init| ==> init[j] == rows[j];
      MapOfRowsLast(init, i);
    }
  }

  lemma HashLineEntry(row: (string, string))
    requires HashRowOk(row)
    ensures NoLineBreak(HashLine(row)) && HashLine(row) != ""
    ensures HashEntry(HashLine(row)) == Some(row)
  {
    WordLine(row.0);
    WordLine(row.1);
    assert ' ' !in HeadsPrefix + row.0;
    SplitPairOf(HeadsPrefix + row.0, row.1);
    DropAfterPrefix(HeadsPrefix, row.0);
    assert NoLineBreak(HeadsPrefix + row.0 + " " + row.1);
  }

  lemma {:induction false} HashEntriesOfRows(rows: seq<(string, string)>)
    requires forall i :: 0 <= i < |rows| ==> HashRowOk(rows[i])
    ensures HashEntries(HashLines(rows)) == Some(MapOfRows(rows))
  {
    if rows != [] {
      var init := rows[..|rows| - 1];
      var lines := HashLines(rows);
      assert lines[..|lines| - 1] == HashLines(init);
      HashEntriesOfRows(init);
      HashLineEntry(rows[|rows| - 1]);
    }
  }

  /**
   * `get_branch_hashes` maps every listed branch to its hash: one key per
   * branch, the ref name without `refs/heads/`, its value the hash.
   */
  lemma BranchHashesOfListing(rows: seq<(string, string)>)
    requires forall i :: 0 <= i < |rows| ==> HashRowOk(rows[i])
    ensures var r := BranchHashes(Listing(HashLines(rows)));
      && r.Some?
      && r.value.Keys == RowNames(rows)
      && forall i :: 0 <= i < |rows| && (forall j :: i < j < |rows| ==> rows[j].0 != rows[i].0) ==>
           r.value[rows[i].0] == rows[i].1
  {
    var lines := HashLines(rows);
    forall i | 0 <= i < |rows| ensures NoLineBreak(lines[i]) && lines[i] != "" {
      HashLineEntry(rows[i]);
    }
    SplitFilledListing(lines);
    HashEntriesOfRows(rows);
    MapOfRowsSpec(rows);
  }

  /** With each branch listed once, every listed branch maps to its own hash. */
  lemma BranchHashesOfDistinct(rows: seq<(string, string)>)
    requires forall i :: 0 <= i < |rows| ==> HashRowOk(rows[i])
    requires forall i, j :: 0 <= i < j < |rows| ==> rows[i].0 != rows[j].0
    ensures var r := BranchHashes(Listing(HashLines(rows)));
      && r.Some?
      && r.value.Keys == RowNames(rows)
      && forall i :: 0 <= i < |rows| ==> r.value[rows[i].0] == rows[i].1
  {
    BranchHashesOfListing(rows);
    forall i | 0 <= i < |rows| ensures forall j :: i < j < |rows| ==> rows[j].0 != rows[i].0 {
    }
  }

  // ---------------------------------------------------------------------
  // get_branches_with_remote_upstreams

  /** One line `refname upstream`: kept when the upstream is a remote-tracking ref. */
  function UpstreamEntry(line: string, current: Option<string>): Option<seq<Branch>> {
    match SplitPair(line)
    case None => None
    case Some((name, upstream)) =>
      Some(if StartsWith(upstream, RemotesPrefix) then [Branch(name, upstream, current == Some(name))] else [])
  }

  function UpstreamEntries(lines: seq<string>, current: Option<string>): Option<seq<Branch>>
    decreases |lines|
  {
    if lines == [] then Some([])
    else
      match UpstreamEntries(lines[..|lines| - 1], current)
      case None => None
      case Some(bs) =>
        match UpstreamEntry(lines[|lines| - 1], current)
        case None => None
        case Some(b) => Some(bs + b)
  }

  /**
   * `get_branches_with_remote_upstreams`, given the output of `symbolic-ref -q HEAD`
   * and of `for-each-ref --format=%(refname) %(upstream) refs/heads`.
   */
  function BranchesWithRemoteUpstreams(headStdout: string, refsStdout: string): Option<seq<Branch>> {
    UpstreamEntries(SplitLines(Captured(refsStdout)), CurrentBranch(headStdout))
  }

  /** The line `for-each-ref` prints for branch ref `row.0` with upstream `row.1` ("" for none). */
  function UpstreamLine(row: (string, string)): string {
    row.0 + " " + row.1
  }

  function UpstreamLines(rows: seq<(string, string)>): (lines: seq<string>)
    ensures |lines| == |rows|
    ensures forall i :: 0 <= i < |rows| ==> lines[i] == UpstreamLine(rows[i])
  {
    if rows == [] then [] else [UpstreamLine(rows[0])] + UpstreamLines(rows[1..])
  }

  /** The branches of `rows` whose upstream is under `refs/remotes/`, in order. */
  function RemoteTracked(rows: seq<(string, string)>, current: Option<string>): seq<Branch> {
    if rows == [] then []
    else
      var row := rows[|rows| - 1];
      RemoteTracked(rows[..|rows| - 1], current)
        + (if StartsWith(row.1, RemotesPrefix) then [Branch(row.0, row.1, current == Some(row.0))] else [])
  }

  lemma {:induction false} UpstreamEntriesOfRows(rows: seq<(string, string)>, current: Option<string>)
    requires forall i :: 0 <= i < |rows| ==> Word(rows[i].0) && Word(rows[i].1)
    ensures UpstreamEntries(UpstreamLines(rows), current) == Some(RemoteTracked(rows, current))
  {
    if rows != [] {
      var init, row := rows[..|rows| - 1], rows[|rows| - 1];
      var lines := UpstreamLines(rows);
      assert lines[..|lines| - 1] == UpstreamLines(init);
      UpstreamEntriesOfRows(init, current);
      WordLine(row.0);
      WordLine(row.1);
      SplitPairOf(row.0, row.1);
    }
  }

  /** A branch is kept exactly when its upstream is remote-tracking, and it is current exactly when it is HEAD. */
  lemma {:induction false} RemoteTrackedMember(rows: seq<(string, string)>, current: Option<string>, b: Branch)
    ensures b in RemoteTracked(rows, current) <==>
      && StartsWith(b.upstream, RemotesPrefix)
      && b.isCurrent == (current == Some(b.name))
      && exists i :: 0 <= i < |rows| && rows[i] == (b.name, b.upstream)
  {
    if rows != [] {
      var n := |rows| - 1;
      var init, row := rows[..n], rows[n];
      RemoteTrackedMember(init, current, b);
      assert b in RemoteTracked(rows, current) <==>
        b in RemoteTracked(init, current) ||
        (StartsWith(row.1, RemotesPrefix) && b == Branch(row.0, row.1, current == Some(row.0)));
      InitLast(rows);
      ElementOfSnoc(rows, init, row, (b.name, b.upstream));
    }
  }

  /** The filter keeps the input order: it distributes over concatenation. */
  lemma {:induction false} RemoteTrackedConcat(xs: seq<(string, string)>, ys: seq<(string, string)>, current: Option<string>)
    ensures RemoteTracked(xs + ys, current) == RemoteTracked(xs, current) + RemoteTracked(ys, current)
  {
    if ys == [] {
      assert xs + ys == xs;
    } else {
      var init := ys[..|ys| - 1];
      assert (xs + ys)[..|xs + ys| - 1] == xs + init;
      RemoteTrackedConcat(xs, init, current);
    }
  }

  lemma UpstreamLineOk(row: (string, string))
    requires Word(row.0) && Word(row.1)
    ensures NoLineBreak(UpstreamLine(row)) && UpstreamLine(row) != ""
  {
    WordLine(row.0);
    WordLine(row.1);
    assert NoLineBreak(row.0 + " " + row.1);
  }

  /** For the listing git prints, the parse is exactly the remote-tracked filter. */
  lemma BranchesOfListing(headStdout: string, rows: seq<(string, string)>)
    requires forall i :: 0 <= i < |rows| ==> Word(rows[i].0) && Word(rows[i].1)
    ensures BranchesWithRemoteUpstreams(headStdout, Listing(UpstreamLines(rows)))
      == Some(RemoteTracked(rows, CurrentBranch(headStdout)))
  {
    var lines := UpstreamLines(rows);
    forall i | 0 <= i < |rows| ensures NoLineBreak(lines[i]) && lines[i] != "" {
      UpstreamLineOk(rows[i]);
    }
    SplitFilledListing(lines);
    UpstreamEntriesOfRows(rows, CurrentBranch(headStdout));
  }

  // ---------------------------------------------------------------------
  // get_remotes

  /** One line `remote.<name>.url <url>`: the name is `key[7:-4]`. */
  function RemoteEntry(line: string): Option<Remote> {
    match SplitPair(line)
    case None => None
    case Some((key, url)) => if IsAscii(url) then Some(Remote(Slice(key, 7, 4), url)) else None
  }

  function RemoteEntries(lines: seq<string>): Option<seq<Remote>>
    decreases |lines|
  {
    if lines == [] then Some([])
    else
      match RemoteEntries(lines[..|lines| - 1])
      case None => None
      case Some(rs) =>
        match RemoteEntry(lines[|lines| - 1])
        case None => None
        case Some(r) => Some(rs + [r])
  }

  /** `get_remotes` on the output of `config --get-regexp remote\..*\.url`. */
  function Remotes(stdout: string): Option<seq<Remote>> {
    RemoteEntries(SplitLines(Captured(stdout)))
  }

  /** The line `git config --get-regexp` prints for a remote. */
  function RemoteLine(r: Remote): string {
    "remote." + r.name + ".url " + r.url
  }

  function RemoteLines(rs: seq<Remote>): (lines: seq<string>)
    ensures |lines| == |rs|
    ensures forall i :: 0 <= i < |rs| ==> lines[i] == RemoteLine(rs[i])
  {
    if rs == [] then [] else [RemoteLine(rs[0])] + RemoteLines(rs[1..])
  }

  predicate RemoteOk(r: Remote) {
    Word(r.name) && Word(r.url) && IsAscii(r.url)
  }

  lemma RemoteLineEntry(r: Remote)
    requires RemoteOk(r)
    ensures NoLineBreak(RemoteLine(r)) && RemoteLine(r) != ""
    ensures RemoteEntry(RemoteLine(r)) == Some(r)
  {
    WordLine(r.name);
    WordLine(r.url);
    var key := "remote." + r.name + ".url";
    assert ' ' !in key;
    assert RemoteLine(r) == key + " " + r.url;
    SplitPairOf(key, r.url);
    assert key[..7] == "remote." && key[|key| - 4..] == ".url";
    assert Slice(key, 7, 4) == r.name;
    assert NoLineBreak(key + " " + r.url);
  }

  lemma {:induction false} RemoteEntriesOfRemotes(rs: seq<Remote>)
    requires forall i :: 0 <= i < |rs| ==> RemoteOk(rs[i])
    ensures RemoteEntries(RemoteLines(rs)) == Some(rs)
  {
    if rs != [] {
      var init, last := rs[..|rs| - 1], rs[|rs| - 1];
      var lines := RemoteLines(rs);
      var initLines := RemoteLines(init);
      assert lines == initLines + [RemoteLine(last)];
      RemoteEntriesOfRemotes(init);
      RemoteLineEntry(last);
      RemoteEntriesSnoc(initLines, RemoteLine(last));
      InitLast(rs);
    }
  }

  lemma RemoteEntriesSnoc(lines: seq<string>, line: string)
    ensures var xs := lines + [line];
      RemoteEntries(xs) == match RemoteEntries(lines)
        case None => None
        case Some(rs) => if RemoteEntry(line).Some? then Some(rs + [RemoteEntry(line).value]) else None
  {
    var xs := lines + [line];
    assert xs[..|xs| - 1] == lines;
  }

  /** `get_remotes` returns every configured remote, name and URL, in the order git lists them. */
  lemma RemotesOfListing(rs: seq<Remote>)
    requires forall i :: 0 <= i < |rs| ==> RemoteOk(rs[i])
    ensures Remotes(Listing(RemoteLines(rs))) == Some(rs)
  {
    var lines := RemoteLines(rs);
    forall i | 0 <= i < |rs| ensures NoLineBreak(lines[i]) && lines[i] != "" {
      RemoteLineEntry(rs[i]);
    }
    SplitFilledListing(lines);
    RemoteEntriesOfRemotes(rs);
  }

  // ---------------------------------------------------------------------
  // get_remote_branches

  /** `get_remote_branches`: one ref name per line. */
  function RemoteBranches(stdout: string): seq<string> {
    SplitLines(Captured(stdout))
  }

  lemma RemoteBranchesOfListing(refs: seq<string>)
    requires forall i :: 0 <= i < |refs| ==> Word(refs[i]) && refs[i] != ""
    ensures RemoteBranches(Listing(refs)) == refs
  {
    forall i | 0 <= i < |refs| ensures NoLineBreak(refs[i]) {
      WordLine(refs[i]);
    }
    SplitFilledListing(refs);
  }

  // ---------------------------------------------------------------------
  // get_upstream_branch and branch_is_an_upstream

  /** `get_upstream_branch`: the upstream's short name when it is a local branch. */
  function UpstreamBranch(stdout: string): (r: Option<string>)
    ensures r.Some? <==> StartsWith(Captured(stdout), HeadsPrefix)
    ensures r.Some? ==> Captured(stdout) == HeadsPrefix + r.value
  {
    var upstream := Captured(stdout);
    if upstream != "" && StartsWith(upstream, HeadsPrefix) then Some(RemovePrefix(upstream, HeadsPrefix)) else None
  }

  /** For one listed branch, the answer depends only on its configured upstream. */
  lemma UpstreamBranchOfListing(upstream: string)
    requires NoLineBreak(upstream)
    ensures UpstreamBranch(Listing([upstream])) ==
      if StartsWith(upstream, HeadsPrefix) then Some(RemovePrefix(upstream, HeadsPrefix)) else None
  {
    CapturedListing([upstream]);
    assert [upstream][..LastFilled([upstream])] == if upstream == "" then [] else [upstream];
  }

  /** The set `branch_is_an_upstream` builds: every listed upstream without `refs/heads/`. */
  function UpstreamHeads(stdout: string): set<string> {
    StrippedNames(SplitLines(Strip(Captured(stdout))))
  }

  /** Each line with `refs/heads/` removed. */
  function StrippedNames(lines: seq<string>): set<string> {
    set i | 0 <= i < |lines| :: RemovePrefix(lines[i], HeadsPrefix)
  }

  /** `branch_is_an_upstream` on the output of `for-each-ref --format=%(upstream) refs/heads`. */
  predicate BranchIsAnUpstream(name: string, stdout: string) {
    name in UpstreamHeads(stdout)
  }

  lemma WordsHaveNoBreaks(lines: seq<string>)
    requires forall i :: 0 <= i < |lines| ==> Word(lines[i])
    ensures forall i :: 0 <= i < |lines| ==> NoLineBreak(lines[i])
  {
    forall i | 0 <= i < |lines| ensures NoLineBreak(lines[i]) {
      WordLine(lines[i]);
    }
  }

  lemma WordsPrefix(lines: seq<string>, k: nat)
    requires k <= |lines|
    requires forall i :: 0 <= i < |lines| ==> Word(lines[i])
    ensures forall i :: 0 <= i < k ==> Word(lines[..k][i])
  {
    forall i | 0 <= i < k ensures Word(lines[..k][i]) {
      assert lines[..k][i] == lines[i];
    }
  }

  lemma WordsSuffix(lines: seq<string>, j: nat)
    requires j <= |lines|
    requires forall i :: 0 <= i < |lines| ==> Word(lines[i])
    ensures forall i :: 0 <= i < |lines| - j ==> Word(lines[j..][i])
  {
    forall i | 0 <= i < |lines| - j ensures Word(lines[j..][i]) {
      assert lines[j..][i] == lines[j + i];
    }
  }

  /** The lines `branch_is_an_upstream` reads: the listing without its leading and trailing empty lines. */
  lemma UpstreamHeadsLines(upstreams: seq<string>)
    requires forall i :: 0 <= i < |upstreams| ==> Word(upstreams[i])
    ensures var k := LastFilled(upstreams); var j := FirstFilled(upstreams[..k]);
      SplitLines(Strip(Captured(Listing(upstreams)))) == upstreams[..k][j..]
  {
    CapturedWords(upstreams);
    StripWords(upstreams);
    SplitWords(upstreams);
  }

  /** Capturing a listing of words drops its trailing empty lines. */
  lemma CapturedWords(upstreams: seq<string>)
    requires forall i :: 0 <= i < |upstreams| ==> Word(upstreams[i])
    ensures Captured(Listing(upstreams)) == JoinLines(upstreams[..LastFilled(upstreams)])
  {
    WordsHaveNoBreaks(upstreams);
    CapturedListing(upstreams);
  }

  /** Stripping what was captured drops the leading empty lines. */
  lemma StripWords(upstreams: seq<string>)
    requires forall i :: 0 <= i < |upstreams| ==> Word(upstreams[i])
    ensures var ys := upstreams[..LastFilled(upstreams)];
      Strip(JoinLines(ys)) == JoinLines(ys[FirstFilled(ys)..])
  {
    FilledPrefixWords(upstreams);
    StripJoinLines(upstreams[..LastFilled(upstreams)]);
  }

  /** The listing up to its last non-empty line: words that end with a non-empty one. */
  lemma FilledPrefixWords(upstreams: seq<string>)
    requires forall i :: 0 <= i < |upstreams| ==> Word(upstreams[i])
    ensures var ys := upstreams[..LastFilled(upstreams)];
      (forall i :: 0 <= i < |ys| ==> Word(ys[i])) && (ys != [] ==> ys[|ys| - 1] != "")
  {
    var k := LastFilled(upstreams);
    WordsPrefix(upstreams, k);
    if k > 0 {
      assert upstreams[..k][k - 1] == upstreams[k - 1];
    }
  }

  /** The lines that remain are split back as they were. */
  lemma SplitWords(upstreams: seq<string>)
    requires forall i :: 0 <= i < |upstreams| ==> Word(upstreams[i])
    ensures var ys := upstreams[..LastFilled(upstreams)]; var zs := ys[FirstFilled(ys)..];
      SplitLines(JoinLines(zs)) == zs
  {
    KeptWords(upstreams);
    SplitJoinLines(upstreams[..LastFilled(upstreams)][FirstFilled(upstreams[..LastFilled(upstreams)])..]);
  }

  /** The lines that remain hold no line break, and the last of them is not empty. */
  lemma KeptWords(upstreams: seq<string>)
    requires forall i :: 0 <= i < |upstreams| ==> Word(upstreams[i])
    ensures var ys := upstreams[..LastFilled(upstreams)]; var zs := ys[FirstFilled(ys)..];
      (forall i :: 0 <= i < |zs| ==> NoLineBreak(zs[i])) && (zs != [] ==> zs[|zs| - 1] != "")
  {
    var ys := upstreams[..LastFilled(upstreams)];
    var zs := ys[FirstFilled(ys)..];
    WordsPrefix(upstreams, LastFilled(upstreams));
    WordsSuffix(ys, FirstFilled(ys));
    WordsHaveNoBreaks(zs);
    StrippedListingEnds(upstreams);
  }

  /** What survives of a listing after `strip()` ends with a non-empty line. */
  lemma StrippedListingEnds(lines: seq<string>)
    ensures var k := LastFilled(lines); var zs := lines[..k][FirstFilled(lines[..k])..];
      zs != [] ==> zs[|zs| - 1] != ""
  {
    var k := LastFilled(lines);
    var ys := lines[..k];
    var zs := ys[FirstFilled(ys)..];
    if zs != [] {
      assert zs[|zs| - 1] == ys[k - 1] == lines[k - 1];
    }
  }

  /** Membership in the set of stripped lines, for any list of lines. */
  lemma StrippedMember(lines: seq<string>, name: string)
    ensures name in StrippedNames(lines) <==> exists i :: 0 <= i < |lines| && RemovePrefix(lines[i], HeadsPrefix) == name
  {
    if name in StrippedNames(lines) {
      var i :| 0 <= i < |lines| && RemovePrefix(lines[i], HeadsPrefix) == name;
    }
  }

  /** Only empty lines lie outside the part of a listing that survives `strip()`. */
  lemma FilledLineKept(lines: seq<string>, i: nat)
    requires i < |lines| && lines[i] != ""
    ensures var k := LastFilled(lines); var j := FirstFilled(lines[..k]);
      j <= i < k && lines[..k][j..][i - j] == lines[i]
  {
    FilledBeforeLast(lines, i);
    var ys := lines[..LastFilled(lines)];
    assert ys[i] == lines[i];
    FilledAfterFirst(ys, i);
    assert ys[FirstFilled(ys)..][i - FirstFilled(ys)] == ys[i];
  }

  lemma FilledBeforeLast(lines: seq<string>, i: nat)
    requires i < |lines| && lines[i] != ""
    ensures i < LastFilled(lines)
  {
  }

  lemma FilledAfterFirst(lines: seq<string>, i: nat)
    requires i < |lines| && lines[i] != ""
    ensures FirstFilled(lines) <= i
  {
  }

  /** Dropping empty lines from either end changes no non-empty answer. */
  lemma FilledLinesMatch(lines: seq<string>, name: string)
    requires name != ""
    ensures var k := LastFilled(lines); var zs := lines[..k][FirstFilled(lines[..k])..];
      (exists i :: 0 <= i < |zs| && RemovePrefix(zs[i], HeadsPrefix) == name) <==>
      (exists i :: 0 <= i < |lines| && RemovePrefix(lines[i], HeadsPrefix) == name)
  {
    var k := LastFilled(lines);
    var j := FirstFilled(lines[..k]);
    var zs := lines[..k][j..];
    forall i | 0 <= i < |lines| && RemovePrefix(lines[i], HeadsPrefix) == name
      ensures exists i' :: 0 <= i' < |zs| && RemovePrefix(zs[i'], HeadsPrefix) == name
    {
      FilledLineKept(lines, i);
      assert RemovePrefix(zs[i - j], HeadsPrefix) == name;
    }
    forall i | 0 <= i < |zs| && RemovePrefix(zs[i], HeadsPrefix) == name
      ensures exists i' :: 0 <= i' < |lines| && RemovePrefix(lines[i'], HeadsPrefix) == name
    {
      assert zs[i] == lines[i + j];
    }
  }

  /**
   * A branch is reported as an upstream exactly when some branch's upstream,
   * without `refs/heads/`, is its name; branches with no upstream print an
   * empty line, which matches no branch.
   */
  lemma BranchIsAnUpstreamOfListing(upstreams: seq<string>, name: string)
    requires forall i :: 0 <= i < |upstreams| ==> Word(upstreams[i])
    requires name != ""
    ensures BranchIsAnUpstream(name, Listing(upstreams)) <==>
      exists i :: 0 <= i < |upstreams| && RemovePrefix(upstreams[i], HeadsPrefix) == name
  {
    var k := LastFilled(upstreams);
    var zs := upstreams[..k][FirstFilled(upstreams[..k])..];
    assert UpstreamHeads(Listing(upstreams)) == StrippedNames(zs) by {
      UpstreamHeadsLines(upstreams);
    }
    StrippedMember(zs, name);
    FilledLinesMatch(upstreams, name);
  }

  // ---------------------------------------------------------------------
  // is_ancestor

  /** `is_ancestor` given the exit status of `merge-base --is-ancestor`: 0 is true, 1 is false, anything else raises. */
  function IsAncestor(code: int): (r: Result<bool, int>)
    ensures r.Ok? <==> code == 0 || code == 1
    ensures r.Ok? ==> r.value == (code == 0)
    ensures r.Err? ==> r.error == code
  {
    if code == 0 then Ok(true) else if code == 1 then Ok(false) else Err(code)
  }
}
