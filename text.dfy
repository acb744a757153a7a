/**
 * The byte-string helpers the program relies on, with Python's semantics
 * written out: `splitlines`, `split(sep)`, `strip`, `startswith`,
 * `removeprefix`, `count` and the slices `s[n:]` and `s[lo:-trim]`.
 * Bytes and text are both modelled as `string`.
 */
module Text {

  import opened Wrappers

  predicate StartsWith(s: string, p: string) {
    |p| <= |s| && s[..|p|] == p
  }

  predicate EndsWith(s: string, p: string) {
    |p| <= |s| && s[|s| - |p|..] == p
  }

  /** `s.removeprefix(p)` */
  function RemovePrefix(s: string, p: string): (r: string)
    ensures StartsWith(s, p) ==> s == p + r
    ensures !StartsWith(s, p) ==> r == s
  {
    if StartsWith(s, p) then s[|p|..] else s
  }

  /** The slice `s[n:]`, which is empty when `n` is past the end. */
  function Drop(s: string, n: nat): (r: string)
    ensures n <= |s| ==> s == s[..n] + r
    ensures n > |s| ==> r == ""
  {
    if n <= |s| then s[n..] else ""
  }

  /** The slice `s[lo:-trim]` for a positive `trim`: empty when the bounds cross. */
  function Slice(s: string, lo: nat, trim: nat): (r: string)
    ensures lo + trim <= |s| ==> s == s[..lo] + r + s[|s| - trim..]
    ensures lo + trim > |s| ==> r == ""
  {
    if lo + trim <= |s| then s[lo..|s| - trim] else ""
  }

  lemma DropAfterPrefix(p: string, s: string)
    ensures Drop(p + s, |p|) == s
    ensures RemovePrefix(p + s, p) == s
    ensures StartsWith(p + s, p)
  {
    assert (p + s)[..|p|] == p;
  }

  /** `s.count(c)` for a single character. */
  function Count(s: string, c: char): (n: nat)
    ensures n <= |s|
    ensures n == 0 <==> c !in s
  {
    if s == "" then 0 else (if s[0] == c then 1 else 0) + Count(s[1..], c)
  }

  lemma CountConcat(a: string, b: string, c: char)
    ensures Count(a + b, c) == Count(a, c) + Count(b, c)
  {
    if a != "" {
      assert (a + b)[1..] == a[1..] + b;
      CountConcat(a[1..], b, c);
    } else {
      assert a + b == b;
    }
  }

  predicate IsAscii(s: string) {
    forall c :: c in s ==> c as int < 128
  }

  // ---------------------------------------------------------------------
  // bytes.split(sep)

  /** Position of the first `c` in `s`, or `|s|` when there is none. */
  function IndexOf(s: string, c: char): (k: nat)
    ensures k <= |s|
    ensures forall j :: 0 <= j < k ==> s[j] != c
    ensures k < |s| ==> s[k] == c
  {
    if s == "" then 0
    else if s[0] == c then 0
    else 1 + IndexOf(s[1..], c)
  }

  lemma IndexOfAfter(a: string, c: char, b: string)
    requires c !in a
    ensures IndexOf(a + [c] + b, c) == |a|
  {
    var s := a + [c] + b;
    assert s[|a|] == c;
    assert forall j :: 0 <= j < |a| ==> s[j] == a[j];
  }

  lemma IndexOfAbsent(a: string, c: char)
    requires c !in a
    ensures IndexOf(a, c) == |a|
  {
  }

  /** `s.split(c)` for a single-character separator: never empty. */
  function Split(s: string, c: char): (parts: seq<string>)
    ensures |parts| >= 1
    ensures forall i :: 0 <= i < |parts| ==> c !in parts[i]
    decreases |s|
  {
    var k := IndexOf(s, c);
    if k == |s| then [s] else [s[..k]] + Split(s[k + 1..], c)
  }

  lemma SplitNone(a: string, c: char)
    requires c !in a
    ensures Split(a, c) == [a]
  {
    IndexOfAbsent(a, c);
  }

  lemma SplitCons(a: string, c: char, b: string)
    requires c !in a
    ensures Split(a + [c] + b, c) == [a] + Split(b, c)
  {
    var s := a + [c] + b;
    IndexOfAfter(a, c, b);
    assert s[..|a|] == a;
    assert s[|a| + 1..] == b;
  }

  /** The first `c` splits `s` into what lies before and after it. */
  lemma SplitFirst(s: string, c: char)
    requires |Split(s, c)| > 1
    ensures var k := IndexOf(s, c);
      k < |s| && s == s[..k] + [c] + s[k + 1..] && Split(s, c) == [s[..k]] + Split(s[k + 1..], c)
  {
    var k := IndexOf(s, c);
    assert k < |s|;
    Around(s, k);
  }

  /** `a, b = s.split(b" ")`: exactly one space, otherwise the unpacking fails. */
  function SplitPair(s: string): (r: Option<(string, string)>)
  {
    var parts := Split(s, ' ');
    if |parts| == 2 then Some((parts[0], parts[1])) else None
  }

  lemma SplitPairOf(a: string, b: string)
    requires ' ' !in a && ' ' !in b
    ensures SplitPair(a + " " + b) == Some((a, b))
  {
    SplitCons(a, ' ', b);
    SplitNone(b, ' ');
  }

  /** Whatever `SplitPair` accepts is two space-free words joined by one space. */
  lemma SplitPairSome(s: string)
    requires SplitPair(s).Some?
    ensures var (a, b) := SplitPair(s).value;
      s == a + " " + b && ' ' !in a && ' ' !in b
  {
    SplitFirst(s, ' ');
    var k := IndexOf(s, ' ');
    var rest := s[k + 1..];
    assert Split(rest, ' ') == Split(s, ' ')[1..];
    assert IndexOf(rest, ' ') == |rest|;
  }

  // ---------------------------------------------------------------------
  // bytes.splitlines()

  predicate IsLineBreak(c: char) {
    c == '\n' || c == '\r'
  }

  predicate NoLineBreak(s: string) {
    forall i :: 0 <= i < |s| ==> !IsLineBreak(s[i])
  }

  /** Position of the first line break in `s`, or `|s|` when there is none. */
  function BreakIndex(s: string): (k: nat)
    ensures k <= |s|
    ensures forall j :: 0 <= j < k ==> !IsLineBreak(s[j])
    ensures k < |s| ==> IsLineBreak(s[k])
  {
    if s == "" then 0
    else if IsLineBreak(s[0]) then 0
    else 1 + BreakIndex(s[1..])
  }

  lemma BreakIndexAfter(a: string, b: string)
    requires NoLineBreak(a)
    requires b != "" ==> IsLineBreak(b[0])
    ensures BreakIndex(a + b) == |a|
  {
    var s := a + b;
    assert forall j :: 0 <= j < |a| ==> s[j] == a[j];
    assert b != "" ==> s[|a|] == b[0];
  }

  /**
   * `s.splitlines()` on bytes: lines end at "\n", "\r" or "\r\n"; the
   * terminators are dropped and a final terminator opens no extra line.
   */
  function SplitLines(s: string): (lines: seq<string>)
    ensures forall i :: 0 <= i < |lines| ==> NoLineBreak(lines[i])
    ensures s == "" <==> lines == []
    decreases |s|
  {
    if s == "" then []
    else
      var k := BreakIndex(s);
      if k == |s| then [s]
      else
        var skip := if s[k] == '\r' && k + 1 < |s| && s[k + 1] == '\n' then 2 else 1;
        [s[..k]] + SplitLines(s[k + skip..])
  }

  /** Lines joined by "\n", the way git prints one record per line. */
  function JoinLines(lines: seq<string>): string {
    if lines == [] then ""
    else if |lines| == 1 then lines[0]
    else lines[0] + "\n" + JoinLines(lines[1..])
  }

  /** Each line comes back as it was printed, provided the last is not empty. */
  lemma {:induction false} SplitJoinLines(lines: seq<string>)
    requires forall i :: 0 <= i < |lines| ==> NoLineBreak(lines[i])
    requires lines != [] ==> lines[|lines| - 1] != ""
    ensures SplitLines(JoinLines(lines)) == lines
  {
    if |lines| == 1 {
      BreakIndexAfter(lines[0], "");
      assert lines[0] + "" == lines[0];
    } else if |lines| > 1 {
      SplitLinesCons(lines[0], JoinLines(lines[1..]));
      SplitJoinLines(lines[1..]);
    }
  }

  /** A line followed by "\n" is split off whatever follows it. */
  lemma SplitLinesCons(a: string, rest: string)
    requires NoLineBreak(a)
    ensures SplitLines(a + "\n" + rest) == [a] + SplitLines(rest)
  {
    var s := a + "\n" + rest;
    BreakIndexAfter(a, "\n" + rest);
    assert s == a + ("\n" + rest);
    assert s[|a|] == '\n';
    assert s[..|a|] == a;
    assert s[|a| + 1..] == rest;
  }

  // ---------------------------------------------------------------------
  // bytes.strip()

  /** The ASCII whitespace that `bytes.strip()` removes. */
  predicate IsSpace(c: char) {
    c == ' ' || c == '\t' || c == '\n' || c == '\r' || c as int == 11 || c as int == 12
  }

  function TrimStart(s: string): (r: string)
    ensures |r| <= |s| && r == s[|s| - |r|..]
    ensures r != "" ==> !IsSpace(r[0])
    ensures (forall i :: 0 <= i < |s| ==> !IsSpace(s[i])) ==> r == s
  {
    if s != "" && IsSpace(s[0]) then TrimStart(s[1..]) else s
  }

  function TrimEnd(s: string): (r: string)
    ensures |r| <= |s| && r == s[..|r|]
    ensures r != "" ==> !IsSpace(r[|r| - 1])
    ensures (forall i :: 0 <= i < |s| ==> !IsSpace(s[i])) ==> r == s
  {
    if s != "" && IsSpace(s[|s| - 1]) then TrimEnd(s[..|s| - 1]) else s
  }

  /** `s.strip()` */
  function Strip(s: string): string {
    TrimEnd(TrimStart(s))
  }

  // ---------------------------------------------------------------------
  // What git prints and what `git_output` keeps of it

  /** A character that may appear in a ref name or an object name: git forbids whitespace there. */
  predicate Word(s: string) {
    forall i :: 0 <= i < |s| ==> !IsSpace(s[i])
  }

  /** Every line terminated by "\n", as git prints a listing. */
  function Listing(lines: seq<string>): string {
    if lines == [] then "" else lines[0] + "\n" + Listing(lines[1..])
  }

  /** `s.rstrip(b"\r\n")`, which `git_output` applies to what it captures. */
  function RStripBreaks(s: string): (r: string)
    ensures |r| <= |s| && r == s[..|r|]
    ensures r != "" ==> !IsLineBreak(r[|r| - 1])
  {
    if s != "" && IsLineBreak(s[|s| - 1]) then RStripBreaks(s[..|s| - 1]) else s
  }

  /** A non-empty sequence is its prefix followed by its last element. */
  lemma InitLast<T>(s: seq<T>)
    requires s != []
    ensures s == s[..|s| - 1] + [s[|s| - 1]]
  {
  }

  /** An element of `init + [last]` is an element of `init` or is `last`. */
  lemma ElementOfSnoc<T>(s: seq<T>, init: seq<T>, last: T, x: T)
    requires s == init + [last]
    ensures (exists i :: 0 <= i < |s| && s[i] == x) <==> (exists i :: 0 <= i < |init| && init[i] == x) || last == x
  {
    if exists i :: 0 <= i < |s| && s[i] == x {
      var i :| 0 <= i < |s| && s[i] == x;
      if i < |init| {
        assert init[i] == x;
      }
    }
    if exists i :: 0 <= i < |init| && init[i] == x {
      var i :| 0 <= i < |init| && init[i] == x;
      assert s[i] == x;
    }
    if last == x {
      assert s[|init|] == x;
    }
  }

  /** A sequence is what lies before position `i`, the element there, and what follows. */
  lemma Around<T>(s: seq<T>, i: nat)
    requires i < |s|
    ensures s == s[..i] + [s[i]] + s[i + 1..]
  {
    assert s[i..] == [s[i]] + s[i + 1..];
    assert s == s[..i] + s[i..];
  }

  lemma {:induction false} JoinLinesSnoc(xs: seq<string>, y: string)
    ensures JoinLines(xs + [y]) == Listing(xs) + y
  {
    if xs == [] {
      assert xs + [y] == [y];
    } else {
      assert (xs + [y])[1..] == xs[1..] + [y];
      JoinLinesSnoc(xs[1..], y);
      if xs[1..] == [] {
        assert JoinLines(xs[1..] + [y]) == y;
      }
    }
  }

  lemma {:induction false} ListingSnoc(xs: seq<string>, y: string)
    ensures Listing(xs + [y]) == Listing(xs) + y + "\n"
  {
    if xs == [] {
      assert xs + [y] == [y];
    } else {
      assert (xs + [y])[1..] == xs[1..] + [y];
      ListingSnoc(xs[1..], y);
    }
  }

  /** The number of lines up to and including the last non-empty one. */
  function LastFilled(lines: seq<string>): (k: nat)
    ensures k <= |lines|
    ensures k > 0 ==> lines[k - 1] != ""
    ensures forall i :: k <= i < |lines| ==> lines[i] == ""
  {
    if lines == [] then 0
    else if lines[|lines| - 1] != "" then |lines|
    else LastFilled(lines[..|lines| - 1])
  }

  /** The number of leading empty lines. */
  function FirstFilled(lines: seq<string>): (j: nat)
    ensures j <= |lines|
    ensures forall i :: 0 <= i < j ==> lines[i] == ""
    ensures j < |lines| ==> lines[j] != ""
  {
    if lines == [] || lines[0] != "" then 0 else 1 + FirstFilled(lines[1..])
  }

  /** `git_output` drops the trailing terminators, and with them any trailing empty lines. */
  lemma {:induction false} CapturedListing(lines: seq<string>)
    requires forall i :: 0 <= i < |lines| ==> NoLineBreak(lines[i])
    ensures RStripBreaks(Listing(lines)) == JoinLines(lines[..LastFilled(lines)])
  {
    if lines != [] {
      var init, last := lines[..|lines| - 1], lines[|lines| - 1];
      InitLast(lines);
      if last == "" {
        CapturedEmptyLast(init);
        CapturedListing(init);
        assert lines[..LastFilled(lines)] == init[..LastFilled(init)];
      } else {
        CapturedFilledLast(init, last);
        assert lines[..LastFilled(lines)] == lines;
      }
    }
  }

  /** The terminator of a final empty line is stripped with the others. */
  lemma CapturedEmptyLast(init: seq<string>)
    ensures RStripBreaks(Listing(init + [""])) == RStripBreaks(Listing(init))
  {
    ListingSnoc(init, "");
    var s := Listing(init) + "" + "\n";
    assert s[..|s| - 1] == Listing(init);
  }

  /** A final non-empty line keeps all of its characters; only its terminator goes. */
  lemma CapturedFilledLast(init: seq<string>, last: string)
    requires last != "" && NoLineBreak(last)
    ensures RStripBreaks(Listing(init + [last])) == JoinLines(init + [last])
  {
    ListingSnoc(init, last);
    JoinLinesSnoc(init, last);
    var t := Listing(init) + last;
    var s := t + "\n";
    assert s[..|s| - 1] == t;
    assert t[|t| - 1] == last[|last| - 1];
  }

  /** A listing of non-empty lines, captured and split, gives back its lines. */
  lemma SplitFilledListing(lines: seq<string>)
    requires forall i :: 0 <= i < |lines| ==> NoLineBreak(lines[i]) && lines[i] != ""
    ensures SplitLines(RStripBreaks(Listing(lines))) == lines
  {
    CapturedListing(lines);
    assert LastFilled(lines) == |lines|;
    assert lines[..LastFilled(lines)] == lines;
    SplitJoinLines(lines);
  }

  lemma {:induction false} JoinLinesWord(lines: seq<string>)
    requires forall i :: 0 <= i < |lines| ==> Word(lines[i])
    requires lines != [] && lines[|lines| - 1] != ""
    ensures var s := JoinLines(lines); s != "" && !IsSpace(s[|s| - 1])
  {
    var init, last := lines[..|lines| - 1], lines[|lines| - 1];
    InitLast(lines);
    JoinLinesSnoc(init, last);
  }

  lemma TrimStartFilled(s: string)
    requires s != "" && !IsSpace(s[0])
    ensures TrimStart(s) == s
  {
  }

  lemma TrimEndFilled(s: string)
    requires s != "" && !IsSpace(s[|s| - 1])
    ensures TrimEnd(s) == s
  {
  }

  lemma JoinLinesFirst(lines: seq<string>)
    requires |lines| > 1
    ensures JoinLines(lines) == lines[0] + "\n" + JoinLines(lines[1..])
  {
  }

  /** `strip()` of word lines removes exactly the leading and trailing empty ones. */
  lemma {:induction false} StripJoinLines(lines: seq<string>)
    requires forall i :: 0 <= i < |lines| ==> Word(lines[i])
    requires lines != [] ==> lines[|lines| - 1] != ""
    ensures Strip(JoinLines(lines)) == JoinLines(lines[FirstFilled(lines)..])
  {
    if lines != [] {
      JoinLinesWord(lines);
      var s := JoinLines(lines);
      if lines[0] == "" {
        JoinLinesFirst(lines);
        var rest := JoinLines(lines[1..]);
        assert s == "\n" + rest;
        assert s[1..] == rest;
        assert TrimStart(s) == TrimStart(rest);
        StripJoinLines(lines[1..]);
        assert lines[FirstFilled(lines)..] == lines[1..][FirstFilled(lines[1..])..];
      } else {
        if |lines| > 1 {
          JoinLinesFirst(lines);
          assert s == lines[0] + ("\n" + JoinLines(lines[1..]));
        }
        assert s[0] == lines[0][0];
        TrimStartFilled(s);
        TrimEndFilled(s);
      }
    }
  }
}
