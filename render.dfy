/** One changelog entry, as autosemver/git.py renders it: the bug ids a commit
    message names (`BUG_URL_REG` and `get_bugs_from_commit_msg`) and the text
    `pretty_commit` builds from a commit, its version and its class. */
module Render {
  import opened Py
  import opened Repo
  import opened Wrap

  // ---------------------------------------------------------------------
  // Bug references

  /** The keyword `kw` starts at `p` and a digit follows it. */
  predicate KeywordAt(line: string, p: nat, kw: string) {
    p + |kw| < |line| && line[p..p + |kw|] == kw && IsDigit(line[p + |kw|])
  }

  /** One of the three alternatives of `BUG_URL_REG` (case-sensitive, with the
      source's spelling "adresses"), followed by a digit, starts at `p`. */
  predicate BugRefAt(line: string, p: nat) {
    KeywordAt(line, p, "closes #") || KeywordAt(line, p, "fixes #") || KeywordAt(line, p, "adresses #")
  }

  /** Where the digits of the reference at `p` begin. The keywords start with
      different letters, so only one of them can sit at `p`. */
  function DigitsStart(line: string, p: nat): (r: nat)
    requires BugRefAt(line, p)
    ensures r < |line| && IsDigit(line[r])
    ensures KeywordAt(line, p, "closes #") ==> r == p + 8
    ensures KeywordAt(line, p, "fixes #") ==> r == p + 7
    ensures KeywordAt(line, p, "adresses #") ==> r == p + 10
  {
    KeywordHead(line, p, "closes #");
    KeywordHead(line, p, "fixes #");
    KeywordHead(line, p, "adresses #");
    if KeywordAt(line, p, "closes #") then p + 8
    else if KeywordAt(line, p, "fixes #") then p + 7
    else p + 10
  }

  lemma KeywordHead(line: string, p: nat, kw: string)
    requires kw != []
    ensures KeywordAt(line, p, kw) ==> line[p] == kw[0]
  {
    if KeywordAt(line, p, kw) {
      assert line[p..p + |kw|][0] == line[p];
    }
  }

  /** The last position before `n` where a reference starts. */
  function LastBugRef(line: string, n: nat): (r: Option<nat>)
    requires n <= |line|
    ensures r.Some? ==> r.value < n && BugRefAt(line, r.value)
    ensures forall q | (if r.Some? then r.value + 1 else 0) <= q < n :: !BugRefAt(line, q)
  {
    if n == 0 then None
    else if BugRefAt(line, n - 1) then Some(n - 1)
    else LastBugRef(line, n - 1)
  }

  /** The longest run of digits starting at `i`. */
  function DigitRun(s: string, i: nat): (r: string)
    requires i <= |s|
    ensures i + |r| <= |s| && r == s[i..i + |r|] && AllDigits(r)
    ensures i + |r| == |s| || !IsDigit(s[i + |r|])
    decreases |s| - i
  {
    if i < |s| && IsDigit(s[i]) then
      var t := DigitRun(s, i + 1);
      assert [s[i]] + s[i + 1..i + 1 + |t|] == s[i..i + 1 + |t|];
      [s[i]] + t
    else ""
  }

  /** `BUG_URL_REG.match(line)` and its `bugid` group on a line (which has no
      newline). `.*` is greedy, so the match uses the last reference in the
      line, and `\d+` takes all the digits after it. */
  function BugIdOfLine(line: string): (r: Option<string>)
    ensures r.Some? <==> exists p | 0 <= p < |line| :: BugRefAt(line, p)
    ensures r.Some? ==> IsNumeral(r.value)
  {
    var p := LastBugRef(line, |line|);
    if p.None? then None else Some(DigitRun(line, DigitsStart(line, p.value)))
  }

  /** The id of a line is the whole digit run after its last keyword
      occurrence that a digit follows. */
  lemma BugIdOfLast(line: string, p: nat, kw: string)
    requires kw == "closes #" || kw == "fixes #" || kw == "adresses #"
    requires KeywordAt(line, p, kw)
    requires forall q | p < q < |line| :: !BugRefAt(line, q)
    ensures BugIdOfLine(line).Some?
    ensures var id := BugIdOfLine(line).value; var i := p + |kw|;
      i + |id| <= |line| && id == line[i..i + |id|] && IsNumeral(id)
      && (i + |id| == |line| || !IsDigit(line[i + |id|]))
  {
    assert BugRefAt(line, p);
    var r := LastBugRef(line, |line|);
    assert r == Some(p);
  }

  /** `get_bugs_from_commit_msg` over the lines of a message. */
  function BugsOf(lines: seq<string>): (r: seq<string>)
    ensures |r| <= |lines|
    ensures forall b | b in r :: IsNumeral(b)
  {
    if lines == [] then []
    else
      var last := lines[|lines| - 1];
      BugsOf(lines[..|lines| - 1]) + (if BugIdOfLine(last).Some? then [BugIdOfLine(last).value] else [])
  }

  /** The bug ids of a message. */
  function MessageBugs(message: string): seq<string> {
    BugsOf(Split(message, '\n'))
  }

  /** At most one id per line, in line order: the ids of two runs of lines
      are the ids of each, one after the other. */
  lemma {:induction false} BugsOfAppend(a: seq<string>, b: seq<string>)
    ensures BugsOf(a + b) == BugsOf(a) + BugsOf(b)
    decreases |b|
  {
    if b != [] {
      var last := b[|b| - 1];
      assert (a + b)[..|a + b| - 1] == a + b[..|b| - 1];
      assert (a + b)[|a + b| - 1] == last;
      BugsOfAppend(a, b[..|b| - 1]);
    } else {
      assert a + b == a;
    }
  }

  /** A line contributes its id when it has one, and nothing otherwise. */
  lemma {:induction false} BugsOfLine(line: string)
    ensures BugsOf([line]) == if BugIdOfLine(line).Some? then [BugIdOfLine(line).value] else []
  {
    assert [line][..0] == [];
  }

  /** One more line adds its bug id, if it has one. */
  lemma BugsOfStep(lines: seq<string>, i: nat)
    requires i < |lines|
    ensures BugsOf(lines[..i + 1]) == BugsOf(lines[..i]) + (if BugIdOfLine(lines[i]).Some? then [BugIdOfLine(lines[i]).value] else [])
  {
    assert lines[..i + 1][..i] == lines[..i];
  }

  /** `get_bugs_from_commit_msg(commit_msg)`. */
  method GetBugsFromCommitMsg(message: string) returns (bugs: seq<string>)
    ensures bugs == MessageBugs(message)
  {
    var lines := Split(message, '\n');
    bugs := [];
    for i := 0 to |lines|
      invariant bugs == BugsOf(lines[..i])
    {
      BugsOfStep(lines, i);
      var id := BugIdOfLine(lines[i]);
      if id.Some? {
        bugs := bugs + [id.value];
      }
    }
    assert lines[..|lines|] == lines;
  }

  // ---------------------------------------------------------------------
  // The entry

  /** `pretty_commit` wraps with four spaces of indent to 79 columns. */
  const Indent := "    "
  const Free: nat := 75

  /** `fit_to_cols(what, indent='    ')`. */
  function Wrapped(what: string): string {
    Join(WrapLines(what, Indent, Free, false), "\n")
  }

  /** `feature_header`. */
  function Label(t: CommitType): string {
    match t
    case Feature => "FEATURE"
    case ApiBreak => "MAJOR"
    case Bug => "MINOR"
  }

  /** `commit.sha().hexdigest()[:8]`. */
  function ShortHash(id: Id): (r: string)
    ensures |r| <= 8 && StartsWith(id, r)
    ensures |id| >= 8 ==> |r| == 8
  {
    if |id| <= 8 then id else id[..8]
  }

  /** The first line of the message. */
  function Subject(message: string): string {
    Split(message, '\n')[0]
  }

  /** `'{feature_header} {short_hash}: {subject}'`. */
  function Headline(commit: Commit, t: CommitType): string {
    Label(t) + " " + ShortHash(commit.id) + ": " + Subject(commit.message)
  }

  /** `'{bugtracker_url}{bug}'` for every bug. */
  function BugLinks(bugs: seq<string>, url: string): (r: seq<string>)
    ensures |r| == |bugs| && forall i | 0 <= i < |bugs| :: r[i] == url + bugs[i]
  {
    seq(|bugs|, i requires 0 <= i < |bugs| => url + bugs[i])
  }

  /** The text the issue line is wrapped from. */
  function IssuesText(bugs: seq<string>, url: string): string {
    "FIXED ISSUES: " + Join(BugLinks(bugs, url), ", ")
  }

  /** `changelog_bugs`: the wrapped issue line and a newline, or nothing. */
  function FixedIssues(bugs: seq<string>, url: string): string {
    if bugs == [] then "" else Wrapped(IssuesText(bugs, url)) + "\n"
  }

  /** The header line of a versioned entry, without its newline. */
  function HeaderLine(commit: Commit, version: string, rpm: bool): string {
    if rpm then "* " + commit.date + " " + commit.author + " - " + version
    else "* " + version + " \"" + commit.author + "\""
  }

  /** The header and its newline, or nothing for an entry without a version. */
  function Header(commit: Commit, version: Option<string>, rpm: bool): string {
    if version.Some? then HeaderLine(commit, version.value, rpm) + "\n" else ""
  }

  /** `pretty_commit(commit, version, commit_type, bugtracker_url, rpm_format)`,
      with the commit date already formatted. */
  function Entry(commit: Commit, version: Option<string>, t: CommitType, url: string, rpm: bool): string {
    Header(commit, version, rpm)
      + (Wrapped(Headline(commit, t)) + ("\n" + FixedIssues(MessageBugs(commit.message), url)))
  }

  /** `pretty_commit`: computes the issue line and the wrapped headline with
      the loops of `get_bugs_from_commit_msg` and `fit_to_cols`. */
  method PrettyCommit(commit: Commit, version: Option<string>, t: CommitType, url: string, rpm: bool)
    returns (r: string)
    ensures r == Entry(commit, version, t, url, rpm)
  {
    var bugs := GetBugsFromCommitMsg(commit.message);
    var changelogBugs := "";
    if bugs != [] {
      changelogBugs := FitToCols(IssuesText(bugs, url), Indent, 79);
      changelogBugs := changelogBugs + "\n";
    }
    assert changelogBugs == FixedIssues(MessageBugs(commit.message), url);
    var changelogMessage := FitToCols(Headline(commit, t), Indent, 79);
    assert changelogMessage == Wrapped(Headline(commit, t));
    r := Header(commit, version, rpm) + (changelogMessage + ("\n" + changelogBugs));
  }

  /** The issue part is there exactly when the message names a bug; it then
      starts with the indented "FIXED ISSUES:" and ends with a newline. */
  lemma FixedIssuesShape(bugs: seq<string>, url: string)
    ensures FixedIssues(bugs, url) == "" <==> bugs == []
    ensures bugs != [] ==>
      StartsWith(FixedIssues(bugs, url), Indent + "FIXED ISSUES:")
      && FixedIssues(bugs, url)[|FixedIssues(bugs, url)| - 1] == '\n'
  {
    if bugs != [] {
      var what := IssuesText(bugs, url);
      assert what[13] == ' ' && what[..13] == "FIXED ISSUES:";
      WrapFirstLine(what, Indent, Free, 13);
      var lines := WrapLines(what, Indent, Free, false);
      JoinStartsWith(lines, "\n");
    }
  }

  /** `a + " " + b + ": " + c` has a space right after the colon. */
  lemma ColonSpace(a: string, b: string, c: string)
    ensures var w := a + " " + b + ": " + c; var k := |a| + |b| + 2;
      k < |w| && w[k] == ' ' && w[..k] == a + " " + b + ":"
  {
    var w := a + " " + b + ": " + c;
    var k := |a| + |b| + 2;
    assert w == (a + " " + b + ":") + (" " + c);
  }

  /** Wrapped text starts with the indent and everything up to any space
      within the free columns. */
  lemma WrappedStart(what: string, k: nat)
    requires k <= Free && k < |what| && what[k] == ' '
    ensures StartsWith(Wrapped(what), Indent + what[..k])
  {
    WrapFirstLine(what, Indent, Free, k);
    JoinStartsWith(WrapLines(what, Indent, Free, false), "\n");
  }

  /** The wrapped headline starts with the indent, the label, the short hash
      and the colon. */
  lemma WrappedHeadline(commit: Commit, t: CommitType)
    ensures StartsWith(Wrapped(Headline(commit, t)), Indent + Label(t) + " " + ShortHash(commit.id) + ":")
  {
    ColonSpace(Label(t), ShortHash(commit.id), Subject(commit.message));
    WrappedStart(Headline(commit, t), |Label(t)| + |ShortHash(commit.id)| + 2);
  }

  lemma StartsWithConcat(h: string, rest: string, head: string)
    requires StartsWith(rest, head)
    ensures StartsWith(h + rest, h + head)
  {
    assert (h + rest)[..|h| + |head|] == h + rest[..|head|];
  }

  /** An entry starts with its header exactly when it has a version (a
      header begins with '*', the indented headline with a space); after
      the header comes the indent, the label of the commit's class, the
      first eight characters of its id and a colon. */
  lemma EntryStart(commit: Commit, version: Option<string>, t: CommitType, url: string, rpm: bool)
    ensures var e := Entry(commit, version, t, url, rpm);
      var head := Indent + Label(t) + " " + ShortHash(commit.id) + ":";
      |e| > 0 && (version.Some? <==> e[0] == '*')
      && StartsWith(e, Header(commit, version, rpm) + head)
  {
    var h := Header(commit, version, rpm);
    var head := Indent + Label(t) + " " + ShortHash(commit.id) + ":";
    var w := Wrapped(Headline(commit, t));
    var rest := w + ("\n" + FixedIssues(MessageBugs(commit.message), url));
    WrappedHeadline(commit, t);
    StartsWithConcat(w, "\n" + FixedIssues(MessageBugs(commit.message), url), []);
    assert StartsWith(rest, head) by {
      assert rest[..|head|] == w[..|head|];
    }
    StartsWithConcat(h, rest, head);
    assert rest[0] == head[0] == ' ';
    if version.Some? {
      assert h[0] == '*';
    } else {
      assert h + rest == rest;
    }
  }

  ghost predicate NoNewlines(commit: Commit, version: Option<string>, url: string) {
    '\n' !in commit.id && '\n' !in commit.author && '\n' !in commit.date && '\n' !in url
    && (version.Some? ==> '\n' !in version.value)
  }

  /** Wrapped text without a newline splits back into its lines. */
  lemma WrappedLines(what: string)
    requires '\n' !in what
    ensures Split(Wrapped(what), '\n') == WrapLines(what, Indent, Free, false)
  {
    WrapLinesNoNewline(what, Indent, Free, false);
    var lines := WrapLines(what, Indent, Free, false);
    assert forall k | 0 <= k < |lines| :: lines[k] in lines;
    SplitJoin(lines, '\n');
  }

  /** The lines of the issue part: the wrapped issue line when there are
      bugs, and the piece after the final newline. */
  lemma IssuesLines(bugs: seq<string>, url: string)
    requires '\n' !in url && forall b | b in bugs :: IsNumeral(b)
    ensures Split(FixedIssues(bugs, url), '\n')
      == (if bugs == [] then [] else WrapLines(IssuesText(bugs, url), Indent, Free, false)) + [""]
  {
    if bugs != [] {
      var w := Wrapped(IssuesText(bugs, url));
      IssuesNoNewline(bugs, url);
      WrappedLines(IssuesText(bugs, url));
      SplitConcat(w, "", '\n');
      assert w + "\n" == w + ['\n'] + "";
    }
  }

  /** Wrapped text, a newline and more text split into the wrapped lines
      and the lines of the rest. */
  lemma WrappedThen(what: string, rest: string)
    requires '\n' !in what
    ensures Split(Wrapped(what) + ("\n" + rest), '\n') == WrapLines(what, Indent, Free, false) + Split(rest, '\n')
  {
    var w := Wrapped(what);
    assert Split(w, '\n') == WrapLines(what, Indent, Free, false) by {
      WrappedLines(what);
    }
    assert w + ("\n" + rest) == w + ['\n'] + rest;
    SplitConcat(w, rest, '\n');
  }

  /** After the header: the wrapped headline's lines, then those of the
      issue part. */
  lemma BodyLines(commit: Commit, t: CommitType, url: string)
    requires '\n' !in commit.id
    ensures var fi := FixedIssues(MessageBugs(commit.message), url);
      Split(Wrapped(Headline(commit, t)) + ("\n" + fi), '\n')
      == WrapLines(Headline(commit, t), Indent, Free, false) + Split(fi, '\n')
  {
    HeadlineNoNewline(commit, t);
    WrappedThen(Headline(commit, t), FixedIssues(MessageBugs(commit.message), url));
  }

  /** The lines of an entry: the header line when there is a version, the
      wrapped headline, the wrapped issue line when the message names a bug,
      and the empty piece after the final newline. */
  lemma EntryLines(commit: Commit, version: Option<string>, t: CommitType, url: string, rpm: bool)
    requires NoNewlines(commit, version, url)
    ensures var bugs := MessageBugs(commit.message);
      Split(Entry(commit, version, t, url, rpm), '\n')
      == (if version.Some? then [HeaderLine(commit, version.value, rpm)] else [])
         + WrapLines(Headline(commit, t), Indent, Free, false)
         + (if bugs == [] then [] else WrapLines(IssuesText(bugs, url), Indent, Free, false))
         + [""]
  {
    var bugs := MessageBugs(commit.message);
    var fi := FixedIssues(bugs, url);
    var body := Wrapped(Headline(commit, t)) + ("\n" + fi);
    var hl := WrapLines(Headline(commit, t), Indent, Free, false);
    var il := if bugs == [] then [] else WrapLines(IssuesText(bugs, url), Indent, Free, false);
    assert Split(body, '\n') == hl + (il + [""]) by {
      BodyLines(commit, t, url);
      IssuesLines(bugs, url);
    }
    if version.Some? {
      var h := HeaderLine(commit, version.value, rpm);
      assert Split(h + ['\n'] + body, '\n') == [h] + Split(body, '\n') by {
        HeaderNoNewline(commit, version.value, rpm);
        SplitNoSep(h, '\n');
        SplitConcat(h, body, '\n');
      }
      var e := Entry(commit, version, t, url, rpm);
      assert e == h + ['\n'] + body;
      assert Split(e, '\n') == [h] + (hl + (il + [""]));
      AppendAssoc([h], hl, il + [""]);
      AppendAssoc([h] + hl, il, [""]);
    } else {
      var e := Entry(commit, version, t, url, rpm);
      assert e == body;
      assert Split(e, '\n') == hl + (il + [""]);
      EmptyAppend(hl);
      AppendAssoc(hl, il, [""]);
    }
  }

  lemma HeaderNoNewline(commit: Commit, version: string, rpm: bool)
    requires '\n' !in commit.author && '\n' !in commit.date && '\n' !in version
    ensures '\n' !in HeaderLine(commit, version, rpm)
  {
  }

  lemma HeadlineNoNewline(commit: Commit, t: CommitType)
    requires '\n' !in commit.id
    ensures '\n' !in Headline(commit, t)
  {
    var s := ShortHash(commit.id);
    assert forall i | 0 <= i < |s| :: s[i] == commit.id[i];
    assert '\n' !in Subject(commit.message);
  }

  lemma IssuesNoNewline(bugs: seq<string>, url: string)
    requires '\n' !in url && forall b | b in bugs :: IsNumeral(b)
    ensures '\n' !in IssuesText(bugs, url)
  {
    var links := BugLinks(bugs, url);
    forall i | 0 <= i < |links| ensures '\n' !in links[i] {
      assert bugs[i] in bugs;
      assert forall j | 0 <= j < |bugs[i]| :: bugs[i][j] != '\n';
    }
    JoinAvoids(links, ", ", '\n');
  }
}
