/** The four reports of autosemver/api.py, each one pass over the lineage
    (the nodes of `get_children_per_first_parent`, newest first) taken oldest
    first: the current version, the changelog, the authors and the release
    notes. The repository reads are replaced by their results: the lineage,
    the tag table of `get_tags` and the ref table of `get_refs`.

    Each report is a specification function over the oldest-first node
    sequence, defined from its last node so that it follows the loop, and a
    method with the loop proved equal to it. */
module Api {
  import opened Py
  import opened Repo
  import opened Tags
  import opened Versioning
  import opened Render

  // ---------------------------------------------------------------------
  // The version fold

  /** The version after the nodes, from `(0, 0, 0)` by `get_version`. */
  function VersionAfter(nodes: seq<Node>, tags: map<Id, string>): Version
    requires WellFormedTags(tags)
  {
    if nodes == [] then Version(0, 0, 0)
    else
      var last := nodes[|nodes| - 1];
      GetVersion(last.commit, tags, VersionAfter(nodes[..|nodes| - 1], tags), last.children)
  }

  /** `get_current_version(repo_path)`. */
  method GetCurrentVersion(lineage: seq<Node>, tags: map<Id, string>) returns (r: string)
    requires WellFormedTags(tags)
    ensures r == VersionString(VersionAfter(Reverse(lineage), tags))
  {
    var nodes := Reverse(lineage);
    var v := Version(0, 0, 0);
    for i := 0 to |nodes|
      invariant v == VersionAfter(nodes[..i], tags)
    {
      assert nodes[..i + 1][..i] == nodes[..i];
      v := GetVersion(nodes[i].commit, tags, v, nodes[i].children);
    }
    assert nodes[..|nodes|] == nodes;
    r := VersionString(v);
  }

  /** An empty history is at version "0.0.0". */
  lemma EmptyLineageVersion(tags: map<Id, string>)
    requires WellFormedTags(tags)
    ensures VersionString(VersionAfter(Reverse([]), tags)) == "0.0.0"
  {
    assert NatToString(0) == "0";
  }

  /** With no tag on any of them, every node strictly raises the version, so
      the version after more nodes is strictly higher. */
  lemma {:induction false} UntaggedVersionsIncrease(nodes: seq<Node>, tags: map<Id, string>, i: nat, k: nat)
    requires WellFormedTags(tags) && i < k <= |nodes|
    requires forall j | 0 <= j < |nodes| :: nodes[j].commit.id !in tags
    ensures VersionLess(VersionAfter(nodes[..i], tags), VersionAfter(nodes[..k], tags))
    decreases k
  {
    var prefix := nodes[..k];
    var last := prefix[|prefix| - 1];
    assert prefix[..k - 1] == nodes[..k - 1];
    UntaggedVersion(last.commit, tags, VersionAfter(nodes[..k - 1], tags), last.children);
    if i < k - 1 {
      UntaggedVersionsIncrease(nodes, tags, i, k - 1);
      VersionLessTransitive(VersionAfter(nodes[..i], tags), VersionAfter(nodes[..k - 1], tags),
                            VersionAfter(nodes[..k], tags));
    }
  }

  lemma VersionLessTransitive(a: Version, b: Version, c: Version)
    requires VersionLess(a, b) && VersionLess(b, c)
    ensures VersionLess(a, c)
  {
  }

  /** A tagged node resets the version to its tag, whatever the history
      before it. */
  lemma TaggedNodeResets(nodes: seq<Node>, others: seq<Node>, tags: map<Id, string>, n: Node)
    requires WellFormedTags(tags) && n.commit.id in tags
    ensures (ValidTagParses(tags[n.commit.id]);
      VersionAfter(nodes + [n], tags) == Tag2Tuple(tags[n.commit.id])
      && VersionAfter(nodes + [n], tags) == VersionAfter(others + [n], tags))
  {
    assert (nodes + [n])[..|nodes|] == nodes;
    assert (others + [n])[..|others|] == others;
    TaggedVersion(n.commit, tags, VersionAfter(nodes, tags), VersionAfter(others, tags), n.children);
  }

  // ---------------------------------------------------------------------
  // The inclusion latch

  /** Every ref name in the table can be matched component-wise. */
  predicate WellFormedRefs(refs: map<Id, set<string>>) {
    forall c, r | c in refs && r in refs[c] :: WellFormedRef(r)
  }

  /** `refs.get(commit_sha, [])`. */
  function RefsOf(refs: map<Id, set<string>>, sha: Id): set<string> {
    if sha in refs then refs[sha] else {}
  }

  /** The test that opens the latch when `from_commit` is given: the id
      starts with it, or one of the commit's refs fuzzily matches it. */
  predicate Opens(from: Option<string>, sha: Id, refs: map<Id, set<string>>)
    requires WellFormedRefs(refs)
  {
    from.Some? && (StartsWith(sha, from.value) || FuzzyMatchesRefs(from.value, RefsOf(refs, sha)))
  }

  /** `start_including` after the nodes (set from the start when
      `from_commit` is None). A node is included exactly when the latch is
      set once it has been seen. */
  function Latch(nodes: seq<Node>, from: Option<string>, refs: map<Id, set<string>>): bool
    requires WellFormedRefs(refs)
  {
    if nodes == [] then from.None?
    else Latch(nodes[..|nodes| - 1], from, refs) || Opens(from, nodes[|nodes| - 1].commit.id, refs)
  }

  /** The latch is set exactly when no `from_commit` is given or some node
      seen so far opens it. */
  lemma {:induction false} LatchIff(nodes: seq<Node>, from: Option<string>, refs: map<Id, set<string>>)
    requires WellFormedRefs(refs)
    ensures Latch(nodes, from, refs)
      <==> from.None? || exists j | 0 <= j < |nodes| :: Opens(from, nodes[j].commit.id, refs)
  {
    if nodes != [] {
      var init := nodes[..|nodes| - 1];
      LatchIff(init, from, refs);
      assert forall j | 0 <= j < |init| :: init[j] == nodes[j];
    }
  }

  /** Once set, the latch stays set. */
  lemma LatchMonotone(nodes: seq<Node>, from: Option<string>, refs: map<Id, set<string>>, i: nat, k: nat)
    requires WellFormedRefs(refs) && i <= k <= |nodes|
    requires Latch(nodes[..i], from, refs)
    ensures Latch(nodes[..k], from, refs)
  {
    LatchIff(nodes[..i], from, refs);
    LatchIff(nodes[..k], from, refs);
    if from.Some? {
      var j :| 0 <= j < i && Opens(from, nodes[..i][j].commit.id, refs);
      assert nodes[..k][j] == nodes[..i][j];
    }
  }

  /** The number of included nodes. */
  function IncludedCount(nodes: seq<Node>, from: Option<string>, refs: map<Id, set<string>>): (r: nat)
    requires WellFormedRefs(refs)
    ensures r <= |nodes|
  {
    if nodes == [] then 0
    else IncludedCount(nodes[..|nodes| - 1], from, refs) + (if Latch(nodes, from, refs) then 1 else 0)
  }

  /** Without `from_commit` every node is included. */
  lemma {:induction false} NoFromIncludesAll(nodes: seq<Node>, refs: map<Id, set<string>>)
    requires WellFormedRefs(refs)
    ensures IncludedCount(nodes, None, refs) == |nodes|
  {
    if nodes != [] {
      NoFromIncludesAll(nodes[..|nodes| - 1], refs);
      LatchIff(nodes, None, refs);
    }
  }

  /** A `from_commit` that no node matches includes nothing. */
  lemma {:induction false} NoMatchIncludesNothing(nodes: seq<Node>, from: string, refs: map<Id, set<string>>)
    requires WellFormedRefs(refs)
    requires forall j | 0 <= j < |nodes| :: !Opens(Some(from), nodes[j].commit.id, refs)
    ensures IncludedCount(nodes, Some(from), refs) == 0
  {
    if nodes != [] {
      var init := nodes[..|nodes| - 1];
      assert forall j | 0 <= j < |init| :: init[j] == nodes[j];
      NoMatchIncludesNothing(init, from, refs);
      LatchIff(nodes, Some(from), refs);
    }
  }

  /** With `from_commit` first matched at node `j`, exactly the nodes from
      `j` on are included. */
  lemma {:induction false} IncludedFromFirstMatch(nodes: seq<Node>, from: string, refs: map<Id, set<string>>, j: nat)
    requires WellFormedRefs(refs) && j < |nodes|
    requires Opens(Some(from), nodes[j].commit.id, refs)
    requires forall k | 0 <= k < j :: !Opens(Some(from), nodes[k].commit.id, refs)
    ensures IncludedCount(nodes, Some(from), refs) == |nodes| - j
  {
    var init := nodes[..|nodes| - 1];
    assert forall k | 0 <= k < |init| :: init[k] == nodes[k];
    LatchIff(nodes, Some(from), refs);
    if j == |nodes| - 1 {
      NoMatchIncludesNothing(init, from, refs);
    } else {
      IncludedFromFirstMatch(init, from, refs, j);
    }
  }

  // ---------------------------------------------------------------------
  // The changelog

  /** The versionless renderings of the merged children, in order. */
  function ChildEntries(children: seq<Commit>, t: CommitType, url: string): string {
    if children == [] then ""
    else ChildEntries(children[..|children| - 1], t, url) + Entry(children[|children| - 1], None, t, url, false)
  }

  /** `cur_line` of an included node: the node with its version and class,
      then each merged child without a version, all children in `childType`. */
  function NodeEntry(node: Node, version: Version, parentType: CommitType, childType: CommitType, url: string): string {
    Entry(node.commit, Some(VersionString(version)), parentType, url, false) + ChildEntries(node.children, childType, url)
  }

  /** `cur_line` of an included node: the node's own rendering, then the
      loop over its merged children. */
  method RenderNode(node: Node, version: Version, parentType: CommitType, childType: CommitType, url: string)
    returns (cur: string)
    ensures cur == NodeEntry(node, version, parentType, childType, url)
  {
    ghost var head := Entry(node.commit, Some(VersionString(version)), parentType, url, false);
    cur := PrettyCommit(node.commit, Some(VersionString(version)), parentType, url, false);
    for j := 0 to |node.children|
      invariant cur == head + ChildEntries(node.children[..j], childType, url)
    {
      var e := PrettyCommit(node.children[j], None, childType, url, false);
      ChildEntriesStep(node.children, j, childType, url);
      AppendAssoc(head, ChildEntries(node.children[..j], childType, url), e);
      cur := cur + e;
    }
    assert node.children[..|node.children|] == node.children;
  }

  lemma ChildEntriesStep(children: seq<Commit>, j: nat, t: CommitType, url: string)
    requires j < |children|
    ensures ChildEntries(children[..j + 1], t, url)
      == ChildEntries(children[..j], t, url) + Entry(children[j], None, t, url, false)
  {
    assert children[..j + 1][..j] == children[..j];
  }

  /** The class of the merged children's entries: `get_commit_type` of the
      first-parent commit alone, without its children. */
  function ChildType(node: Node, tags: map<Id, string>, prev: Version): CommitType
    requires WellFormedTags(tags)
  {
    GetCommitType(node.commit, [], tags, prev)
  }

  /** The entries of `get_changelog`, oldest first. Each included node is
      classified against the version after the node before it, included or
      not. */
  function ChangelogEntries(nodes: seq<Node>, tags: map<Id, string>, refs: map<Id, set<string>>,
                            from: Option<string>, url: string): seq<string>
    requires WellFormedTags(tags) && WellFormedRefs(refs)
  {
    if nodes == [] then []
    else
      var init := nodes[..|nodes| - 1];
      var last := nodes[|nodes| - 1];
      var prev := VersionAfter(init, tags);
      ChangelogEntries(init, tags, refs, from, url)
      + (if Latch(nodes, from, refs) then
           [NodeEntry(last, VersionAfter(nodes, tags), GetCommitType(last.commit, last.children, tags, prev),
                      ChildType(last, tags, prev), url)]
         else [])
  }

  /** `get_changelog(repo_path, from_commit, bugtracker_url)`: the entries,
      newest first, one per line group. */
  method GetChangelog(lineage: seq<Node>, tags: map<Id, string>, refs: map<Id, set<string>>,
                      from: Option<string>, url: string)
    returns (r: string)
    requires WellFormedTags(tags) && WellFormedRefs(refs)
    ensures r == Join(Reverse(ChangelogEntries(Reverse(lineage), tags, refs, from, url)), "\n")
  {
    var nodes := Reverse(lineage);
    var changelog: seq<string> := [];
    var version := Version(0, 0, 0);
    var startIncluding := from.None?;
    var prevVersion := version;
    for i := 0 to |nodes|
      invariant version == VersionAfter(nodes[..i], tags) && prevVersion == version
      invariant startIncluding == Latch(nodes[..i], from, refs)
      invariant changelog == ChangelogEntries(nodes[..i], tags, refs, from, url)
    {
      ChangelogPrefixStep(nodes, i, tags, refs, from, url);
      var node := nodes[i];
      version := GetVersion(node.commit, tags, version, node.children);
      if startIncluding || Opens(from, node.commit.id, refs) {
        var commitType := GetCommitType(node.commit, node.children, tags, prevVersion);
        var curLine := RenderNode(node, version, commitType, ChildType(node, tags, prevVersion), url);
        startIncluding := true;
        changelog := changelog + [curLine];
      }
      prevVersion := version;
    }
    assert nodes[..|nodes|] == nodes;
    r := Join(Reverse(changelog), "\n");
  }

  /** One changelog entry per included node. */
  lemma {:induction false} ChangelogCount(nodes: seq<Node>, tags: map<Id, string>, refs: map<Id, set<string>>,
                                          from: Option<string>, url: string)
    requires WellFormedTags(tags) && WellFormedRefs(refs)
    ensures |ChangelogEntries(nodes, tags, refs, from, url)| == IncludedCount(nodes, from, refs)
  {
    if nodes != [] {
      ChangelogCount(nodes[..|nodes| - 1], tags, refs, from, url);
    }
  }

  /** An included node's entry opens with its header (its version and
      author) and then its indented label, short hash and colon. */
  lemma NodeEntryStart(node: Node, version: Version, parentType: CommitType, childType: CommitType, url: string)
    ensures StartsWith(NodeEntry(node, version, parentType, childType, url),
      Header(node.commit, Some(VersionString(version)), false)
      + (Indent + Label(parentType) + " " + ShortHash(node.commit.id) + ":"))
  {
    var e := Entry(node.commit, Some(VersionString(version)), parentType, url, false);
    var p := Header(node.commit, Some(VersionString(version)), false)
      + (Indent + Label(parentType) + " " + ShortHash(node.commit.id) + ":");
    EntryStart(node.commit, Some(VersionString(version)), parentType, url, false);
    StartsWithExtend(e, ChildEntries(node.children, childType, url), p);
  }

  lemma StartsWithExtend(a: string, b: string, p: string)
    requires StartsWith(a, p)
    ensures StartsWith(a + b, p)
  {
    assert (a + b)[..|p|] == a[..|p|];
  }

  /** The entries of a prefix of the nodes open the entries of the whole. */
  lemma {:induction false} ChangelogPrefix(nodes: seq<Node>, i: nat, m: nat, tags: map<Id, string>,
                                           refs: map<Id, set<string>>, from: Option<string>, url: string)
    requires WellFormedTags(tags) && WellFormedRefs(refs) && i <= m <= |nodes|
    ensures ChangelogEntries(nodes[..i], tags, refs, from, url) <= ChangelogEntries(nodes[..m], tags, refs, from, url)
    decreases m - i
  {
    if i < m {
      ChangelogPrefix(nodes, i, m - 1, tags, refs, from, url);
      ChangelogPrefixStep(nodes, m - 1, tags, refs, from, url);
    }
  }

  /** Each included node `i` has its own entry, right after the entries of
      the nodes before it: its version is the version after it, it is
      classified against the version after the node before it, and it opens
      with its header and its indented label, short hash and colon. */
  lemma ChangelogEntryOf(nodes: seq<Node>, i: nat, tags: map<Id, string>, refs: map<Id, set<string>>,
                         from: Option<string>, url: string)
    requires WellFormedTags(tags) && WellFormedRefs(refs) && i < |nodes|
    requires Latch(nodes[..i + 1], from, refs)
    ensures var entries := ChangelogEntries(nodes, tags, refs, from, url);
      var k := |ChangelogEntries(nodes[..i], tags, refs, from, url)|;
      var node := nodes[i];
      var prev := VersionAfter(nodes[..i], tags);
      var t := GetCommitType(node.commit, node.children, tags, prev);
      k < |entries|
      && entries[k] == NodeEntry(node, VersionAfter(nodes[..i + 1], tags), t, ChildType(node, tags, prev), url)
      && StartsWith(entries[k],
           Header(node.commit, Some(VersionString(VersionAfter(nodes[..i + 1], tags))), false)
           + (Indent + Label(t) + " " + ShortHash(node.commit.id) + ":"))
  {
    var node := nodes[i];
    var prev := VersionAfter(nodes[..i], tags);
    ChangelogPrefixStep(nodes, i, tags, refs, from, url);
    ChangelogPrefix(nodes, i + 1, |nodes|, tags, refs, from, url);
    assert nodes[..|nodes|] == nodes;
    NodeEntryStart(node, VersionAfter(nodes[..i + 1], tags), GetCommitType(node.commit, node.children, tags, prev),
                   ChildType(node, tags, prev), url);
  }

  // ---------------------------------------------------------------------
  // The authors

  /** The authors an included node contributes: its own and its children's. */
  function NodeAuthors(node: Node): set<string> {
    {node.commit.author} + set c | c in node.children :: c.author
  }

  /** The set `get_authors` collects. */
  function AuthorsOf(nodes: seq<Node>, from: Option<string>, refs: map<Id, set<string>>): set<string>
    requires WellFormedRefs(refs)
  {
    if nodes == [] then {}
    else
      AuthorsOf(nodes[..|nodes| - 1], from, refs)
      + (if Latch(nodes, from, refs) then NodeAuthors(nodes[|nodes| - 1]) else {})
  }

  /** `get_authors(repo_path, from_commit)`: the collected authors, sorted. */
  method GetAuthors(lineage: seq<Node>, refs: map<Id, set<string>>, from: Option<string>)
    returns (r: seq<string>)
    requires WellFormedRefs(refs)
    ensures StrictlySorted(r)
    ensures forall a :: a in r <==> a in AuthorsOf(Reverse(lineage), from, refs)
  {
    var nodes := Reverse(lineage);
    var startIncluding := from.None?;
    var authors: set<string> := {};
    for i := 0 to |nodes|
      invariant startIncluding == Latch(nodes[..i], from, refs)
      invariant authors == AuthorsOf(nodes[..i], from, refs)
    {
      AuthorsStep(nodes, i, from, refs);
      var node := nodes[i];
      if startIncluding || Opens(from, node.commit.id, refs) {
        authors := AddNodeAuthors(authors, node);
        startIncluding := true;
      }
    }
    assert nodes[..|nodes|] == nodes;
    r := Sorted(authors);
  }

  lemma AuthorsStep(nodes: seq<Node>, i: nat, from: Option<string>, refs: map<Id, set<string>>)
    requires WellFormedRefs(refs) && i < |nodes|
    ensures Latch(nodes[..i + 1], from, refs) == (Latch(nodes[..i], from, refs) || Opens(from, nodes[i].commit.id, refs))
    ensures AuthorsOf(nodes[..i + 1], from, refs)
      == AuthorsOf(nodes[..i], from, refs) + (if Latch(nodes[..i + 1], from, refs) then NodeAuthors(nodes[i]) else {})
  {
    assert nodes[..i + 1][..i] == nodes[..i];
  }

  /** One iteration of `get_authors` on an included node. */
  method AddNodeAuthors(authors: set<string>, node: Node) returns (r: set<string>)
    ensures r == authors + NodeAuthors(node)
  {
    r := authors + {node.commit.author};
    for j := 0 to |node.children|
      invariant r == authors + {node.commit.author} + set c | c in node.children[..j] :: c.author
    {
      assert forall c | c in node.children[..j + 1] :: c in node.children[..j] || c == node.children[j];
      r := r + {node.children[j].author};
    }
    assert node.children[..|node.children|] == node.children;
  }

  /** An author is listed exactly when they wrote an included first-parent
      commit or one of its merged children. */
  lemma {:induction false} AuthorsIff(nodes: seq<Node>, from: Option<string>, refs: map<Id, set<string>>, a: string)
    requires WellFormedRefs(refs)
    ensures a in AuthorsOf(nodes, from, refs) <==>
      exists i | 0 <= i < |nodes| :: Latch(nodes[..i + 1], from, refs)
        && (a == nodes[i].commit.author || exists c | c in nodes[i].children :: c.author == a)
  {
    if nodes != [] {
      var init := nodes[..|nodes| - 1];
      AuthorsIff(init, from, refs, a);
      forall i | 0 <= i < |init| ensures init[..i + 1] == nodes[..i + 1] && init[i] == nodes[i] { }
      assert nodes[..|nodes|] == nodes;
      NodeAuthorsIff(nodes[|nodes| - 1], a);
    }
  }

  /** `a` is the author of the node's commit or of one of its merged children. */
  lemma NodeAuthorsIff(node: Node, a: string)
    ensures a in NodeAuthors(node) <==> a == node.commit.author || exists c | c in node.children :: c.author == a
  {
  }

  // ---------------------------------------------------------------------
  // The release notes

  /** The three lists of `get_releasenotes`, in insertion order. */
  datatype Notes = Notes(breaks: seq<string>, features: seq<string>, fixes: seq<string>)

  /** The lists after the nodes: an included node's entry (its own rendering
      carries no class, so it is labelled MINOR) goes to the list of its
      class. */
  function NotesOf(nodes: seq<Node>, tags: map<Id, string>, refs: map<Id, set<string>>,
                   from: Option<string>, url: string): Notes
    requires WellFormedTags(tags) && WellFormedRefs(refs)
  {
    if nodes == [] then Notes([], [], [])
    else
      var init := nodes[..|nodes| - 1];
      var last := nodes[|nodes| - 1];
      var prev := VersionAfter(init, tags);
      var n := NotesOf(init, tags, refs, from, url);
      if !Latch(nodes, from, refs) then n
      else
        var e := NodeEntry(last, VersionAfter(nodes, tags), Bug, ChildType(last, tags, prev), url);
        AddNote(n, GetCommitType(last.commit, last.children, tags, prev), e)
  }

  /** Appends an entry to the list of its class. */
  function AddNote(n: Notes, t: CommitType, e: string): Notes {
    match t
    case ApiBreak => n.(breaks := n.breaks + [e])
    case Feature => n.(features := n.features + [e])
    case Bug => n.(fixes := n.fixes + [e])
  }

  lemma AddNoteCases(n: Notes, t: CommitType, e: string)
    ensures t == ApiBreak ==> AddNote(n, t, e) == Notes(n.breaks + [e], n.features, n.fixes)
    ensures t == Feature ==> AddNote(n, t, e) == Notes(n.breaks, n.features + [e], n.fixes)
    ensures t == Bug ==> AddNote(n, t, e) == Notes(n.breaks, n.features, n.fixes + [e])
  {
  }

  lemma NotesPrefixStep(nodes: seq<Node>, i: nat, tags: map<Id, string>, refs: map<Id, set<string>>,
                        from: Option<string>, url: string)
    requires WellFormedTags(tags) && WellFormedRefs(refs) && i < |nodes|
    ensures var prev := VersionAfter(nodes[..i], tags);
      VersionAfter(nodes[..i + 1], tags) == GetVersion(nodes[i].commit, tags, prev, nodes[i].children)
      && Latch(nodes[..i + 1], from, refs) == (Latch(nodes[..i], from, refs) || Opens(from, nodes[i].commit.id, refs))
      && NotesOf(nodes[..i + 1], tags, refs, from, url)
         == if Latch(nodes[..i + 1], from, refs) then
              AddNote(NotesOf(nodes[..i], tags, refs, from, url),
                      GetCommitType(nodes[i].commit, nodes[i].children, tags, prev),
                      NodeEntry(nodes[i], VersionAfter(nodes[..i + 1], tags), Bug, ChildType(nodes[i], tags, prev), url))
            else NotesOf(nodes[..i], tags, refs, from, url)
  {
    assert nodes[..i + 1][..i] == nodes[..i];
  }

  lemma ChangelogPrefixStep(nodes: seq<Node>, i: nat, tags: map<Id, string>, refs: map<Id, set<string>>,
                            from: Option<string>, url: string)
    requires WellFormedTags(tags) && WellFormedRefs(refs) && i < |nodes|
    ensures var prev := VersionAfter(nodes[..i], tags);
      VersionAfter(nodes[..i + 1], tags) == GetVersion(nodes[i].commit, tags, prev, nodes[i].children)
      && Latch(nodes[..i + 1], from, refs) == (Latch(nodes[..i], from, refs) || Opens(from, nodes[i].commit.id, refs))
      && ChangelogEntries(nodes[..i + 1], tags, refs, from, url)
         == ChangelogEntries(nodes[..i], tags, refs, from, url)
            + if Latch(nodes[..i + 1], from, refs) then
                [NodeEntry(nodes[i], VersionAfter(nodes[..i + 1], tags),
                           GetCommitType(nodes[i].commit, nodes[i].children, tags, prev),
                           ChildType(nodes[i], tags, prev), url)]
              else []
  {
    assert nodes[..i + 1][..i] == nodes[..i];
  }

  /** The release-notes template. */
  function NotesText(n: Notes, version: Version): string {
    "\nNew changes for version " + VersionString(version) + "\n"
    + "=================================\n"
    + "\n"
    + "API Breaking changes\n"
    + "--------------------\n"
    + Join(Reverse(n.breaks), "\n") + "\n"
    + "\n"
    + "New features\n"
    + "------------\n"
    + Join(Reverse(n.features), "\n") + "\n"
    + "\n"
    + "Bugfixes and minor changes\n"
    + "--------------------------\n"
    + Join(Reverse(n.fixes), "\n") + "\n"
  }

  /** `get_releasenotes(repo_path, from_commit, bugtracker_url)`, on a
      non-empty lineage (the source fails on an empty one). */
  method GetReleasenotes(lineage: seq<Node>, tags: map<Id, string>, refs: map<Id, set<string>>,
                         from: Option<string>, url: string)
    returns (r: string)
    requires WellFormedTags(tags) && WellFormedRefs(refs)
    requires lineage != []
    ensures r == NotesText(NotesOf(Reverse(lineage), tags, refs, from, url), VersionAfter(Reverse(lineage), tags))
  {
    var nodes := Reverse(lineage);
    var version := Version(0, 0, 0);
    var startIncluding := from.None?;
    var prevVersion := version;
    var bugs: seq<string> := [];
    var features: seq<string> := [];
    var apiBreakChanges: seq<string> := [];
    for i := 0 to |nodes|
      invariant version == VersionAfter(nodes[..i], tags) && prevVersion == version
      invariant startIncluding == Latch(nodes[..i], from, refs)
      invariant Notes(apiBreakChanges, features, bugs) == NotesOf(nodes[..i], tags, refs, from, url)
    {
      NotesPrefixStep(nodes, i, tags, refs, from, url);
      var node := nodes[i];
      version := GetVersion(node.commit, tags, version, node.children);
      if startIncluding || Opens(from, node.commit.id, refs) {
        var parentCommitType := GetCommitType(node.commit, node.children, tags, prevVersion);
        var curLine := RenderNode(node, version, Bug, ChildType(node, tags, prevVersion), url);
        startIncluding := true;
        ghost var before := Notes(apiBreakChanges, features, bugs);
        if parentCommitType == ApiBreak {
          apiBreakChanges := apiBreakChanges + [curLine];
        } else if parentCommitType == Feature {
          features := features + [curLine];
        } else {
          bugs := bugs + [curLine];
        }
        AddNoteCases(before, parentCommitType, curLine);
      }
      prevVersion := version;
    }
    assert nodes[..|nodes|] == nodes;
    r := NotesText(Notes(apiBreakChanges, features, bugs), version);
  }

  /** Every included node lands in exactly one list: the sizes add up to the
      number of included nodes. */
  lemma {:induction false} NotesCount(nodes: seq<Node>, tags: map<Id, string>, refs: map<Id, set<string>>,
                                      from: Option<string>, url: string)
    requires WellFormedTags(tags) && WellFormedRefs(refs)
    ensures var n := NotesOf(nodes, tags, refs, from, url);
      |n.breaks| + |n.features| + |n.fixes| == IncludedCount(nodes, from, refs)
  {
    if nodes != [] {
      NotesCount(nodes[..|nodes| - 1], tags, refs, from, url);
    }
  }

  /** An included node grows exactly the list of its class, by one entry
      that opens with its header and the label MINOR; an excluded node
      changes nothing. */
  lemma NotesStep(nodes: seq<Node>, tags: map<Id, string>, refs: map<Id, set<string>>,
                  from: Option<string>, url: string)
    requires WellFormedTags(tags) && WellFormedRefs(refs) && nodes != []
    ensures var init := nodes[..|nodes| - 1];
      var last := nodes[|nodes| - 1];
      var t := GetCommitType(last.commit, last.children, tags, VersionAfter(init, tags));
      var before := NotesOf(init, tags, refs, from, url);
      var after := NotesOf(nodes, tags, refs, from, url);
      var grown := if t == ApiBreak then after.breaks else if t == Feature then after.features else after.fixes;
      (!Latch(nodes, from, refs) ==> after == before)
      && (Latch(nodes, from, refs) ==>
            (t == ApiBreak <==> |after.breaks| == |before.breaks| + 1)
            && (t == Feature <==> |after.features| == |before.features| + 1)
            && (t == Bug <==> |after.fixes| == |before.fixes| + 1)
            && |after.breaks| + |after.features| + |after.fixes|
               == |before.breaks| + |before.features| + |before.fixes| + 1
            && StartsWith(grown[|grown| - 1],
                 Header(last.commit, Some(VersionString(VersionAfter(nodes, tags))), false)
                 + (Indent + Label(Bug) + " " + ShortHash(last.commit.id) + ":")))
  {
    var init := nodes[..|nodes| - 1];
    var last := nodes[|nodes| - 1];
    var prev := VersionAfter(init, tags);
    if Latch(nodes, from, refs) {
      var e := NodeEntry(last, VersionAfter(nodes, tags), Bug, ChildType(last, tags, prev), url);
      NodeEntryStart(last, VersionAfter(nodes, tags), Bug, ChildType(last, tags, prev), url);
      AddNoteGrows(NotesOf(init, tags, refs, from, url), GetCommitType(last.commit, last.children, tags, prev), e);
    }
  }

  /** Adding one entry grows exactly the list of its class, by that entry. */
  lemma AddNoteGrows(n: Notes, t: CommitType, e: string)
    ensures var after := AddNote(n, t, e);
      var grown := if t == ApiBreak then after.breaks else if t == Feature then after.features else after.fixes;
      (t == ApiBreak <==> |after.breaks| == |n.breaks| + 1)
      && (t == Feature <==> |after.features| == |n.features| + 1)
      && (t == Bug <==> |after.fixes| == |n.fixes| + 1)
      && |after.breaks| + |after.features| + |after.fixes| == |n.breaks| + |n.features| + |n.fixes| + 1
      && |grown| > 0 && grown[|grown| - 1] == e
  {
  }

  /** The release notes open with the headline naming the version; the
      method passes the version after the whole lineage, the one
      `get_current_version` reports. */
  lemma NotesHeadline(n: Notes, version: Version)
    ensures StartsWith(NotesText(n, version), "\nNew changes for version " + VersionString(version) + "\n")
  {
    var h := "\nNew changes for version " + VersionString(version) + "\n";
    assert NotesText(n, version)[..|h|] == h;
  }
}
