# autosemver, modelled in Dafny

autosemver derives a semantic version, a changelog, release notes and an
author list from a git history. It works in four steps:

- It linearises the commit graph into a first-parent timeline (the *lineage*).
  Each trunk commit carries the commits its merge brought in.
- It classifies each commit as a bug fix, a feature or an api break. It
  uses `sem-ver:` headers, `* NEW` / `* INCOMPATIBLE` bullets and existing
  version tags.
- It folds the lineage, oldest first, into a running `(major, minor, patch)`
  triple. A tag resets the triple to the tag's own numbers.
- It renders commits as wrapped changelog entries.

This project models the core of `autosemver/git.py` and the four folds of
`autosemver/api.py`, and proves properties of the model.

The repository is plain data: a walk (commits newest first, in the
topological order the git reader gives), a store from id to commit, the ref
list, and from these the tag and ref tables.

| file | module | models |
|---|---|---|
| `repo.dfy` | `Repo` | commits, versions, the three commit classes, lineage nodes |
| `py.dfy` | `Py` | the Python built-ins the core relies on: `split`, `join`, `lstrip`, `rindex`, `int`, `'%s'`, `sorted`, string order |
| `tags.dfy` | `Tags` | `VALID_TAG`, `_tag2tuple`, `get_tags`, `get_refs`, `fuzzy_matches_ref(s)` |
| `markers.dfy` | `Markers` | the marker regexes, `is_feature`, `is_api_break` |
| `classify.dfy` | `Versioning` | `get_commit_type`, `get_version` |
| `linearize.dfy` | `Lineage` | `get_children_per_parent`, `get_first_parents`, `has_firstparent_child`, `get_merged_commits`, `get_children_per_first_parent` |
| `wrap.dfy` | `Wrap` | `fit_to_cols`, both the corrected loop and the loop as written |
| `render.dfy` | `Render` | `BUG_URL_REG`, `get_bugs_from_commit_msg`, `pretty_commit` |
| `api.dfy` | `Api` | `get_current_version`, `get_changelog`, `get_authors`, `get_releasenotes` |

The model keeps the source's form:

- **Loops become methods.** Every loop of the source is a method with a
  loop and its invariants, with two exceptions. The loop of
  `fuzzy_matches_ref` over the reversed path components
  (autosemver/git.py:216-222) changes only one accumulator and is the
  recursive function `Tags.MatchFrom`. The `fit_to_cols` loop as written
  may never return, so it is also the function `Wrap.FitToColsAsWritten`
  with a fuel bound, beside the corrected loop `Wrap.FitToCols`. The
  methods cover `fit_to_cols`, `get_first_parents`, the worklist of
  `get_merged_commits`, the dictionary builders and the four folds. Each
  method's `ensures` ties its result to a specification function of its
  inputs, and lemmas state what the source promises about that function.
- **Pure code becomes functions.** `_tag2tuple`, the markers,
  `get_commit_type`, `get_version` and the text of `pretty_commit` are
  functions.
- **`get_merged_commits` terminates because history is acyclic.** A ghost
  topological rank of the store expresses that acyclicity. The worklist
  shrinks in the binary weight of the ranks it holds.

Where the project's design description and the code disagree, the model
follows the code:

- **Input validation in `fit_to_cols`.** The description says it rejects
  an indent longer than the column budget and a budget below 2. The code
  validates nothing (autosemver/git.py:107-132). The model states
  `len(indent) < cols` as a precondition; see "Left out" for what the code
  does outside it.
- **Grouping and tagging.** The description groups release notes by major
  version and mentions a tagging command. The code has neither: release
  notes are one template (autosemver/api.py:300-320).
- **Wrapping example.** The description's example for
  `"some short string"` and `cols=3` starts `so-`. The code cuts at the
  limit, so the first line is `som-`. `Wrap.CutAt` models the code.
- **Tests that disagree with the code.** The model follows the code in
  each case:
  - tests/unit/test_git.py:116 calls a `split_line` that git.py does not
    define.
  - The "without newline" marker cases, at tests/unit/test_git.py:156-159
    and tests/unit/test_git.py:202-209, contradict the trailing `\n` that
    autosemver/git.py:49 and autosemver/git.py:53 require. See
    `Markers.UnterminatedHeaderExamples`.

## Model

| member | source | states |
|---|---|---|
| Py.Reverse | autosemver/api.py:104-106 | `reversed(...)`: same length, element `i` is element `len-1-i` of the input |
| Py.LStripSpec | autosemver/git.py:111 | `lstrip()` removes the longest prefix of white space and nothing else |
| Py.RStrip | autosemver/git.py:91-93 | `rstrip()` keeps a prefix, removes only white space, and leaves no trailing white space |
| Py.RIndex | autosemver/git.py:117-119 | `rindex(c)` is absent exactly when `c` does not occur; otherwise it holds `c` and no later index does |
| Py.Split | autosemver/git.py:137 | `split(sep)` gives at least one piece, no piece contains `sep`, and joining the pieces with `sep` gives the input back |
| Py.SplitJoin | autosemver/git.py:137 | splitting the join of separator-free parts gives the parts back |
| Py.SplitConcat | autosemver/git.py:137 | splitting `a + sep + b` is the split of `a` followed by the split of `b` |
| Py.JoinAppend | autosemver/git.py:132 | joining two non-empty lists puts exactly one separator between their joins |
| Py.NatToString | autosemver/api.py:117 | `'%s' % n` is a numeral whose value is `n`, with no leading zero |
| Py.StrLessIrreflexive | autosemver/api.py:220 | the order `sorted` uses on strings is irreflexive |
| Py.StrLessTotal | autosemver/api.py:220 | any two different strings are ordered one way or the other |
| Py.StrLessTransitive | autosemver/api.py:220 | the string order is transitive |
| Py.Sorted | autosemver/api.py:220 | `sorted(set)` is strictly ascending, has exactly the set's members and has the set's size |
| Tags.ShapeMatches | autosemver/git.py:47 | `v?` + numeral + `.` + numeral + optional `.` numeral matches the tag pattern |
| Tags.ShapeIsValid | autosemver/git.py:47 | every name of the tag shape, with or without one final newline, passes `VALID_TAG.match` |
| Tags.PatternShape | autosemver/git.py:47 | every string the pattern matches has the tag shape |
| Tags.ValidTagShape | autosemver/git.py:47 | every valid tag is a tag shape plus at most one final newline (Python's `$`) |
| Tags.NumeralIsIntLiteral | autosemver/git.py:91-93 | `int()` reads a numeral, with or without a final newline, as its decimal value |
| Tags.Tag2TupleOfShape | autosemver/git.py:77-95 | `_tag2tuple` of a valid tag returns its numbers in order, strips the `v` from the major part only and defaults the patch to 0 |
| Tags.ValidTagParses | autosemver/git.py:77-95 | `_tag2tuple` never raises on a name `VALID_TAG` accepts |
| Tags.VersionStringRoundTrip | autosemver/api.py:117 | a rendered version `M.m.p` is a valid tag that `_tag2tuple` reads back as the same triple |
| Tags.BaseName | autosemver/git.py:203 | `os.path.basename` has no `/` |
| Tags.ValidTagHasNoSlash | autosemver/git.py:200-202 | a valid tag contains no `/` |
| Tags.TagRefBaseName | autosemver/git.py:200-203 | for a tag ref, the basename is exactly the text after `refs/tags/` |
| Tags.LastTagRef | autosemver/git.py:198-203 | finds the last tag ref pointing at a commit, and is absent exactly when there is none |
| Tags.GetTags | autosemver/git.py:196-205 | a commit is a key exactly when some tag ref points at it; its value is the remainder after `refs/tags/` of the last such ref; every value is a valid tag without `/` |
| Tags.GetRefs | autosemver/git.py:208-213 | a commit is a key exactly when some ref points at it; its set is the commit id plus the names of all refs pointing at it |
| Tags.MatchFromIff | autosemver/git.py:218-221 | the loop over the components from the right meets exactly the right-aligned joins of the components |
| Tags.FuzzyMatchesRefIff | autosemver/git.py:216-222 | `fuzzy_matches_ref(f, r)` holds if and only if `f` is a right-aligned `/`-join of `r`'s components |
| Markers.HeaderNeedsTwoNewlines | autosemver/git.py:48-53 | a `sem-ver:` header match needs a newline before it and a later newline after it |
| Markers.SubjectOnlyIsUnmarked | autosemver/git.py:48-54 | the subject line takes no part in classification: a subject alone (with or without its final newline, the empty message included) is neither a feature nor an api break, and a subject followed by a body is a feature, or an api break, exactly when the body with its opening newline is |
| Markers.BulletStartsLine | autosemver/git.py:52-54 | `* NEW` and `* INCOMPATIBLE` count only right after a newline, and only with their words in capitals |
| Markers.HeaderCaseInsensitive | autosemver/git.py:48-53 | changing the case of ASCII letters in a message never changes whether a header matches |
| Markers.FeatureHeaderExample | autosemver/git.py:48-51 | `sem-ver: feature` in the body marks a feature |
| Markers.DeprecatedHeaderExample | autosemver/git.py:48-51 | `deprecat...` marks a feature too |
| Markers.ApiBreakHeaderExample | autosemver/git.py:53 | `sem-ver: api-breaking` marks an api break |
| Markers.BulletExamples | autosemver/git.py:52-54 | `\n* NEW` marks a feature and `\n* INCOMPATIBLE` an api break |
| Markers.LowerCaseBulletExamples | autosemver/git.py:52-54 | the bullets are case-sensitive: `"Subject\n\n* new: x\n"` is not a feature and `"Subject\n\n* incompatible: x\n"` is not an api break |
| Markers.UnterminatedHeaderExamples | autosemver/git.py:48-53 | a header without its closing newline does not match |
| Markers.NoNewlineAfterSubject | autosemver/git.py:48-54 | with no newline late enough to close a header and no `*` after a newline, a message is unmarked |
| Versioning.AnyApiBreak | autosemver/git.py:389 | true exactly when some commit of the list is an api break |
| Versioning.AnyFeature | autosemver/git.py:391 | true exactly when some commit of the list is a feature |
| Versioning.UntaggedCommitType | autosemver/git.py:389-394 | untagged: api break if and only if some commit of children + [commit] is one; feature if and only if none is and some is a feature; bug otherwise |
| Versioning.MessageTypeOrderIndependent | autosemver/git.py:389-394 | the message rule depends only on which commits are present |
| Versioning.CommitTypeOrderIndependent | autosemver/git.py:389-394 | the order of the merged children never changes `get_commit_type` |
| Versioning.TaggedCommitType | autosemver/git.py:381-387 | tagged: api break if and only if tag major > previous major; else feature if and only if tag minor > previous minor; else bug; messages are ignored |
| Versioning.TaggedVersion | autosemver/git.py:345-346 | a tagged commit gets exactly its tag's triple, whatever the version before it |
| Versioning.UntaggedVersion | autosemver/git.py:347-357 | untagged: (M+1,0,0), (M,m+1,0) or (M,m,p+1) by class, so the version strictly increases |
| Versioning.TagOnBumpedVersion | autosemver/git.py:339-358 | tagging a commit with the version it would get anyway changes nothing |
| Lineage.GetChildrenPerParent | autosemver/git.py:229-239 | the keys are exactly the ids named as a parent; each key maps to the ids of the walked commits that name it |
| Lineage.AddChild | autosemver/git.py:234-237 | one commit joins the children of each of its parents and nothing else changes |
| Lineage.AppendNew | autosemver/git.py:253-268 | `if x not in l: l.append(x)` keeps `l`'s members and adds exactly `x` |
| Lineage.GetFirstParents | autosemver/git.py:242-270 | the result is the fold of the state machine over the walk; it has no duplicates and contains every parentless commit walked |
| Lineage.TrunkNoDuplicates | autosemver/git.py:242-270 | the first-parent list never holds an id twice |
| Lineage.TrunkStepGrows | autosemver/git.py:246-268 | a step only appends to the list, and once `on_merge` is set it stays set |
| Lineage.TrunkPrefix | autosemver/git.py:246-270 | every earlier list is a prefix of the final one; `on_merge` is never reset |
| Lineage.TrunkHasRoots | autosemver/git.py:252-254 | every parentless commit of the walk is on the trunk |
| Lineage.TrunkBeforeMerge | autosemver/git.py:255-265 | before `on_merge` is set, every walked commit and its first parent are on the trunk |
| Lineage.TrunkAfterMerge | autosemver/git.py:252-268 | after `on_merge` is set, a step adds a parentless commit itself, or the first parent of a commit already on the list, or nothing |
| Lineage.GetMergedCommits | autosemver/git.py:279-307 | an id is merged if and only if it is stored, passes the merge test and is reachable from the merge by parent edges through commits off the trunk; only the merge itself can be on the trunk, and it is excluded when it is |
| Lineage.ReachableOffTrunk | autosemver/git.py:298-305 | everything explored after the start is off the trunk |
| Lineage.RootNotOwnParent | autosemver/git.py:304 | in an acyclic history no commit is its own parent |
| Lineage.PushParents | autosemver/git.py:298-305 | the worklist gains exactly the parents off the trunk that are neither merged already nor the popped commit |
| Lineage.StoredIn | autosemver/git.py:316-320 | the ids a lookup finds, in order; missing ids are skipped |
| Lineage.StoredInExactly | autosemver/git.py:316-320 | every stored id survives the filter, and the filter keeps a list duplicate-free |
| Lineage.ChildCommits | autosemver/git.py:332-334 | the list holds exactly the stored commits of the set, each once |
| Lineage.MergeNode | autosemver/git.py:317-334 | a trunk commit with more than one parent gets exactly its merged commits; any other gets none |
| Lineage.GetChildrenPerFirstParent | autosemver/git.py:310-336 | one node per stored trunk commit, in trunk order, each with exactly its merged commits and no duplicates |
| Wrap.CutAt | autosemver/git.py:112-130 | (corrected) a cut either starts the hanging indent or shortens the text; its line has at most the free columns, or one more ending in `-` |
| Wrap.FitToCols | autosemver/git.py:107-132 | (corrected) the loop produces the join of the wrapped lines |
| Wrap.WrapLinesIndented | autosemver/git.py:121-131 | every output line begins with the indent |
| Wrap.WrapLinesWidth | autosemver/git.py:112-127 | every line but the last fits the columns, or is one wider and ends in the hard-break `-` |
| Wrap.WrapLinesSingle | autosemver/git.py:111-131 | text that fits, or has no space after its leading white space, comes back as `indent + what` |
| Wrap.WrapFirstLine | autosemver/git.py:114-127 | the first line keeps the text up to any space within the free columns |
| Wrap.WrapLinesNoNewline | autosemver/git.py:121-131 | text and indent without a newline wrap into lines without one |
| Wrap.CutKeepsText | autosemver/git.py:114-128 | a cut loses nothing but spaces and the hard-break hyphen |
| Wrap.WrapLinesKeepsText | autosemver/git.py:107-132 | the lines, with their indent taken off and spaces and hyphens squashed, give back the input squashed the same way |
| Wrap.AsWrittenAgreesUnindented | autosemver/git.py:117-119 | before the hanging indent is in use, the code as written cuts where the corrected loop does |
| Wrap.FixedPointLoops | autosemver/git.py:111-130 | a state that the loop as written maps to itself is never left |
| Wrap.StuckStep | autosemver/git.py:117 | on the stuck state the window-relative `rindex` cuts at 9 and rebuilds the same state; the corrected cut is at 19 |
| Wrap.FirstCut | autosemver/git.py:114-123 | on the counterexample both readings make the same first cut and reach the stuck state |
| Wrap.LoopsAfterOneCut | autosemver/git.py:111-130 | a first cut landing in a fixed point means the loop as written never returns |
| Wrap.FitToColsLoopsForever | autosemver/git.py:117 | the loop as written never returns on `"a"*11 + " " + "a"*9 + " a"` with 20 free columns, for any indent |
| Wrap.FitToColsExample | autosemver/git.py:107-132 | the corrected loop wraps the same input into three lines |
| Render.DigitsStart | autosemver/git.py:45 | the digits of a reference start right after its keyword and begin with a digit |
| Render.LastBugRef | autosemver/git.py:45 | the greedy `.*` picks the last reference position before a bound |
| Render.DigitRun | autosemver/git.py:45 | `\d+` takes the maximal run of digits |
| Render.BugIdOfLine | autosemver/git.py:44-46 | a line has an id if and only if some keyword followed by a digit occurs in it; an id is a numeral |
| Render.BugIdOfLast | autosemver/git.py:45 | the id is the whole digit run after the last occurrence of `closes #`, `fixes #` or `adresses #` followed by a digit |
| Render.BugsOf | autosemver/git.py:137-141 | at most one id per line, each a numeral |
| Render.BugsOfAppend | autosemver/git.py:137-141 | the ids follow line order: the ids of two runs of lines are the ids of the first followed by those of the second |
| Render.BugsOfLine | autosemver/git.py:138-140 | a line contributes its id when it has one, and nothing otherwise |
| Render.GetBugsFromCommitMsg | autosemver/git.py:135-141 | the loop over the lines collects exactly the message's ids in line order |
| Render.ShortHash | autosemver/git.py:148 | the short hash is a prefix of the id, 8 characters long when the id has 8 |
| Render.BugLinks | autosemver/git.py:156-161 | one link per bug: the tracker url followed by the id |
| Render.PrettyCommit | autosemver/git.py:144-193 | builds the entry: optional header, wrapped headline, newline, optional issue line |
| Render.FixedIssuesShape | autosemver/git.py:153-165 | the issue part is empty if and only if there are no bugs; otherwise it starts with the indent and `FIXED ISSUES:` and ends with a newline |
| Render.WrappedStart | autosemver/git.py:175-178 | wrapped text starts with the indent and everything up to any space within the free columns |
| Render.WrappedHeadline | autosemver/git.py:167-178 | the wrapped headline starts with the indent, `FEATURE`/`MAJOR`/`MINOR`, the short hash and a colon |
| Render.EntryStart | autosemver/git.py:180-193 | an entry starts with `*` if and only if it has a version, and opens with its header, indent, label and short hash |
| Render.WrappedLines | autosemver/git.py:132 | splitting wrapped text at newlines gives the wrapped lines back |
| Render.IssuesLines | autosemver/git.py:153-165 | the issue part splits into the wrapped issue lines and an empty tail, or one empty piece when there are no bugs |
| Render.BodyLines | autosemver/git.py:180-193 | after the header come the headline's lines, then the issue lines |
| Render.EntryLines | autosemver/git.py:180-193 | the lines of an entry: the header line when there is a version, the wrapped headline, the wrapped issue line when there are bugs, and an empty last piece |
| Render.HeadlineNoNewline | autosemver/git.py:146-178 | the headline holds only the subject line, so no newline |
| Render.IssuesNoNewline | autosemver/git.py:156-161 | the issue text has no newline when the url has none |
| Api.GetCurrentVersion | autosemver/api.py:155-189 | the loop yields the rendered fold of `get_version` over the reversed lineage from (0,0,0) |
| Api.EmptyLineageVersion | autosemver/api.py:172-189 | an empty lineage gives "0.0.0" |
| Api.UntaggedVersionsIncrease | autosemver/api.py:176-187 | without tags the version strictly increases from node to node |
| Api.TaggedNodeResets | autosemver/api.py:180-187 | a tagged node's version is its tag's triple, whatever history precedes it |
| Api.LatchIff | autosemver/api.py:96-147 | the latch is set if and only if no `from_commit` is given or some node so far has an id starting with it or a ref fuzzily matching it |
| Api.LatchMonotone | autosemver/api.py:147 | once set, the latch stays set |
| Api.IncludedCount | autosemver/api.py:119-122 | no more nodes are included than there are |
| Api.IncludedFromFirstMatch | autosemver/api.py:119-147 | when node `j` is the first whose id starts with `from_commit` or whose refs fuzzily match it, exactly the nodes from `j` on are included |
| Api.NoFromIncludesAll | autosemver/api.py:99-100 | without `from_commit` every node is included |
| Api.NoMatchIncludesNothing | autosemver/api.py:119-122 | a `from_commit` no node matches includes nothing |
| Api.RenderNode | autosemver/api.py:129-146 | `cur_line` is the parent's versioned entry followed by one versionless entry per merged child, in order |
| Api.GetChangelog | autosemver/api.py:75-152 | the loop yields the included entries, newest first, joined by newlines |
| Api.ChangelogCount | autosemver/api.py:119-148 | one entry per included node |
| Api.NodeEntryStart | autosemver/api.py:129-134 | an included node's entry opens with its version header and its class label |
| Api.ChangelogPrefix | autosemver/api.py:119-148 | the entries of the first nodes open the entries of all nodes: the changelog only ever grows |
| Api.ChangelogEntryOf | autosemver/api.py:102-152 | every included node has its entry right after the entries of the nodes before it; the entry carries the version after the node, is classified against the version after the node before it, and opens with its header and its indented label, short hash and colon |
| Api.GetAuthors | autosemver/api.py:192-220 | the result is strictly sorted and holds exactly the collected authors |
| Api.AddNodeAuthors | autosemver/api.py:214-216 | an included node adds its commit's author and every child's author |
| Api.AuthorsIff | autosemver/api.py:206-218 | an author is listed if and only if they wrote an included trunk commit or one of its merged children |
| Api.NodeAuthorsIff | autosemver/api.py:214-216 | a node's authors are its commit's author and its children's authors |
| Api.AddNoteCases | autosemver/api.py:291-296 | an entry goes to the list of its class alone |
| Api.AddNoteGrows | autosemver/api.py:291-296 | adding an entry grows exactly its class's list, by that entry |
| Api.GetReleasenotes | autosemver/api.py:223-320 | the loop yields the template over the three lists and the version after the reversed lineage |
| Api.NotesCount | autosemver/api.py:291-296 | the three list sizes add up to the number of included nodes |
| Api.NotesStep | autosemver/api.py:262-298 | an excluded node changes nothing; an included node grows exactly its class's list with an entry that opens with its header and the label MINOR |
| Api.NotesHeadline | autosemver/api.py:300-316 | the notes open with the headline naming the version |

## Left out

- Reading the repository with dulwich (`Repo`, `get_walker`, `get_refs`,
  `get_object`). The walk, the store, the ref list and the lineage are
  inputs. A lookup that would raise `KeyError` means the id is absent from
  the store, and the model skips it as the source does.
- Canonical ids. `_to_str` and the mixing of bytes and text ids are left
  out. Every id is one `string`, the hex digest, and the model keeps one
  uniform id reading. Under Python 3 two places behave differently:
  - The tests at autosemver/git.py:292-294 compare a bytes id with text ids.
  - `refs.get(commit_sha, [])` at autosemver/api.py:121, autosemver/api.py:212
    and autosemver/api.py:264 looks up the text id in the table that
    `get_refs` keys by the reader's raw ids (autosemver/git.py:210-212).
    The lookup then always finds nothing, so a `from_commit` naming a tag or
    a branch never opens the latch. The model looks the refs up under the
    same id (`Api.Opens`), so such a `from_commit` does open it.
- The author date. It is an opaque string on the commit, because
  `datetime.fromtimestamp(...).strftime` depends on the time zone and
  locale.
- `os.path.normpath` in `fuzzy_matches_ref`: modelled as a plain `/`-join.
  Tags.FuzzyMatchesRef requires ref components that are non-empty and not
  `.` or `..`, where the two agree (`WellFormedRef`).
- `_needs_git` and `WITH_GIT`: these only check whether the library is
  available.
- `\d` and `\s`. `\d` is ASCII digits only; Python also accepts other
  Unicode digits. `\s` is the set of code points `str.isspace()` accepts.
- Case folding. IGNORECASE folding covers the ASCII letters of the marker
  patterns and the two non-ASCII characters that fold onto them.
- Set and dictionary iteration order. The refs come in the order the reader
  lists them. Merged children are listed in an order the method chooses;
  every property proved about them is independent of that order.
- Wrap.FitToCols: requires `len(indent) < cols`. With `len(indent) == cols`
  the free width is 0 and the loop never returns once the text is longer
  than 0 and holds a space after its first non-blank, e.g.
  `fit_to_cols("a b", "    ", 4)`: `what[:0].rindex(' ')` raises, the hard
  break leaves the cut at 0, and `what` never changes. With
  `len(indent) > cols` the free width is negative and Python's negative
  indexing at autosemver/git.py:114 takes over.
- Wrap.FitToCols, Render.PrettyCommit, Api.GetChangelog, Api.GetReleasenotes:
  these use the corrected cut of the autosemver/git.py:117 finding (the
  space found in the window is a position in the text, not in the window).
  Their output differs from the code as written whenever, once the hanging
  indent is in use, a cut falls on a space inside the window. There the
  code cuts too early by the indent width, repeats text, or never returns
  (`Wrap.FitToColsLoopsForever`). The code as written is `Wrap.CutAsWritten`
  and `Wrap.FitToColsAsWritten`.
- Api.GetReleasenotes: requires a non-empty lineage. Otherwise `version_str`
  is unbound at autosemver/api.py:316 and Python raises.
- Api.GetChangelog, Api.GetReleasenotes: the class of each merged child's
  entry is computed once per node, from the parent commit without children
  (autosemver/api.py:135-140, 277-282). The source recomputes the same
  value on every iteration.
- autosemver/packaging.py, autosemver/__init__.py and setup.py are not part
  of this model. They hold the environment, the file I/O, the command line
  and packaging.

## Findings

| source | as written | input that shows it | evidently intended | confidence | as-written member | corrected member |
|---|---|---|---|---|---|---|
| autosemver/git.py:117 | once the hanging indent is in use, `rindex` over `what[len(has_indent):free_cols]` gives a position within that slice, and lines 121-122 use it as a position in `what` | `fit_to_cols("a"*11 + " " + "a"*9 + " a", "", 20)`: after the first cut the text is ten spaces + `"aaaaaaaaa a"`, and every later iteration emits nine spaces and rebuilds the same text, so the loop never ends | add `len(has_indent)` to the position; the call then returns three lines | not executed | Wrap.FitToColsLoopsForever | Wrap.FitToColsExample |
