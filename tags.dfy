/** Tags and refs (autosemver/git.py): which refs count as version tags
    (`VALID_TAG`, `get_tags`), how a tag name becomes a version triple
    (`_tag2tuple`), the commit-to-refs table (`get_refs`) and the fuzzy match of
    a requested refspec against a ref name (`fuzzy_matches_ref(s)`). */
module Tags {
  import opened Py
  import opened Repo

  /** The regular expression `v?\d+\.\d+(\.\d+)?` matched against all of `s`.
      When `s` starts with `v` the optional `v` must take it, since `\d` cannot. */
  predicate MatchesVersionPattern(s: string) {
    var t := if |s| > 0 && s[0] == 'v' then s[1..] else s;
    TwoNumerals(t) || ThreeNumerals(t)
  }

  /** `\d+\.\d+`, with the dot at `i`. */
  predicate TwoNumeralsAt(t: string, i: int) {
    0 < i < |t| && t[i] == '.' && IsNumeral(t[..i]) && IsNumeral(t[i + 1..])
  }

  /** `\d+\.\d+\.\d+`, with the dots at `i` and `j`. */
  predicate ThreeNumeralsAt(t: string, i: int, j: int) {
    0 < i < j < |t| && t[i] == '.' && t[j] == '.'
    && IsNumeral(t[..i]) && IsNumeral(t[i + 1..j]) && IsNumeral(t[j + 1..])
  }

  predicate TwoNumerals(t: string) {
    exists i | 0 < i < |t| :: TwoNumeralsAt(t, i)
  }

  predicate ThreeNumerals(t: string) {
    exists i, j | 0 < i < j < |t| :: ThreeNumeralsAt(t, i, j)
  }

  /** `VALID_TAG.match(s)` for `^v?\d+\.\d+(\.\d+)?$`: Python's `$` also
      matches just before a final newline. */
  predicate IsValidTag(s: string) {
    MatchesVersionPattern(s)
    || (|s| > 0 && s[|s| - 1] == '\n' && MatchesVersionPattern(s[..|s| - 1]))
  }

  /** The text of a tag with the given parts: `v` or not, major, minor, an
      optional patch, and an optional final newline. */
  function TagText(hasV: bool, major: string, minor: string, patch: Option<string>, newline: bool): string {
    (if hasV then "v" else "") + (major + ("." + (minor + (PatchText(patch) + (if newline then "\n" else "")))))
  }

  function StripV(s: string): string {
    if StartsWith(s, "v") then s[1..] else s
  }

  /** When `_tag2tuple` returns instead of raising: one to three dot-separated
      pieces (four leave `maj_version` unbound), each acceptable to `int()`
      once a leading `v` is cut from the first. */
  predicate Tag2TupleDefined(tag: string) {
    var v := Split(tag, '.');
    |v| <= 3 && IsIntLiteral(StripV(v[0]))
    && (|v| >= 2 ==> IsIntLiteral(v[1]))
    && (|v| == 3 ==> IsIntLiteral(v[2]))
  }

  /** `_tag2tuple`: split on `.`, missing minor and patch default to 0, a leading
      `v` is dropped from the major part only. */
  function Tag2Tuple(tag: string): Version
    requires Tag2TupleDefined(tag)
  {
    var v := Split(tag, '.');
    Version(Int(StripV(v[0])),
            if |v| >= 2 then Int(v[1]) else 0,
            if |v| == 3 then Int(v[2]) else 0)
  }

  lemma NumeralIsIntLiteral(a: string, newline: bool)
    requires IsNumeral(a)
    ensures var s := a + (if newline then "\n" else "");
      IsIntLiteral(s) && Int(s) == DigitsValue(a)
  {
    var s := a + (if newline then "\n" else "");
    assert !IsSpace(a[|a| - 1]) && !IsSpace(a[0]);
    if newline {
      assert s[..|s| - 1] == a;
    } else {
      assert s == a;
    }
    assert RStrip(s) == a;
    assert LStrip(a) == a;
  }

  /** The dotted patch part of a tag, empty when there is none. */
  function PatchText(patch: Option<string>): string {
    if patch.Some? then "." + patch.value else ""
  }

  lemma TagTextNewline(hasV: bool, major: string, minor: string, patch: Option<string>)
    ensures TagText(hasV, major, minor, patch, true) == TagText(hasV, major, minor, patch, false) + "\n"
  {
    var pre := if hasV then "v" else "";
    var pt := PatchText(patch);
    assert pt + "" == pt;
    AppendAssoc(minor, pt, "\n");
    AppendAssoc(".", minor + pt, "\n");
    AppendAssoc(major, "." + (minor + pt), "\n");
    AppendAssoc(pre, major + ("." + (minor + pt)), "\n");
  }

  lemma DigitsHaveNoDot(a: string)
    requires AllDigits(a)
    ensures '.' !in a && '/' !in a && '\n' !in a && 'v' !in a
  {
    assert forall c | c in a :: IsDigit(c);
  }

  lemma TwoNumeralsOf(major: string, minor: string)
    requires IsNumeral(major) && IsNumeral(minor)
    ensures TwoNumerals(major + ("." + minor))
  {
    var t := major + ("." + minor);
    var i := |major|;
    assert t[i] == '.' && t[..i] == major && t[i + 1..] == minor;
    assert TwoNumeralsAt(t, i);
  }

  lemma ThreeNumeralsOf(major: string, minor: string, patch: string)
    requires IsNumeral(major) && IsNumeral(minor) && IsNumeral(patch)
    ensures ThreeNumerals(major + ("." + (minor + ("." + patch))))
  {
    var u := minor + ("." + patch);
    var t := major + ("." + u);
    var i := |major|;
    var j := |major| + 1 + |minor|;
    assert t[..i] == major && t[i + 1..] == u;
    assert t[i + 1..j] == u[..|minor|] == minor;
    assert t[j + 1..] == u[|minor| + 1..] == patch;
    assert t[i] == '.' && t[j] == u[|minor|] == '.';
    assert ThreeNumeralsAt(t, i, j);
  }

  /** The regular expression accepts `major.minor[.patch]`, with or without `v`. */
  lemma ShapeMatches(hasV: bool, major: string, minor: string, patch: Option<string>)
    requires IsNumeral(major) && IsNumeral(minor)
    requires patch.Some? ==> IsNumeral(patch.value)
    ensures MatchesVersionPattern(TagText(hasV, major, minor, patch, false))
  {
    var body := TagText(hasV, major, minor, patch, false);
    var pt := PatchText(patch);
    assert pt + "" == pt;
    var t := major + ("." + (minor + pt));
    assert body == (if hasV then "v" else "") + t;
    assert t[0] == major[0] && IsDigit(major[0]);
    assert (if |body| > 0 && body[0] == 'v' then body[1..] else body) == t;
    if patch.Some? {
      ThreeNumeralsOf(major, minor, patch.value);
    } else {
      assert minor + pt == minor;
      TwoNumeralsOf(major, minor);
    }
  }

  /** The pieces `split('.')` cuts a tag of the tag shape into. */
  lemma ShapeSplits(hasV: bool, major: string, minor: string, patch: Option<string>, newline: bool)
    requires IsNumeral(major) && IsNumeral(minor)
    requires patch.Some? ==> IsNumeral(patch.value)
    ensures var nl := if newline then "\n" else "";
      var first := (if hasV then "v" else "") + major;
      Split(TagText(hasV, major, minor, patch, newline), '.')
        == if patch.Some? then [first, minor, patch.value + nl] else [first, minor + nl]
  {
    var nl := if newline then "\n" else "";
    var pre := if hasV then "v" else "";
    var pt := PatchText(patch);
    var first := pre + major;
    DigitsHaveNoDot(major);
    DigitsHaveNoDot(minor);
    assert '.' !in first;
    var rest := minor + (pt + nl);
    AppendAssoc(pre, major, "." + rest);
    SplitCons(first, rest, '.');
    if patch.Some? {
      DigitsHaveNoDot(patch.value);
      assert '.' !in patch.value + nl;
      AppendAssoc(".", patch.value, nl);
      SplitCons(minor, patch.value + nl, '.');
      SplitNoSep(patch.value + nl, '.');
    } else {
      assert pt + nl == nl;
      assert '.' !in minor + nl;
      SplitNoSep(minor + nl, '.');
    }
  }

  /** Every name of the tag shape is a valid tag. */
  lemma ShapeIsValid(hasV: bool, major: string, minor: string, patch: Option<string>, newline: bool)
    requires IsNumeral(major) && IsNumeral(minor)
    requires patch.Some? ==> IsNumeral(patch.value)
    ensures IsValidTag(TagText(hasV, major, minor, patch, newline))
  {
    var tag := TagText(hasV, major, minor, patch, newline);
    var body := TagText(hasV, major, minor, patch, false);
    ShapeMatches(hasV, major, minor, patch);
    if newline {
      TagTextNewline(hasV, major, minor, patch);
      assert tag[..|tag| - 1] == body;
    }
  }

  /** `_tag2tuple` gives the numbers of a tag of the tag shape in order, drops
      the `v`, and defaults the patch to 0. */
  lemma Tag2TupleOfShape(hasV: bool, major: string, minor: string, patch: Option<string>, newline: bool)
    requires IsNumeral(major) && IsNumeral(minor)
    requires patch.Some? ==> IsNumeral(patch.value)
    ensures IsValidTag(TagText(hasV, major, minor, patch, newline))
    ensures Tag2TupleDefined(TagText(hasV, major, minor, patch, newline))
    ensures Tag2Tuple(TagText(hasV, major, minor, patch, newline))
            == Version(DigitsValue(major), DigitsValue(minor), if patch.Some? then DigitsValue(patch.value) else 0)
  {
    ShapeIsValid(hasV, major, minor, patch, newline);
    ShapeSplits(hasV, major, minor, patch, newline);
    var first := (if hasV then "v" else "") + major;
    assert IsDigit(major[0]);
    assert StripV(first) == major;
    NumeralIsIntLiteral(major, false);
    assert major + "" == major;
    if patch.Some? {
      NumeralIsIntLiteral(minor, false);
      assert minor + "" == minor;
      NumeralIsIntLiteral(patch.value, newline);
    } else {
      NumeralIsIntLiteral(minor, newline);
    }
  }

  lemma TwoShape(t: string) returns (major: string, minor: string)
    requires TwoNumerals(t)
    ensures IsNumeral(major) && IsNumeral(minor)
    ensures t == major + ("." + minor)
  {
    var i :| 0 < i < |t| && TwoNumeralsAt(t, i);
    major, minor := t[..i], t[i + 1..];
    assert t == t[..i] + [t[i]] + t[i + 1..];
  }

  lemma ThreeShape(t: string) returns (major: string, minor: string, patch: string)
    requires ThreeNumerals(t)
    ensures IsNumeral(major) && IsNumeral(minor) && IsNumeral(patch)
    ensures t == major + ("." + (minor + ("." + patch)))
  {
    var i, j :| 0 < i < j < |t| && ThreeNumeralsAt(t, i, j);
    major, minor, patch := t[..i], t[i + 1..j], t[j + 1..];
    assert t[..j] == t[..i] + [t[i]] + t[i + 1..j];
    assert t == t[..j] + [t[j]] + t[j + 1..];
  }

  lemma PatternShape(s: string) returns (hasV: bool, major: string, minor: string, patch: Option<string>)
    requires MatchesVersionPattern(s)
    ensures IsNumeral(major) && IsNumeral(minor) && (patch.Some? ==> IsNumeral(patch.value))
    ensures s == TagText(hasV, major, minor, patch, false)
  {
    hasV := |s| > 0 && s[0] == 'v';
    var t := if hasV then s[1..] else s;
    assert s == (if hasV then "v" else "") + t;
    if TwoNumerals(t) {
      major, minor := TwoShape(t);
      patch := None;
      assert minor + (PatchText(patch) + "") == minor;
    } else {
      var p;
      major, minor, p := ThreeShape(t);
      patch := Some(p);
      assert PatchText(patch) + "" == "." + p;
    }
  }

  /** Every valid tag has the tag shape. */
  lemma ValidTagShape(tag: string) returns (hasV: bool, major: string, minor: string, patch: Option<string>, newline: bool)
    requires IsValidTag(tag)
    ensures IsNumeral(major) && IsNumeral(minor) && (patch.Some? ==> IsNumeral(patch.value))
    ensures tag == TagText(hasV, major, minor, patch, newline)
  {
    if MatchesVersionPattern(tag) {
      newline := false;
      hasV, major, minor, patch := PatternShape(tag);
    } else {
      newline := true;
      hasV, major, minor, patch := NewlineTagShape(tag);
    }
  }

  lemma NewlineTagShape(tag: string) returns (hasV: bool, major: string, minor: string, patch: Option<string>)
    requires |tag| > 0 && tag[|tag| - 1] == '\n' && MatchesVersionPattern(tag[..|tag| - 1])
    ensures IsNumeral(major) && IsNumeral(minor) && (patch.Some? ==> IsNumeral(patch.value))
    ensures tag == TagText(hasV, major, minor, patch, true)
  {
    var body := tag[..|tag| - 1];
    hasV, major, minor, patch := PatternShape(body);
    TagTextNewline(hasV, major, minor, patch);
    assert tag == body + "\n";
  }

  /** `_tag2tuple` never raises on a valid tag. */
  lemma ValidTagParses(tag: string)
    requires IsValidTag(tag)
    ensures Tag2TupleDefined(tag)
  {
    var hasV, major, minor, patch, newline := ValidTagShape(tag);
    Tag2TupleOfShape(hasV, major, minor, patch, newline);
  }

  /** `'%s.%s.%s' % version`. */
  function VersionString(v: Version): string {
    NatToString(v.major) + ("." + (NatToString(v.minor) + ("." + NatToString(v.patch))))
  }

  /** A rendered version is itself a valid tag that reads back as the same
      version. */
  lemma VersionStringRoundTrip(v: Version)
    ensures IsValidTag(VersionString(v))
    ensures Tag2TupleDefined(VersionString(v)) && Tag2Tuple(VersionString(v)) == v
  {
    var p := Some(NatToString(v.patch));
    Tag2TupleOfShape(false, NatToString(v.major), NatToString(v.minor), p, false);
    assert PatchText(p) + "" == "." + p.value;
    assert TagText(false, NatToString(v.major), NatToString(v.minor), p, false) == VersionString(v);
  }

  const TagPrefix: string := "refs/tags/"

  /** The test at git.py:200-202. */
  predicate IsTagRef(name: string) {
    StartsWith(name, TagPrefix) && IsValidTag(name[|TagPrefix|..])
  }

  /** `os.path.basename`: what follows the last `/`. */
  function BaseName(path: string): (r: string)
    ensures '/' !in r
  {
    match RIndex(path, '/')
    case None => path
    case Some(k) => path[k + 1..]
  }

  lemma ValidTagHasNoSlash(tag: string)
    requires IsValidTag(tag)
    ensures '/' !in tag
  {
    var hasV, major, minor, patch, newline := ValidTagShape(tag);
    assert forall c | c in major + minor :: IsDigit(c);
    assert patch.Some? ==> forall c | c in patch.value :: IsDigit(c);
  }

  lemma TagRefBaseName(name: string)
    requires IsTagRef(name)
    ensures BaseName(name) == name[|TagPrefix|..]
  {
    var rest := name[|TagPrefix|..];
    ValidTagHasNoSlash(rest);
    assert name[9] == '/';
    forall j | 9 < j < |name| ensures name[j] != '/' {
      assert name[j] == rest[j - 10];
    }
    var k := RIndex(name, '/');
    assert name[9] in name;
    assert k.value == 9;
  }

  /** The table every consumer of `tags` relies on: each value is a valid tag. */
  predicate WellFormedTags(tags: map<Id, string>) {
    forall c | c in tags :: IsValidTag(tags[c])
  }

  /** The index of the last ref in `refs` that is a tag ref pointing at `c`. */
  function LastTagRef(refs: seq<(string, Id)>, c: Id): (r: Option<nat>)
    ensures r.None? <==> forall i | 0 <= i < |refs| :: refs[i].1 == c ==> !IsTagRef(refs[i].0)
    ensures r.Some? ==> r.value < |refs| && refs[r.value].1 == c && IsTagRef(refs[r.value].0)
    ensures r.Some? ==> forall j | r.value < j < |refs| :: refs[j].1 == c ==> !IsTagRef(refs[j].0)
  {
    if refs == [] then None
    else if refs[|refs| - 1].1 == c && IsTagRef(refs[|refs| - 1].0) then Some(|refs| - 1)
    else LastTagRef(refs[..|refs| - 1], c)
  }

  /** `get_tags`: over the refs in the order the reader lists them, keeps those
      named `refs/tags/<valid tag>`, keyed by commit id; the name kept is the part
      after `refs/tags/`. When two tags name one commit the later wins. */
  method GetTags(refs: seq<(string, Id)>) returns (tags: map<Id, string>)
    ensures forall c :: c in tags <==> LastTagRef(refs, c).Some?
    ensures forall c | c in tags :: tags[c] == refs[LastTagRef(refs, c).value].0[|TagPrefix|..]
    ensures WellFormedTags(tags)
    ensures forall c | c in tags :: '/' !in tags[c]
  {
    tags := map[];
    for n := 0 to |refs|
      invariant forall c :: c in tags <==> LastTagRef(refs[..n], c).Some?
      invariant forall c | c in tags :: tags[c] == refs[LastTagRef(refs[..n], c).value].0[|TagPrefix|..]
    {
      assert refs[..n + 1][..n] == refs[..n];
      var (name, commit) := refs[n];
      if StartsWith(name, TagPrefix) && IsValidTag(name[|TagPrefix|..]) {
        TagRefBaseName(name);
        tags := tags[commit := BaseName(name)];
      }
    }
    assert refs[..|refs|] == refs;
    forall c | c in tags ensures IsValidTag(tags[c]) && '/' !in tags[c] {
      ValidTagHasNoSlash(tags[c]);
    }
  }

  /** `get_refs`: for each commit a ref points at, the set of those ref names
      together with the commit id itself. */
  method GetRefs(refs: seq<(string, Id)>) returns (table: map<Id, set<string>>)
    ensures forall c :: c in table <==> exists i | 0 <= i < |refs| :: refs[i].1 == c
    ensures forall c | c in table ::
      table[c] == {c} + set i | 0 <= i < |refs| && refs[i].1 == c :: refs[i].0
  {
    table := map[];
    for n := 0 to |refs|
      invariant forall c :: c in table <==> exists i | 0 <= i < n :: refs[i].1 == c
      invariant forall c | c in table ::
        table[c] == {c} + set i | 0 <= i < n && refs[i].1 == c :: refs[i].0
    {
      var (name, commit) := refs[n];
      var old_ := if commit in table then table[commit] else {};
      table := table[commit := old_ + {commit, name}];
      forall c | c in table
        ensures table[c] == {c} + set i | 0 <= i < n + 1 && refs[i].1 == c :: refs[i].0
      {
        var before := set i | 0 <= i < n && refs[i].1 == c :: refs[i].0;
        var after := set i | 0 <= i < n + 1 && refs[i].1 == c :: refs[i].0;
        if c == commit {
          assert after == before + {name};
        } else {
          assert after == before;
        }
      }
    }
  }

  /** A ref name on which a plain `/`-join agrees with `os.path.normpath`:
      no empty, `.` or `..` component. */
  predicate WellFormedRef(ref: string) {
    forall k | 0 <= k < |Split(ref, '/')| :: Split(ref, '/')[k] !in {"", ".", ".."}
  }

  /** `os.path.normpath(os.path.join(section, cur))` on well-formed parts. */
  function JoinPath(section: string, cur: string): string {
    if cur == "" then section else section + "/" + cur
  }

  /** The loop of `fuzzy_matches_ref` over the components not yet visited
      (`sections`, walked from the right) with the suffix `cur` built so far. */
  function MatchFrom(fuzzy: string, sections: seq<string>, cur: string): bool
    decreases |sections|
  {
    if sections == [] then false
    else
      var next := JoinPath(sections[|sections| - 1], cur);
      fuzzy == next || MatchFrom(fuzzy, sections[..|sections| - 1], next)
  }

  /** `fuzzy_matches_ref(fuzzy_ref, ref)`. */
  function FuzzyMatchesRef(fuzzy: string, ref: string): bool
    requires WellFormedRef(ref)
  {
    MatchFrom(fuzzy, Split(ref, '/'), "")
  }

  /** `fuzzy_matches_refs(fuzzy_ref, refs)`: some ref in the set matches. */
  predicate FuzzyMatchesRefs(fuzzy: string, refs: set<string>)
    requires forall r | r in refs :: WellFormedRef(r)
  {
    exists r | r in refs :: FuzzyMatchesRef(fuzzy, r)
  }

  /** `fuzzy` is the `/`-join of the components from index `k` on. */
  predicate SuffixMatch(fuzzy: string, comps: seq<string>, k: nat)
    requires k <= |comps|
  {
    fuzzy == Join(comps[k..], "/")
  }

  lemma {:induction false} MatchFromIff(fuzzy: string, comps: seq<string>, m: nat)
    requires m <= |comps|
    requires forall k | 0 <= k < |comps| :: comps[k] != ""
    ensures MatchFrom(fuzzy, comps[..m], Join(comps[m..], "/"))
            <==> exists k | 0 <= k < m :: SuffixMatch(fuzzy, comps, k)
    decreases m
  {
    if m > 0 {
      var cur := Join(comps[m..], "/");
      var next := JoinPath(comps[m - 1], cur);
      assert next == Join(comps[m - 1..], "/") by {
        assert comps[m - 1..] == [comps[m - 1]] + comps[m..];
        if m < |comps| {
          JoinNonEmpty(comps[m..]);
        }
      }
      assert comps[..m][..m - 1] == comps[..m - 1];
      assert MatchFrom(fuzzy, comps[..m], cur)
             == (fuzzy == next || MatchFrom(fuzzy, comps[..m - 1], next));
      MatchFromIff(fuzzy, comps, m - 1);
      assert (exists k | 0 <= k < m :: SuffixMatch(fuzzy, comps, k))
             <==> (exists k | 0 <= k < m - 1 :: SuffixMatch(fuzzy, comps, k)) || SuffixMatch(fuzzy, comps, m - 1);
    }
  }

  lemma {:induction false} JoinNonEmpty(parts: seq<string>)
    requires |parts| > 0 && parts[0] != ""
    ensures Join(parts, "/") != ""
  {
  }

  /** `fuzzy` is one of the right-aligned `/`-joins of `comps`. */
  predicate IsJoinedSuffix(fuzzy: string, comps: seq<string>) {
    exists k | 0 <= k < |comps| :: SuffixMatch(fuzzy, comps, k)
  }

  /** `fuzzy_matches_ref(f, r)` holds exactly when `f` is one of the
      right-aligned, `/`-joined suffixes of `r`'s components: `main`,
      `heads/main` and `refs/heads/main` for `refs/heads/main`. */
  lemma FuzzyMatchesRefIff(fuzzy: string, ref: string)
    requires WellFormedRef(ref)
    ensures FuzzyMatchesRef(fuzzy, ref) <==> IsJoinedSuffix(fuzzy, Split(ref, '/'))
  {
    var comps := Split(ref, '/');
    forall k | 0 <= k < |comps| ensures comps[k] != "" {
      assert comps[k] !in {"", ".", ".."};
    }
    assert comps[..|comps|] == comps;
    assert comps[|comps|..] == [];
    assert Join(comps[|comps|..], "/") == "";
    MatchFromIff(fuzzy, comps, |comps|);
  }
}
