/** Commit classification and the per-node version step of autosemver/git.py:
    `get_commit_type` (a tag decides by comparing with the previous version;
    otherwise api_break beats feature beats bug over the commit and its merged
    children) and `get_version` (a tag resets the version, otherwise the
    classification bumps it). */
module Versioning {
  import opened Py
  import opened Repo
  import opened Tags
  import opened Markers

  /** `any(is_api_break(c) for c in cs)`. */
  function AnyApiBreak(cs: seq<Commit>): (r: bool)
    ensures r <==> exists c | c in cs :: IsApiBreak(c)
  {
    if cs == [] then false
    else
      assert forall c | c in cs :: c == cs[0] || c in cs[1..];
      IsApiBreak(cs[0]) || AnyApiBreak(cs[1..])
  }

  /** `any(is_feature(c) for c in cs)`. */
  function AnyFeature(cs: seq<Commit>): (r: bool)
    ensures r <==> exists c | c in cs :: IsFeature(c)
  {
    if cs == [] then false
    else
      assert forall c | c in cs :: c == cs[0] || c in cs[1..];
      IsFeature(cs[0]) || AnyFeature(cs[1..])
  }

  /** The message rule of `get_commit_type`, over `children + [commit]`. */
  function MessageType(cs: seq<Commit>): CommitType {
    if AnyApiBreak(cs) then ApiBreak
    else if AnyFeature(cs) then Feature
    else Bug
  }

  /** The tag rule of `get_commit_type`: the tag triple against the previous
      version, major first, then minor. */
  function TagType(tagged: Version, prev: Version): CommitType {
    if tagged.major > prev.major then ApiBreak
    else if tagged.minor > prev.minor then Feature
    else Bug
  }

  /** `get_commit_type(commit, children, tags, prev_version)`; an absent
      `tags` is the empty map and an absent `prev_version` is `Version(0, 0, 0)`. */
  function GetCommitType(commit: Commit, children: seq<Commit>, tags: map<Id, string>, prev: Version): CommitType
    requires WellFormedTags(tags)
  {
    if commit.id in tags then
      ValidTagParses(tags[commit.id]);
      TagType(Tag2Tuple(tags[commit.id]), prev)
    else MessageType(children + [commit])
  }

  /** Untagged, a commit is an api break exactly when it or one of its merged
      children carries an api-break marker; a feature exactly when none does
      and one carries a feature marker; a bug otherwise. */
  lemma UntaggedCommitType(commit: Commit, children: seq<Commit>, tags: map<Id, string>, prev: Version)
    requires WellFormedTags(tags) && commit.id !in tags
    ensures var t := GetCommitType(commit, children, tags, prev);
      var all := children + [commit];
      (t == ApiBreak <==> exists c | c in all :: IsApiBreak(c))
      && (t == Feature <==> (forall c | c in all :: !IsApiBreak(c)) && exists c | c in all :: IsFeature(c))
      && (t == Bug <==> forall c | c in all :: !IsApiBreak(c) && !IsFeature(c))
  {
  }

  /** The message rule looks only at which commits are present: reordering or
      repeating the merged children does not change it. */
  lemma MessageTypeOrderIndependent(cs: seq<Commit>, ds: seq<Commit>)
    requires forall c :: c in cs <==> c in ds
    ensures MessageType(cs) == MessageType(ds)
  {
  }

  /** The order of the merged children never matters to `get_commit_type`. */
  lemma CommitTypeOrderIndependent(commit: Commit, children: seq<Commit>, others: seq<Commit>,
                                   tags: map<Id, string>, prev: Version)
    requires WellFormedTags(tags)
    requires forall c :: c in children <==> c in others
    ensures GetCommitType(commit, children, tags, prev) == GetCommitType(commit, others, tags, prev)
  {
    MessageTypeOrderIndependent(children + [commit], others + [commit]);
  }

  /** Tagged, only the tag and the previous version matter: an api break
      exactly when the tag's major exceeds the previous major, else a feature
      exactly when its minor exceeds the previous minor, else a bug; the
      messages of the commit and its children are ignored. */
  lemma TaggedCommitType(commit: Commit, other: Commit, children: seq<Commit>, others: seq<Commit>,
                         tags: map<Id, string>, prev: Version)
    requires WellFormedTags(tags) && commit.id in tags && other.id == commit.id
    ensures (ValidTagParses(tags[commit.id]);
      var tagged := Tag2Tuple(tags[commit.id]);
      var t := GetCommitType(commit, children, tags, prev);
      (t == ApiBreak <==> tagged.major > prev.major)
      && (t == Feature <==> tagged.major <= prev.major && tagged.minor > prev.minor)
      && (t == Bug <==> tagged.major <= prev.major && tagged.minor <= prev.minor)
      && t == GetCommitType(other, others, tags, prev))
  {
  }

  /** `get_version(commit, tags, maj, feat, fix, children)`: the commit is
      classified by messages alone (no tags are passed down), then a tag
      replaces the version outright and otherwise the class bumps it. */
  function GetVersion(commit: Commit, tags: map<Id, string>, v: Version, children: seq<Commit>): Version
    requires WellFormedTags(tags)
  {
    var t := GetCommitType(commit, children, map[], Version(0, 0, 0));
    if commit.id in tags then
      ValidTagParses(tags[commit.id]);
      Tag2Tuple(tags[commit.id])
    else if t == ApiBreak then Version(v.major + 1, 0, 0)
    else if t == Feature then Version(v.major, v.minor + 1, 0)
    else Version(v.major, v.minor, v.patch + 1)
  }

  /** A tagged commit gets exactly its tag's triple, whatever version came
      before it, lower or higher. */
  lemma TaggedVersion(commit: Commit, tags: map<Id, string>, v: Version, w: Version, children: seq<Commit>)
    requires WellFormedTags(tags) && commit.id in tags
    ensures (ValidTagParses(tags[commit.id]);
      GetVersion(commit, tags, v, children) == Tag2Tuple(tags[commit.id])
      && GetVersion(commit, tags, v, children) == GetVersion(commit, tags, w, children))
  {
  }

  /** Untagged: an api break gives `(M+1, 0, 0)`, a feature `(M, m+1, 0)` and
      a bug `(M, m, p+1)`, by the message rule over the commit and its
      children; so every untagged step strictly increases the version. */
  lemma UntaggedVersion(commit: Commit, tags: map<Id, string>, v: Version, children: seq<Commit>)
    requires WellFormedTags(tags) && commit.id !in tags
    ensures var r := GetVersion(commit, tags, v, children);
      var t := MessageType(children + [commit]);
      (t == ApiBreak ==> r == Version(v.major + 1, 0, 0))
      && (t == Feature ==> r == Version(v.major, v.minor + 1, 0))
      && (t == Bug ==> r == Version(v.major, v.minor, v.patch + 1))
      && VersionLess(v, r)
  {
  }

  /** A tag that names exactly the bumped version leaves the history as if it
      were not there: "v1.3.0" on a feature on top of 1.2.5, for instance. */
  lemma TagOnBumpedVersion(commit: Commit, tags: map<Id, string>, v: Version, children: seq<Commit>)
    requires WellFormedTags(tags) && commit.id !in tags
    ensures var bumped := GetVersion(commit, tags, v, children);
      var tagged := tags[commit.id := VersionString(bumped)];
      WellFormedTags(tagged) && GetVersion(commit, tagged, v, children) == bumped
  {
    var bumped := GetVersion(commit, tags, v, children);
    VersionStringRoundTrip(bumped);
  }
}
