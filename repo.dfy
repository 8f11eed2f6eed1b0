/** The repository as plain data, as the core sees it once dulwich has read it:
    commits with their parents, messages and authors; version triples; the three
    commit classes; and lineage nodes (a first-parent commit with the commits it
    merged in). */
module Repo {

  /** A commit id: the 40-character hex digest, in one text representation. */
  type Id = string

  /** `date` is the already formatted author date, an opaque string (the source
      formats the commit time with the local time zone and locale). */
  datatype Commit = Commit(id: Id, parents: seq<Id>, message: string, author: string, date: string)

  datatype Version = Version(major: nat, minor: nat, patch: nat)

  /** The `(maj, feat, fix)` order the source's tuples compare in. */
  predicate VersionLess(a: Version, b: Version) {
    a.major < b.major
    || (a.major == b.major && a.minor < b.minor)
    || (a.major == b.major && a.minor == b.minor && a.patch < b.patch)
  }

  /** 'bug', 'feature' and 'api_break'. */
  datatype CommitType = Bug | Feature | ApiBreak

  /** One item of the ordered map built by `get_children_per_first_parent`. */
  datatype Node = Node(commit: Commit, children: seq<Commit>)
}
