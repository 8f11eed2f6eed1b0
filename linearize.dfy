/** The first-parent linearizer of autosemver/git.py: `get_children_per_parent`
    (parent id to the ids of its children), `get_first_parents` (the trunk,
    collected along the topological walk with the `on_merge` flag),
    `has_firstparent_child`, `get_merged_commits` (the worklist that collects
    the commits a merge brought in) and `get_children_per_first_parent` (the
    lineage: each trunk commit with the commits it merged).

    The repository is a walk, the commits newest first in topological order as
    the reader lists them, and a store from id to commit; an id missing from
    the store is skipped, as a `KeyError` from the reader is. */
module Lineage {
  import opened Py
  import opened Repo

  predicate NoDuplicates<T(==)>(s: seq<T>) {
    forall i, j | 0 <= i < j < |s| :: s[i] != s[j]
  }

  // ---------------------------------------------------------------------
  // get_children_per_parent

  /** The ids of the commits among the first `n` of the walk that list `p` as
      a parent. */
  ghost function ChildrenIn(walk: seq<Commit>, n: nat, p: Id): set<Id>
    requires n <= |walk|
  {
    set i | 0 <= i < n && p in walk[i].parents :: walk[i].id
  }

  lemma ChildrenInStep(walk: seq<Commit>, n: nat, p: Id)
    requires n < |walk|
    ensures ChildrenIn(walk, n + 1, p) == ChildrenIn(walk, n, p) + (if p in walk[n].parents then {walk[n].id} else {})
  {
  }

  /** Every id some walked commit names as a parent. */
  ghost function ParentIds(walk: seq<Commit>): set<Id> {
    set i, p | 0 <= i < |walk| && p in walk[i].parents :: p
  }

  /** The map `get_children_per_parent` builds, described directly. */
  ghost function ChildMap(walk: seq<Commit>): map<Id, set<Id>> {
    map p | p in ParentIds(walk) :: ChildrenIn(walk, |walk|, p)
  }

  /** `get_children_per_parent`: every id some walked commit names as a parent
      maps to the ids of exactly those commits. */
  method GetChildrenPerParent(walk: seq<Commit>) returns (cpp: map<Id, set<Id>>)
    ensures forall p :: p in cpp <==> exists i | 0 <= i < |walk| :: p in walk[i].parents
    ensures forall p | p in cpp :: cpp[p] == ChildrenIn(walk, |walk|, p)
    ensures cpp == ChildMap(walk)
  {
    cpp := map[];
    for n := 0 to |walk|
      invariant forall p :: p in cpp <==> exists i | 0 <= i < n :: p in walk[i].parents
      invariant forall p | p in cpp :: cpp[p] == ChildrenIn(walk, n, p)
    {
      var next := AddChild(cpp, walk[n]);
      forall p ensures ChildrenOf(cpp, p) == ChildrenIn(walk, n, p) {
        if p !in cpp {
          assert forall i | 0 <= i < n :: p !in walk[i].parents;
        }
      }
      forall p | p in next ensures next[p] == ChildrenIn(walk, n + 1, p) {
        ChildrenInStep(walk, n, p);
      }
      cpp := next;
    }
    ChildMapOf(walk, cpp);
  }

  /** One iteration of the outer loop of `get_children_per_parent`: the
      commit joins the children of each of its parents. */
  method AddChild(cpp: map<Id, set<Id>>, entry: Commit) returns (r: map<Id, set<Id>>)
    ensures forall p :: p in r <==> p in cpp || p in entry.parents
    ensures forall p | p in r :: r[p] == ChildrenOf(cpp, p) + (if p in entry.parents then {entry.id} else {})
  {
    r := cpp;
    for k := 0 to |entry.parents|
      invariant forall p :: p in r <==> p in cpp || p in entry.parents[..k]
      invariant forall p | p in r :: r[p] == ChildrenOf(cpp, p) + (if p in entry.parents[..k] then {entry.id} else {})
    {
      var parent := entry.parents[k];
      var known := if parent in r then r[parent] else {};
      r := r[parent := known + {entry.id}];
      assert entry.parents[..k + 1] == entry.parents[..k] + [parent];
    }
    assert entry.parents[..|entry.parents|] == entry.parents;
  }

  lemma ChildMapOf(walk: seq<Commit>, cpp: map<Id, set<Id>>)
    requires forall p :: p in cpp <==> exists i | 0 <= i < |walk| :: p in walk[i].parents
    requires forall p | p in cpp :: cpp[p] == ChildrenIn(walk, |walk|, p)
    ensures cpp == ChildMap(walk)
  {
    assert cpp.Keys == ChildMap(walk).Keys;
  }

  /** Reading the `defaultdict(set)`: an absent key holds the empty set. */
  function ChildrenOf(cpp: map<Id, set<Id>>, sha: Id): set<Id> {
    if sha in cpp then cpp[sha] else {}
  }

  /** `has_firstparent_child`: some child of `sha` is on the trunk (and is a
      non-empty id: the source tests the child's truth value). */
  predicate HasFirstparentChild(sha: Id, fps: seq<Id>, cpp: map<Id, set<Id>>) {
    exists child | child in ChildrenOf(cpp, sha) :: child in fps && child != ""
  }

  // ---------------------------------------------------------------------
  // get_first_parents

  /** The state of `get_first_parents`: the list built so far and `on_merge`. */
  datatype Trunk = Trunk(list: seq<Id>, onMerge: bool)

  /** `if x not in l: l.append(x)`. */
  function AppendNew(l: seq<Id>, x: Id): (r: seq<Id>)
    ensures x in r && (forall y | y in l :: y in r) && (forall y | y in r :: y in l || y == x)
  {
    if x in l then l else l + [x]
  }

  /** One iteration of `get_first_parents` over `c`. */
  function TrunkStep(t: Trunk, c: Commit): Trunk {
    if c.parents == [] then Trunk(AppendNew(t.list, c.id), t.onMerge)
    else if |c.parents| == 1 && !t.onMerge then Trunk(AppendNew(AppendNew(t.list, c.id), c.parents[0]), false)
    else if |c.parents| > 1 && !t.onMerge then Trunk(AppendNew(AppendNew(t.list, c.id), c.parents[0]), true)
    else if c.id in t.list then Trunk(AppendNew(t.list, c.parents[0]), t.onMerge)
    else t
  }

  /** The state after the walk: the fold of `TrunkStep` from the empty list
      with `on_merge` unset. */
  function TrunkAfter(walk: seq<Commit>): Trunk {
    if walk == [] then Trunk([], false)
    else TrunkStep(TrunkAfter(walk[..|walk| - 1]), walk[|walk| - 1])
  }

  /** `get_first_parents(repo)`. */
  method GetFirstParents(walk: seq<Commit>) returns (fps: seq<Id>)
    ensures fps == TrunkAfter(walk).list
    ensures NoDuplicates(fps)
    ensures forall i | 0 <= i < |walk| && walk[i].parents == [] :: walk[i].id in fps
  {
    fps := [];
    var onMerge := false;
    for n := 0 to |walk|
      invariant Trunk(fps, onMerge) == TrunkAfter(walk[..n])
    {
      assert walk[..n + 1][..n] == walk[..n];
      var commit := walk[n];
      var parents := commit.parents;
      if parents == [] {
        if commit.id !in fps {
          fps := fps + [commit.id];
        }
      } else if |parents| == 1 && !onMerge {
        if commit.id !in fps {
          fps := fps + [commit.id];
        }
        if parents[0] !in fps {
          fps := fps + [parents[0]];
        }
      } else if |parents| > 1 && !onMerge {
        onMerge := true;
        if commit.id !in fps {
          fps := fps + [commit.id];
        }
        if parents[0] !in fps {
          fps := fps + [parents[0]];
        }
      } else if commit.id in fps {
        if parents[0] !in fps {
          fps := fps + [parents[0]];
        }
      }
    }
    assert walk[..|walk|] == walk;
    TrunkNoDuplicates(walk);
    TrunkHasRoots(walk);
  }

  lemma AppendNewNoDuplicates(l: seq<Id>, x: Id)
    requires NoDuplicates(l)
    ensures NoDuplicates(AppendNew(l, x))
  {
  }

  /** The trunk never holds an id twice. */
  lemma {:induction false} TrunkNoDuplicates(walk: seq<Commit>)
    ensures NoDuplicates(TrunkAfter(walk).list)
  {
    if walk != [] {
      var t := TrunkAfter(walk[..|walk| - 1]);
      var c := walk[|walk| - 1];
      TrunkNoDuplicates(walk[..|walk| - 1]);
      AppendNewNoDuplicates(t.list, c.id);
      AppendNewNoDuplicates(AppendNew(t.list, c.id), if c.parents == [] then c.id else c.parents[0]);
      if c.parents != [] {
        AppendNewNoDuplicates(t.list, c.parents[0]);
      }
    }
  }

  /** A step only appends to the list, and never unsets `on_merge`. */
  lemma TrunkStepGrows(t: Trunk, c: Commit)
    ensures t.list <= TrunkStep(t, c).list
    ensures t.onMerge ==> TrunkStep(t, c).onMerge
  {
  }

  /** An earlier state's list is a prefix of every later one, and once set,
      `on_merge` stays set. */
  lemma {:induction false} TrunkPrefix(walk: seq<Commit>, n: nat)
    requires n <= |walk|
    ensures TrunkAfter(walk[..n]).list <= TrunkAfter(walk).list
    ensures TrunkAfter(walk[..n]).onMerge ==> TrunkAfter(walk).onMerge
    decreases |walk| - n
  {
    if n == |walk| {
      assert walk[..n] == walk;
    } else {
      var init := walk[..|walk| - 1];
      assert init[..n] == walk[..n];
      TrunkPrefix(init, n);
      TrunkStepGrows(TrunkAfter(init), walk[|walk| - 1]);
    }
  }

  /** Every parentless commit of the walk is on the trunk. */
  lemma TrunkHasRoots(walk: seq<Commit>)
    ensures forall i | 0 <= i < |walk| && walk[i].parents == [] :: walk[i].id in TrunkAfter(walk).list
  {
    forall i | 0 <= i < |walk| && walk[i].parents == []
      ensures walk[i].id in TrunkAfter(walk).list
    {
      assert walk[..i + 1][..i] == walk[..i];
      TrunkPrefix(walk, i + 1);
    }
  }

  /** Until the first merge is met, every walked commit and its first parent
      go on the trunk. */
  lemma TrunkBeforeMerge(walk: seq<Commit>)
    ensures forall i | 0 <= i < |walk| && !TrunkAfter(walk[..i]).onMerge ::
      walk[i].id in TrunkAfter(walk).list
      && (walk[i].parents != [] ==> walk[i].parents[0] in TrunkAfter(walk).list)
  {
    forall i | 0 <= i < |walk| && !TrunkAfter(walk[..i]).onMerge
      ensures walk[i].id in TrunkAfter(walk).list
      ensures walk[i].parents != [] ==> walk[i].parents[0] in TrunkAfter(walk).list
    {
      assert walk[..i + 1][..i] == walk[..i];
      TrunkPrefix(walk, i + 1);
    }
  }

  /** Once `on_merge` is set, a step appends at most one id: a parentless
      commit itself, or the first parent of a commit already on the trunk. */
  lemma TrunkAfterMerge(walk: seq<Commit>, n: nat)
    requires n < |walk| && TrunkAfter(walk[..n]).onMerge
    ensures var before := TrunkAfter(walk[..n]).list;
      var after := TrunkAfter(walk[..n + 1]).list;
      after == before
      || (walk[n].parents == [] && after == before + [walk[n].id])
      || (walk[n].parents != [] && walk[n].id in before && after == before + [walk[n].parents[0]])
  {
    assert walk[..n + 1][..n] == walk[..n];
  }

  // ---------------------------------------------------------------------
  // get_merged_commits

  /** A topological numbering of the store: distinct numbers below the size of
      the store, each parent in the store numbered below its child. Git's
      history is acyclic, so one always exists. */
  ghost predicate IsRank(store: map<Id, Commit>, rank: map<Id, nat>) {
    (forall x | x in store :: x in rank && rank[x] < |store|)
    && (forall x, y | x in store && y in store && x != y :: rank[x] != rank[y])
    && (forall x, y | x in store && y in store && y in store[x].parents :: rank[y] < rank[x])
  }

  /** The exploration follows `x -> y` when `x` is in the store and `y` is one
      of its parents that is not on the trunk and is not `x` itself. */
  ghost predicate Edge(store: map<Id, Commit>, fps: seq<Id>, x: Id, y: Id) {
    x in store && y in store[x].parents && y !in fps && y != x
  }

  ghost predicate IsPath(store: map<Id, Commit>, fps: seq<Id>, from: Id, path: seq<Id>) {
    |path| >= 1 && path[0] == from
    && forall k | 0 <= k < |path| - 1 :: Edge(store, fps, path[k], path[k + 1])
  }

  /** `x` is reached from `from` by parent edges through commits off the trunk. */
  ghost predicate Reachable(store: map<Id, Commit>, fps: seq<Id>, from: Id, x: Id) {
    exists path :: IsPath(store, fps, from, path) && path[|path| - 1] == x
  }

  /** The test that `get_merged_commits` applies to each explored commit `x`
      of the merge `root`: off the trunk with no trunk child, or a direct
      parent of the merge. */
  predicate MergedBy(root: Commit, fps: seq<Id>, cpp: map<Id, set<Id>>, x: Id) {
    (x !in fps && !HasFirstparentChild(x, fps, cpp)) || x in root.parents
  }

  function Pow2(i: nat): nat {
    if i == 0 then 1 else 2 * Pow2(i - 1)
  }

  ghost predicate HasRank(s: set<Id>, store: map<Id, Commit>, rank: map<Id, nat>, i: nat)
    requires forall x | x in store :: x in rank
  {
    exists x | x in s && x in store :: rank[x] == i
  }

  /** The termination measure of the worklist: the number whose bit `i` is set
      when some stored commit of rank `i` waits in `s`. */
  ghost function Bits(s: set<Id>, store: map<Id, Commit>, rank: map<Id, nat>, n: nat): nat
    requires forall x | x in store :: x in rank
  {
    if n == 0 then 0
    else Bits(s, store, rank, n - 1) + (if HasRank(s, store, rank, n - 1) then Pow2(n - 1) else 0)
  }

  lemma {:induction false} BitsBound(s: set<Id>, store: map<Id, Commit>, rank: map<Id, nat>, n: nat)
    requires forall x | x in store :: x in rank
    ensures Bits(s, store, rank, n) < Pow2(n)
  {
    if n > 0 {
      BitsBound(s, store, rank, n - 1);
    }
  }

  /** Clearing bit `r` while keeping every higher bit lowers the measure,
      whatever happens to the lower bits. */
  lemma {:induction false} BitsDecrease(s: set<Id>, s': set<Id>, store: map<Id, Commit>, rank: map<Id, nat>, r: nat, n: nat)
    requires forall x | x in store :: x in rank
    requires r < n
    requires HasRank(s, store, rank, r) && !HasRank(s', store, rank, r)
    requires forall i | r < i < n :: HasRank(s, store, rank, i) == HasRank(s', store, rank, i)
    ensures Bits(s', store, rank, n) < Bits(s, store, rank, n)
  {
    if n == r + 1 {
      BitsBound(s', store, rank, r);
    } else {
      BitsDecrease(s, s', store, rank, r, n - 1);
    }
  }

  /** A path whose every edge leaves a processed commit, from a processed
      start, ends at a processed commit when it ends in the store. */
  lemma {:induction false} ClosedUnderPaths(store: map<Id, Commit>, fps: seq<Id>, from: Id, path: seq<Id>, done: set<Id>)
    requires IsPath(store, fps, from, path) && from in done
    requires forall p, y | p in done && Edge(store, fps, p, y) && y in store :: y in done
    requires path[|path| - 1] in store
    ensures path[|path| - 1] in done
    decreases |path|
  {
    if |path| > 1 {
      var init := path[..|path| - 1];
      assert IsPath(store, fps, from, init);
      assert Edge(store, fps, init[|init| - 1], path[|path| - 1]);
      ClosedUnderPaths(store, fps, from, init, done);
    }
  }

  /** A path can be extended by one more edge. */
  lemma PathExtend(store: map<Id, Commit>, fps: seq<Id>, from: Id, path: seq<Id>, y: Id)
    requires IsPath(store, fps, from, path) && Edge(store, fps, path[|path| - 1], y)
    ensures IsPath(store, fps, from, path + [y])
  {
  }

  /** `get_merged_commits(repo, commit, first_parents, children_per_parent)`
      with matching id types: the ids explored from the merge that pass the
      merge test; the exploration is a worklist popped in arbitrary order. */
  method GetMergedCommits(store: map<Id, Commit>, root: Commit, fps: seq<Id>, cpp: map<Id, set<Id>>,
                          ghost rank: map<Id, nat>)
    returns (merged: set<Id>)
    requires root.id in store && store[root.id] == root
    requires IsRank(store, rank)
    ensures forall x :: x in merged <==>
      x in store && MergedBy(root, fps, cpp, x) && Reachable(store, fps, root.id, x)
    ensures forall x | x in merged && x != root.id :: x !in fps
    ensures root.id in fps ==> root.id !in merged
  {
    merged := {};
    var toExplore := {root.id};
    ghost var done: set<Id> := {};
    assert IsPath(store, fps, root.id, [root.id]);
    while toExplore != {}
      invariant root.id in toExplore + done
      invariant done <= store.Keys
      invariant forall x | x in toExplore :: Reachable(store, fps, root.id, x)
      invariant forall x | x in done :: Reachable(store, fps, root.id, x)
      invariant forall p, y | p in done && Edge(store, fps, p, y) && y in store :: y in toExplore || y in done
      invariant forall x :: x in merged <==> x in done && MergedBy(root, fps, cpp, x)
      decreases Bits(toExplore, store, rank, |store|), |toExplore|
    {
      var next :| next in toExplore;
      ghost var before := toExplore;
      toExplore := toExplore - {next};
      if next !in store {
        assert forall i :: HasRank(toExplore, store, rank, i) == HasRank(before, store, rank, i);
        BitsUnchanged(toExplore, before, store, rank, |store|);
        continue;
      }
      var nextCommit := store[next];
      if (next !in fps && !HasFirstparentChild(next, fps, cpp)) || next in root.parents {
        merged := merged + {next};
      }
      ghost var added;
      toExplore, added := PushParents(toExplore, nextCommit.parents, fps, merged, next);
      ExploreClosed(store, fps, done, before, toExplore, merged, next);
      done := done + {next};
      ExploreReachable(store, fps, root.id, next, added);
      ExploreDecreases(before, toExplore, store, rank, next, added);
    }
    forall x | x in store && MergedBy(root, fps, cpp, x) && Reachable(store, fps, root.id, x)
      ensures x in merged
    {
      var path :| IsPath(store, fps, root.id, path) && path[|path| - 1] == x;
      ClosedUnderPaths(store, fps, root.id, path, done);
    }
    forall x | Reachable(store, fps, root.id, x) && x != root.id ensures x !in fps {
      ReachableOffTrunk(store, fps, root.id, x);
    }
    RootNotOwnParent(store, rank, root);
  }

  /** Only the start of the exploration can be on the trunk. */
  lemma ReachableOffTrunk(store: map<Id, Commit>, fps: seq<Id>, from: Id, x: Id)
    requires Reachable(store, fps, from, x) && x != from
    ensures x !in fps
  {
    var path :| IsPath(store, fps, from, path) && path[|path| - 1] == x;
    assert Edge(store, fps, path[|path| - 2], x);
  }

  /** In an acyclic history no commit is its own parent. */
  lemma RootNotOwnParent(store: map<Id, Commit>, rank: map<Id, nat>, root: Commit)
    requires root.id in store && store[root.id] == root && IsRank(store, rank)
    ensures root.id !in root.parents
  {
  }

  /** Processing `next` keeps the worklist closed: every edge out of a
      processed commit leads into the worklist or to a processed commit. */
  lemma ExploreClosed(store: map<Id, Commit>, fps: seq<Id>, done: set<Id>, before: set<Id>, after: set<Id>,
                      merged: set<Id>, next: Id)
    requires next in before && next in store
    requires forall p, y | p in done && Edge(store, fps, p, y) && y in store :: y in before || y in done
    requires forall y | y in store[next].parents && y !in fps && y != next :: y in after || y in merged
    requires merged <= done + {next} && before - {next} <= after
    ensures forall p, y | p in done + {next} && Edge(store, fps, p, y) && y in store ::
      y in after || y in done + {next}
  {
  }

  /** The inner loop of `get_merged_commits`: queue each parent of `next`
      that is off the trunk, not merged already and not `next` itself. */
  method PushParents(toExplore: set<Id>, parents: seq<Id>, fps: seq<Id>, merged: set<Id>, next: Id)
    returns (r: set<Id>, ghost added: set<Id>)
    requires next !in toExplore
    ensures r == toExplore + added && next !in added
    ensures forall y | y in added :: y in parents && y !in fps && y != next
    ensures forall y | y in parents && y !in fps && y != next :: y in r || y in merged
  {
    r := toExplore;
    added := {};
    for k := 0 to |parents|
      invariant r == toExplore + added && next !in added
      invariant forall y | y in added :: y in parents && y !in fps && y != next
      invariant forall y | y in parents[..k] && y !in fps && y != next :: y in r || y in merged
    {
      var childSha := parents[k];
      if childSha !in fps {
        if childSha !in merged && childSha != next {
          r := r + {childSha};
          added := added + {childSha};
        }
      }
      assert parents[..k + 1] == parents[..k] + [childSha];
    }
    assert parents[..|parents|] == parents;
  }

  lemma {:induction false} BitsUnchanged(s: set<Id>, s': set<Id>, store: map<Id, Commit>, rank: map<Id, nat>, n: nat)
    requires forall x | x in store :: x in rank
    requires forall i :: HasRank(s, store, rank, i) == HasRank(s', store, rank, i)
    ensures Bits(s, store, rank, n) == Bits(s', store, rank, n)
  {
    if n > 0 {
      BitsUnchanged(s, s', store, rank, n - 1);
    }
  }

  /** The parents added to the worklist are reachable when `next` is. */
  lemma ExploreReachable(store: map<Id, Commit>, fps: seq<Id>, from: Id, next: Id, added: set<Id>)
    requires Reachable(store, fps, from, next)
    requires forall y | y in added :: Edge(store, fps, next, y)
    ensures forall y | y in added :: Reachable(store, fps, from, y)
  {
    forall y | y in added ensures Reachable(store, fps, from, y) {
      var path :| IsPath(store, fps, from, path) && path[|path| - 1] == next;
      PathExtend(store, fps, from, path, y);
      assert (path + [y])[|path + [y]| - 1] == y;
    }
  }

  /** Popping a stored commit and adding some of its parents lowers the
      measure: they all rank below it. */
  lemma ExploreDecreases(before: set<Id>, after: set<Id>, store: map<Id, Commit>, rank: map<Id, nat>,
                         next: Id, added: set<Id>)
    requires IsRank(store, rank)
    requires next in before && next in store && next !in added
    requires after == (before - {next}) + added
    requires forall y | y in added :: y in store[next].parents
    ensures Bits(after, store, rank, |store|) < Bits(before, store, rank, |store|)
  {
    var r := rank[next];
    assert HasRank(before, store, rank, r);
    forall i | r < i < |store| ensures HasRank(before, store, rank, i) == HasRank(after, store, rank, i) {
      if HasRank(after, store, rank, i) {
        var x :| x in after && x in store && rank[x] == i;
        assert x in before;
      }
      if HasRank(before, store, rank, i) {
        var x :| x in before && x in store && rank[x] == i;
        assert x != next;
      }
    }
    BitsDecrease(before, after, store, rank, r, |store|);
  }

  // ---------------------------------------------------------------------
  // get_children_per_first_parent

  /** The ids of `ids` that the store holds, in order. */
  function StoredIn(ids: seq<Id>, store: map<Id, Commit>): (r: seq<Id>)
    ensures |r| <= |ids|
    ensures forall x | x in r :: x in ids && x in store
  {
    if ids == [] then []
    else StoredIn(ids[..|ids| - 1], store) + (if ids[|ids| - 1] in store then [ids[|ids| - 1]] else [])
  }

  lemma StoredInStep(ids: seq<Id>, n: nat, store: map<Id, Commit>)
    requires n < |ids|
    ensures StoredIn(ids[..n + 1], store) == StoredIn(ids[..n], store) + (if ids[n] in store then [ids[n]] else [])
  {
    assert ids[..n + 1][..n] == ids[..n];
  }

  /** Every stored id of the list survives the filter, and no duplicate
      appears that was not there. */
  lemma {:induction false} StoredInExactly(ids: seq<Id>, store: map<Id, Commit>)
    ensures forall x | x in ids && x in store :: x in StoredIn(ids, store)
    ensures NoDuplicates(ids) ==> NoDuplicates(StoredIn(ids, store))
  {
    if ids != [] {
      var init := ids[..|ids| - 1];
      StoredInExactly(init, store);
      assert forall x | x in ids :: x in init || x == ids[|ids| - 1];
      if NoDuplicates(ids) {
        assert ids[|ids| - 1] !in init;
      }
    }
  }

  /** `[get_repo_object(repo, child) for child in children]`, the set walked
      in some order. */
  method ChildCommits(store: map<Id, Commit>, children: set<Id>) returns (r: seq<Commit>)
    requires children <= store.Keys
    requires forall x | x in store :: store[x].id == x
    ensures forall c :: c in r <==> c.id in children && c == store[c.id]
    ensures NoDuplicates(r) && |r| == |children|
  {
    r := [];
    var left := children;
    while left != {}
      invariant left <= children
      invariant forall c :: c in r <==> c.id in children - left && c == store[c.id]
      invariant NoDuplicates(r) && |r| + |left| == |children|
      decreases |left|
    {
      var child :| child in left;
      r := r + [store[child]];
      left := left - {child};
    }
  }

  /** A lineage node as `get_children_per_first_parent` builds it: a merge
      carries, without repetition, exactly the stored commits its exploration
      reaches and accepts; any other commit carries none. */
  ghost predicate NodeFits(node: Node, store: map<Id, Commit>, fps: seq<Id>, cpp: map<Id, set<Id>>) {
    NoDuplicates(node.children)
    && (|node.commit.parents| <= 1 ==> node.children == [])
    && (|node.commit.parents| > 1 ==> forall c :: c in node.children <==>
          c.id in store && c == store[c.id]
          && MergedBy(node.commit, fps, cpp, c.id)
          && Reachable(store, fps, node.commit.id, c.id))
  }

  /** One iteration of `get_children_per_first_parent`, for a stored trunk
      commit. */
  method MergeNode(store: map<Id, Commit>, commit: Commit, fps: seq<Id>, cpp: map<Id, set<Id>>,
                   ghost rank: map<Id, nat>)
    returns (node: Node)
    requires IsRank(store, rank)
    requires forall x | x in store :: store[x].id == x
    requires commit.id in store && store[commit.id] == commit
    ensures node.commit == commit && NodeFits(node, store, fps, cpp)
  {
    var children: set<Id>;
    if |commit.parents| > 1 {
      children := GetMergedCommits(store, commit, fps, cpp, rank);
    } else {
      children := {};
    }
    var kids := ChildCommits(store, children);
    node := Node(commit, kids);
  }

  /** The loop invariant of `get_children_per_first_parent`: the nodes built
      so far belong, in order, to the stored trunk commits `ids`, and each
      one fits. */
  ghost predicate LineageFits(lineage: seq<Node>, ids: seq<Id>, store: map<Id, Commit>,
                              fps: seq<Id>, cpp: map<Id, set<Id>>) {
    |lineage| == |ids|
    && (forall i | 0 <= i < |ids| :: ids[i] in store && lineage[i].commit == store[ids[i]])
    && forall i | 0 <= i < |lineage| :: NodeFits(lineage[i], store, fps, cpp)
  }

  lemma ExtendLineage(lineage: seq<Node>, ids: seq<Id>, node: Node, x: Id,
                      store: map<Id, Commit>, fps: seq<Id>, cpp: map<Id, set<Id>>)
    requires LineageFits(lineage, ids, store, fps, cpp)
    requires x in store && node.commit == store[x] && NodeFits(node, store, fps, cpp)
    ensures LineageFits(lineage + [node], ids + [x], store, fps, cpp)
  {
  }

  /** `get_children_per_first_parent(repo_path)`, the ordered map as a
      sequence of nodes: every trunk commit the store holds, in trunk order,
      each with the commits its merge brought in. */
  method GetChildrenPerFirstParent(walk: seq<Commit>, store: map<Id, Commit>, ghost rank: map<Id, nat>)
    returns (lineage: seq<Node>)
    requires IsRank(store, rank)
    requires forall x | x in store :: store[x].id == x
    ensures var ids := StoredIn(TrunkAfter(walk).list, store);
      |lineage| == |ids| && forall i | 0 <= i < |ids| :: lineage[i].commit == store[ids[i]]
    ensures forall i | 0 <= i < |lineage| :: NodeFits(lineage[i], store, TrunkAfter(walk).list, ChildMap(walk))
  {
    var fps := GetFirstParents(walk);
    var cpp := GetChildrenPerParent(walk);
    lineage := [];
    ghost var ids: seq<Id> := [];
    for n := 0 to |fps|
      invariant ids == StoredIn(fps[..n], store)
      invariant LineageFits(lineage, ids, store, fps, cpp)
    {
      StoredInStep(fps, n, store);
      var firstParent := fps[n];
      if firstParent !in store {
        continue;
      }
      var node := MergeNode(store, store[firstParent], fps, cpp, rank);
      ExtendLineage(lineage, ids, node, firstParent, store, fps, cpp);
      lineage := lineage + [node];
      ids := ids + [firstParent];
    }
    assert fps[..|fps|] == fps;
  }
}
