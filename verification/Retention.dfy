/** Data retention: a recursive walk that deletes the files older than the retention of their folder. */
module Retention {
  import opened Options
  import opened Paths
  import opened Totals

  const HOUR := 3_600_000_000_000       // nanoseconds
  const MAX_RECURSION := 1000
  const LISTER_BATCH_SIZE := 1000

  datatype Entry = File(size: nat, modTime: int) | Directory
  type Tree = map<Path, Entry>

  /** A retention of 0 hours excludes the folder. */
  datatype FolderRetention = FolderRetention(path: Path, retention: nat, deleteEmptyDirs: bool)

  datatype FolderResult = FolderResult(path: Path, retention: nat, deletedFiles: nat, deletedSize: nat)

  // ---------------------------------------------------------------- which configuration governs a directory

  function ConfiguredAt(folders: seq<FolderRetention>, d: Path): Option<FolderRetention>
  {
    if folders == [] then None
    else if folders[0].path == d then Some(folders[0])
    else ConfiguredAt(folders[1..], d)
  }

  /** The configuration of the nearest configured directory at or above d. */
  function Governing(folders: seq<FolderRetention>, d: Path): Option<FolderRetention>
    decreases |d|
  {
    var here := ConfiguredAt(folders, d);
    if here.Some? || d == [] then here else Governing(folders, Dir(d))
  }

  /** Of the configured directories at or above d the governing one is the deepest, and the first with its path. */
  lemma {:induction false} GoverningIsNearest(folders: seq<FolderRetention>, d: Path)
    ensures var g := Governing(folders, d);
            if g.Some? then
              && g.value in folders && g.value.path <= d
              && (forall f <- folders :: f.path <= d ==> |f.path| <= |g.value.path|)
              && exists i :: 0 <= i < |folders| && folders[i] == g.value &&
                             forall j :: 0 <= j < i ==> folders[j].path != folders[i].path
            else
              forall f <- folders :: !(f.path <= d)
    decreases |d|
  {
    ConfiguredAtFinds(folders, d);
    if ConfiguredAt(folders, d).Some? {
      var i := ConfiguredIsFirst(folders, d);
    } else if d != [] {
      forall f <- folders | f.path <= d
        ensures f.path <= Dir(d)
      {
        PrefixOfDir(f.path, d);
      }
      GoverningIsNearest(folders, Dir(d));
    }
  }

  lemma {:induction false} ConfiguredIsFirst(folders: seq<FolderRetention>, d: Path) returns (i: nat)
    requires ConfiguredAt(folders, d).Some?
    ensures i < |folders| && folders[i] == ConfiguredAt(folders, d).value && folders[i].path == d
    ensures forall j :: 0 <= j < i ==> folders[j].path != d
  {
    if folders[0].path == d {
      i := 0;
    } else {
      var k := ConfiguredIsFirst(folders[1..], d);
      i := k + 1;
    }
  }

  lemma {:induction false} ConfiguredAtFinds(folders: seq<FolderRetention>, d: Path)
    ensures var r := ConfiguredAt(folders, d);
            if r.Some? then r.value in folders && r.value.path == d
            else forall f <- folders :: f.path != d
  {
    if folders != [] && folders[0].path != d {
      ConfiguredAtFinds(folders[1..], d);
      assert folders == [folders[0]] + folders[1..];
    }
  }

  lemma {:induction false} FirstConfigured(folders: seq<FolderRetention>, i: nat)
    requires i < |folders|
    requires forall k :: 0 <= k < i ==> folders[k].path != folders[i].path
    ensures ConfiguredAt(folders, folders[i].path) == Some(folders[i])
  {
    if i > 0 {
      assert folders[0].path != folders[i].path;
      FirstConfigured(folders[1..], i - 1);
    }
  }

  predicate IsCleaned(folders: seq<FolderRetention>, d: Path)
  {
    var g := Governing(folders, d);
    g.Some? && g.value.retention > 0
  }

  // ---------------------------------------------------------------- which files must go

  predicate IsExpired(modTime: int, retention: nat, now: int)
  {
    modTime + retention * HOUR < now
  }

  /** The file's nearest configured ancestor has a positive retention that has passed. */
  predicate IsDoomed(folders: seq<FolderRetention>, now: int, tree: Tree, p: Path)
    requires p in tree
  {
    tree[p].File? && IsCleaned(folders, Dir(p)) &&
    IsExpired(tree[p].modTime, Governing(folders, Dir(p)).value.retention, now)
  }

  /** The file was modified longer ago than the hours its nearest configuration keeps it. */
  predicate IsOutdated(folders: seq<FolderRetention>, now: int, tree: Tree, p: Path)
    requires p in tree && tree[p].File?
  {
    var g := Governing(folders, Dir(p));
    g.Some? && g.value.retention > 0 && now - tree[p].modTime > g.value.retention * 3_600_000_000_000
  }

  lemma DoomedIffOutdated(folders: seq<FolderRetention>, now: int, tree: Tree)
    ensures forall p :: p in tree && tree[p].File? ==>
              (IsDoomed(folders, now, tree, p) <==> IsOutdated(folders, now, tree, p))
  {
  }

  /** A walk starting at `from` comes by p: no directory on the way is excluded. */
  ghost predicate IsReached(folders: seq<FolderRetention>, from: Path, p: Path)
  {
    from < p && forall d :: from <= d <= Dir(p) ==> IsCleaned(folders, d)
  }

  /** The walk that starts at the governing folder of a doomed file reaches it. */
  lemma {:induction false} GoverningFolderReaches(folders: seq<FolderRetention>, d: Path, from: Path)
    requires IsCleaned(folders, d) && from == Governing(folders, d).value.path
    ensures Governing(folders, d).value in folders && from <= d
    ensures forall e :: from <= e <= d ==> Governing(folders, e) == Governing(folders, d)
    decreases |d|
  {
    ConfiguredAtFinds(folders, d);
    if ConfiguredAt(folders, d).Some? {
      forall e | from <= e <= d
        ensures Governing(folders, e) == Governing(folders, d)
      {
        assert e == d;
      }
    } else {
      GoverningFolderReaches(folders, Dir(d), from);
      forall e | from <= e <= d
        ensures Governing(folders, e) == Governing(folders, d)
      {
        if e != d {
          PrefixOfDir(e, d);
        }
      }
    }
  }

  // ---------------------------------------------------------------- the tree

  predicate HasParent(tree: Tree, p: Path)
  {
    Dir(p) in tree && tree[Dir(p)].Directory?
  }

  ghost predicate WellFormed(tree: Tree)
  {
    && ([] in tree ==> tree[[]].Directory?)
    && forall p {:trigger HasParent(tree, p)} :: p in tree && p != [] ==> HasParent(tree, p)
  }

  ghost predicate IsPartOf(part: Tree, tree: Tree)
  {
    forall p :: p in part ==> p in tree && part[p] == tree[p]
  }

  lemma {:induction false} AncestorInTree(tree: Tree, a: Path, p: Path)
    requires WellFormed(tree) && p in tree && a < p
    ensures a in tree && tree[a].Directory?
    decreases |p|
  {
    assert HasParent(tree, p);
    if a != Dir(p) {
      AncestorInTree(tree, a, Dir(p));
    }
  }

  ghost function Sizes(tree: Tree): map<Path, int>
  {
    map p | p in tree && tree[p].File? :: tree[p].size
  }

  ghost function DeletedSize(results: seq<FolderResult>): int
  {
    if results == [] then 0 else DeletedSize(results[..|results| - 1]) + results[|results| - 1].deletedSize
  }

  ghost function DeletedFiles(results: seq<FolderResult>): int
  {
    if results == [] then 0 else DeletedFiles(results[..|results| - 1]) + results[|results| - 1].deletedFiles
  }

  lemma RemovedFile(tree: Tree, p: Path)
    requires WellFormed(tree) && p in tree && tree[p].File?
    ensures WellFormed(tree - {p})
    ensures |Sizes(tree)| == |Sizes(tree - {p})| + 1
    ensures Total(Sizes(tree)) == Total(Sizes(tree - {p})) + tree[p].size
  {
    assert Sizes(tree - {p}) == Sizes(tree) - {p};
    assert (Sizes(tree) - {p}).Keys == Sizes(tree).Keys - {p};
    TotalRemove(Sizes(tree), p);
    forall q | q in tree - {p} && q != []
      ensures HasParent(tree - {p}, q)
    {
      assert HasParent(tree, q);
    }
  }

  lemma RemovedEmptyDir(tree: Tree, d: Path)
    requires WellFormed(tree) && d in tree && tree[d].Directory?
    requires forall p :: p in tree && p != [] ==> Dir(p) != d
    ensures WellFormed(tree - {d})
    ensures Sizes(tree - {d}) == Sizes(tree)
  {
    forall q | q in tree - {d} && q != []
      ensures HasParent(tree - {d}, q)
    {
      assert HasParent(tree, q);
    }
  }

  // ---------------------------------------------------------------- the check

  ghost predicate IsListed(entries: seq<(string, Entry)>, folder: Path, p: Path)
  {
    exists i :: 0 <= i < |entries| && folder + [entries[i].0] == p
  }

  /** One directory listing: every entry once, in any order. */
  ghost predicate Lists(entries: seq<(string, Entry)>, tree: Tree, folder: Path)
  {
    && (forall i, j :: 0 <= i < j < |entries| ==> entries[i].0 != entries[j].0)
    && (forall i :: 0 <= i < |entries| ==>
        folder + [entries[i].0] in tree && tree[folder + [entries[i].0]] == entries[i].1)
    && (forall p :: p in tree && p != [] && Dir(p) == folder ==> IsListed(entries, folder, p))
  }

  predicate IsEmptyDir(tree: Tree, folder: Path)
  {
    folder in tree && tree[folder].Directory? && forall p <- tree :: p != [] ==> Dir(p) != folder
  }

  datatype State = State(tree: Tree, results: seq<FolderResult>)

  /** No doomed file is left where a walk from `from` comes by. */
  ghost predicate IsClean(folders: seq<FolderRetention>, now: int, tree: Tree, from: Path)
  {
    forall p :: p in tree && IsReached(folders, from, p) ==> !IsDoomed(folders, now, tree, p)
  }

  /** An empty directory may be removed: not the root or a configured one, and where its configuration says so. */
  predicate MayVanish(folders: seq<FolderRetention>, p: Path)
  {
    && p != [] && (forall f <- folders :: f.path != p)
    && IsCleaned(folders, p) && Governing(folders, p).value.deleteEmptyDirs
  }

  /** Only doomed files and directories that may vanish were deleted, all of them below `from`. */
  ghost predicate Deletes(folders: seq<FolderRetention>, now: int, from: Path, before: Tree, after: Tree)
  {
    && IsPartOf(after, before)
    && (forall p :: p in before && p !in after ==> from <= p)
    && (forall p :: p in before && p !in after && before[p].File? ==> IsDoomed(folders, now, before, p))
    && (forall p :: p in before && p !in after && before[p].Directory? ==> MayVanish(folders, p))
  }

  /** Everything that was deleted is where a walk from `from` comes by. */
  ghost predicate DeletesReached(folders: seq<FolderRetention>, from: Path, before: Tree, after: Tree)
  {
    forall p :: p in before && p !in after ==> (p == from && before[p].Directory?) || IsReached(folders, from, p)
  }

  /** Where a walk from `from` comes by, no directory that may vanish is left empty. */
  ghost predicate IsTidy(folders: seq<FolderRetention>, tree: Tree, from: Path)
  {
    forall p :: p in tree && (p == from || IsReached(folders, from, p)) && MayVanish(folders, p) ==>
      !IsEmptyDir(tree, p)
  }

  /** The new results, with what is pending, report the number and the size of the files that are gone. */
  ghost predicate Reports(s: State, t: State, pending: FolderResult)
  {
    && DeletedFiles(t.results) + pending.deletedFiles + |Sizes(t.tree)| == DeletedFiles(s.results) + |Sizes(s.tree)|
    && DeletedSize(t.results) + pending.deletedSize + Total(Sizes(t.tree)) ==
       DeletedSize(s.results) + Total(Sizes(s.tree))
  }

  ghost predicate Shrunk(folders: seq<FolderRetention>, now: int, from: Path, s: State, t: State, pending: FolderResult)
  {
    WellFormed(t.tree) && Deletes(folders, now, from, s.tree, t.tree) && Reports(s, t, pending)
  }

  ghost function Nothing(path: Path): FolderResult
  {
    FolderResult(path, 0, 0, 0)
  }

  lemma ShrunkTwice(folders: seq<FolderRetention>, now: int, from: Path, below: Path, s: State, t: State, u: State,
                    pending: FolderResult)
    requires Shrunk(folders, now, from, s, t, pending) && Shrunk(folders, now, below, t, u, Nothing(below))
    requires from <= below
    ensures Shrunk(folders, now, from, s, u, pending)
  {
    DeletesMore(folders, now, from, below, s.tree, t.tree, u.tree);
    hide Deletes, WellFormed, Total, Sizes, DeletedFiles, DeletedSize;
  }

  lemma DeletesMore(folders: seq<FolderRetention>, now: int, from: Path, below: Path, s: Tree, t: Tree, u: Tree)
    requires Deletes(folders, now, from, s, t) && Deletes(folders, now, below, t, u) && from <= below
    ensures Deletes(folders, now, from, s, u)
  {
    hide Governing;
  }

  lemma ShrunkBelow(folders: seq<FolderRetention>, now: int, from: Path, s: State, t: State, pending: FolderResult)
    requires Shrunk(folders, now, from, s, t, pending)
    ensures IsPartOf(t.tree, s.tree) && forall p :: p in s.tree && p !in t.tree ==> from <= p
  {
    hide WellFormed, Reports, IsDoomed, MayVanish;
  }

  lemma DoomedAlike(folders: seq<FolderRetention>, now: int, tree: Tree, part: Tree, p: Path)
    requires p in tree && p in part && tree[p] == part[p]
    ensures IsDoomed(folders, now, tree, p) == IsDoomed(folders, now, part, p)
  {
  }

  lemma ShrunkByFile(folders: seq<FolderRetention>, now: int, from: Path, s: State, t: State, p: Path,
                     pending: FolderResult)
    requires Shrunk(folders, now, from, s, t, pending)
    requires p in t.tree && from <= p && IsDoomed(folders, now, t.tree, p)
    ensures Shrunk(folders, now, from, s, t.(tree := t.tree - {p}),
                   pending.(deletedFiles := pending.deletedFiles + 1,
                       deletedSize := pending.deletedSize + t.tree[p].size))
  {
    RemovedFile(t.tree, p);
    DeletesFile(folders, now, from, t.tree, p);
    DeletesMore(folders, now, from, from, s.tree, t.tree, t.tree - {p});
    hide Deletes, MayVanish, IsDoomed, WellFormed, Total, Sizes, DeletedFiles, DeletedSize;
  }

  lemma DeletesFile(folders: seq<FolderRetention>, now: int, from: Path, tree: Tree, p: Path)
    requires p in tree && from <= p
    requires if tree[p].File? then IsDoomed(folders, now, tree, p) else MayVanish(folders, p)
    ensures Deletes(folders, now, from, tree, tree - {p})
  {
  }

  lemma ShrunkByResult(folders: seq<FolderRetention>, now: int, from: Path, s: State, t: State, pending: FolderResult)
    requires Shrunk(folders, now, from, s, t, pending)
    ensures Shrunk(folders, now, from, s, t.(results := t.results + [pending]), Nothing(from))
  {
    assert (t.results + [pending])[..|t.results|] == t.results;
    hide Deletes, WellFormed, Total, Sizes;
  }

  lemma ShrunkByEmptyDir(folders: seq<FolderRetention>, now: int, from: Path, s: State, t: State, pending: FolderResult)
    requires Shrunk(folders, now, from, s, t, pending)
    requires from in t.tree && t.tree[from].Directory? && MayVanish(folders, from)
    requires forall p :: p in t.tree && p != [] ==> Dir(p) != from
    ensures Shrunk(folders, now, from, s, t.(tree := t.tree - {from}), pending)
  {
    RemovedEmptyDir(t.tree, from);
    DeletesFile(folders, now, from, t.tree, from);
    DeletesMore(folders, now, from, from, s.tree, t.tree, t.tree - {from});
    hide Deletes, WellFormed, Total, Sizes, DeletedFiles, DeletedSize;
  }

  lemma CleanStaysClean(folders: seq<FolderRetention>, now: int, tree: Tree, part: Tree, from: Path)
    requires IsClean(folders, now, tree, from) && IsPartOf(part, tree)
    ensures IsClean(folders, now, part, from)
  {
    hide Governing;
  }

  /** The entry of `folder` called `name` holds nothing more to delete. */
  ghost predicate ChildDone(folders: seq<FolderRetention>, now: int, tree: Tree, child: Path, entry: Entry)
  {
    match entry
    case Directory => IsClean(folders, now, tree, child)
    case File(_, _) => child in tree && tree[child] == entry ==> !IsDoomed(folders, now, tree, child)
  }

  /** The entries listed from position i on are still there; those before it are done. */
  ghost predicate Progress(folders: seq<FolderRetention>, now: int, tree: Tree, folder: Path,
                           entries: seq<(string, Entry)>, i: nat)
  {
    && i <= |entries|
    && (forall j :: 0 <= j < i ==> ChildDone(folders, now, tree, folder + [entries[j].0], entries[j].1))
    && (forall j :: i <= j < |entries| ==>
        folder + [entries[j].0] in tree && tree[folder + [entries[j].0]] == entries[j].1)
  }

  lemma ProgressStep(folders: seq<FolderRetention>, now: int, tree: Tree, tree': Tree, folder: Path,
                     entries: seq<(string, Entry)>, i: nat)
    requires Progress(folders, now, tree, folder, entries, i) && i < |entries|
    requires forall j, k :: 0 <= j < k < |entries| ==> entries[j].0 != entries[k].0
    requires IsPartOf(tree', tree)
    requires forall p :: p in tree && p !in tree' ==> folder + [entries[i].0] <= p
    requires ChildDone(folders, now, tree', folder + [entries[i].0], entries[i].1)
    ensures Progress(folders, now, tree', folder, entries, i + 1)
  {
    hide IsClean, IsDoomed;
    forall j | 0 <= j < i
      ensures ChildDone(folders, now, tree', folder + [entries[j].0], entries[j].1)
    {
      ChildStaysDone(folders, now, tree, tree', folder + [entries[j].0], entries[j].1);
    }
    forall j | i < j < |entries|
      ensures folder + [entries[j].0] in tree'
    {
      var p, q := folder + [entries[i].0], folder + [entries[j].0];
      assert p[|folder|] != q[|folder|];
    }
  }

  lemma ChildStaysDone(folders: seq<FolderRetention>, now: int, tree: Tree, tree': Tree, child: Path, entry: Entry)
    requires ChildDone(folders, now, tree, child, entry) && IsPartOf(tree', tree)
    ensures ChildDone(folders, now, tree', child, entry)
  {
    match entry {
      case Directory => CleanStaysClean(folders, now, tree, tree', child);
      case File(_, _) =>
    }
  }

  /** Once all the listed entries are done the whole folder is clean. */
  lemma AllChildrenDone(folders: seq<FolderRetention>, now: int, listed: Tree, tree: Tree, folder: Path,
                        entries: seq<(string, Entry)>)
    requires Lists(entries, listed, folder) && IsPartOf(tree, listed) && WellFormed(tree)
    requires Progress(folders, now, tree, folder, entries, |entries|)
    ensures IsClean(folders, now, tree, folder)
  {
    hide IsCleaned;
    forall p | p in tree && IsReached(folders, folder, p)
      ensures !IsDoomed(folders, now, tree, p)
    {
      hide IsDoomed;
      var child := p[..|folder| + 1];
      assert child <= p && Dir(child) == folder;
      if child < p {
        AncestorInTree(tree, child, p);
        assert IsReached(folders, child, p);
      }
      assert IsListed(entries, folder, child);
      var j :| 0 <= j < |entries| && folder + [entries[j].0] == child;
      assert ChildDone(folders, now, tree, folder + [entries[j].0], entries[j].1);
    }
  }

  /** The listed directories before position i are tidy. */
  ghost predicate AreTidy(folders: seq<FolderRetention>, tree: Tree, folder: Path, entries: seq<(string, Entry)>,
                          i: nat)
  {
    forall j :: 0 <= j < i && j < |entries| && entries[j].1.Directory? ==>
      IsTidy(folders, tree, folder + [entries[j].0])
  }

  lemma SomeChild(tree: Tree, p: Path) returns (q: Path)
    requires p in tree && tree[p].Directory? && !IsEmptyDir(tree, p)
    ensures q in tree && q != [] && Dir(q) == p
  {
    q :| q in tree && q != [] && Dir(q) == p;
  }

  /** Deleting below another entry leaves a tidy directory tidy. */
  lemma TidyStaysTidy(folders: seq<FolderRetention>, tree: Tree, tree': Tree, child: Path, other: Path)
    requires IsTidy(folders, tree, child) && IsPartOf(tree', tree)
    requires forall p :: p in tree && p !in tree' ==> other <= p
    requires |child| == |other| && child != other
    ensures IsTidy(folders, tree', child)
  {
    hide Governing, MayVanish, IsCleaned;
    forall p | p in tree' && (p == child || IsReached(folders, child, p)) && MayVanish(folders, p)
      ensures !IsEmptyDir(tree', p)
    {
      if tree[p].Directory? {
        var q := SomeChild(tree, p);
        assert child <= p <= q && !(other <= q);
        assert q in tree';
      }
    }
  }

  lemma TidyStep(folders: seq<FolderRetention>, tree: Tree, tree': Tree, folder: Path, entries: seq<(string, Entry)>,
                 i: nat)
    requires AreTidy(folders, tree, folder, entries, i) && i < |entries|
    requires forall j, k :: 0 <= j < k < |entries| ==> entries[j].0 != entries[k].0
    requires IsPartOf(tree', tree)
    requires forall p :: p in tree && p !in tree' ==> folder + [entries[i].0] <= p
    requires entries[i].1.Directory? ==> IsTidy(folders, tree', folder + [entries[i].0])
    ensures AreTidy(folders, tree', folder, entries, i + 1)
  {
    hide IsTidy, IsPartOf;
    forall j | 0 <= j < i && entries[j].1.Directory?
      ensures IsTidy(folders, tree', folder + [entries[j].0])
    {
      var child, other := folder + [entries[j].0], folder + [entries[i].0];
      assert child[|folder|] != other[|folder|];
      TidyStaysTidy(folders, tree, tree', child, other);
    }
  }

  /** The entry of a folder that a walk goes through to reach p. */
  lemma OnTheWay(folders: seq<FolderRetention>, tree: Tree, folder: Path, p: Path) returns (child: Path)
    requires WellFormed(tree) && p in tree && IsReached(folders, folder, p)
    ensures child in tree && child != [] && Dir(child) == folder && child <= p
    ensures child < p ==> tree[child].Directory? && IsReached(folders, child, p)
  {
    hide IsCleaned;
    child := p[..|folder| + 1];
    assert Dir(child) == folder;
    if child < p {
      AncestorInTree(tree, child, p);
    } else {
      assert child == p;
    }
  }

  /** Once all the entries are tidy, and the folder itself is gone, not empty or may not vanish, all of it is tidy. */
  lemma AllTidy(folders: seq<FolderRetention>, listed: Tree, tree: Tree, folder: Path, entries: seq<(string, Entry)>)
    requires Lists(entries, listed, folder) && IsPartOf(tree, listed) && WellFormed(tree)
    requires AreTidy(folders, tree, folder, entries, |entries|)
    requires MayVanish(folders, folder) ==> !IsEmptyDir(tree, folder)
    ensures IsTidy(folders, tree, folder)
  {
    hide IsCleaned, MayVanish, IsEmptyDir, WellFormed;
    forall p | p in tree && IsReached(folders, folder, p) && MayVanish(folders, p)
      ensures !IsEmptyDir(tree, p)
    {
      var child := OnTheWay(folders, tree, folder, p);
      assert IsListed(entries, folder, child);
      var j :| 0 <= j < |entries| && folder + [entries[j].0] == child;
      if tree[child].Directory? {
        assert IsTidy(folders, tree, folder + [entries[j].0]);
      } else {
        FileIsNoDir(tree, p);
      }
    }
  }

  lemma FileIsNoDir(tree: Tree, p: Path)
    requires p in tree && tree[p].File?
    ensures !IsEmptyDir(tree, p)
  {
  }

  /** A later walk from another configured folder leaves the first one tidy. */
  lemma OtherWalkStaysTidy(folders: seq<FolderRetention>, tree: Tree, tree': Tree, from: Path, other: Path)
    requires IsTidy(folders, tree, from) && IsPartOf(tree', tree)
    requires DeletesReached(folders, other, tree, tree') && IsTidy(folders, tree', other)
    requires other in tree && tree[other].Directory? ==> other in tree'
    requires exists f <- folders :: f.path == other
    ensures IsTidy(folders, tree', from)
  {
    hide Governing, IsCleaned;
    forall p | p in tree' && (p == from || IsReached(folders, from, p)) && MayVanish(folders, p)
      ensures !IsEmptyDir(tree', p)
    {
      if tree[p].Directory? {
        var q := SomeChild(tree, p);
        if q !in tree' && q != other {
          assert IsReached(folders, other, q) && other <= p && p != other;
          ReachedUpTo(folders, other, q);
        }
      }
    }
  }

  lemma ReachedTwice(folders: seq<FolderRetention>, from: Path, s: Tree, t: Tree, u: Tree)
    requires DeletesReached(folders, from, s, t) && DeletesReached(folders, from, t, u) && IsPartOf(t, s)
    ensures DeletesReached(folders, from, s, u)
  {
    hide IsReached;
  }

  lemma ReachedUpTo(folders: seq<FolderRetention>, from: Path, q: Path)
    requires IsReached(folders, from, q) && Dir(q) != from
    ensures IsReached(folders, from, Dir(q))
  {
    hide IsCleaned;
  }

  lemma ReachedBelow(folders: seq<FolderRetention>, folder: Path, name: string, before: Tree, after: Tree)
    requires IsCleaned(folders, folder) && DeletesReached(folders, folder + [name], before, after)
    ensures DeletesReached(folders, folder, before, after)
  {
    hide IsCleaned;
    var child := folder + [name];
    assert Dir(child) == folder;
    forall p | p in before && p !in after
      ensures IsReached(folders, folder, p)
    {
      forall d | folder <= d <= Dir(p)
        ensures IsCleaned(folders, d)
      {
        assert d == folder || child <= d;
      }
    }
  }

  /** What fails, or is denied: listing a directory, or one of its batches, and removing a file or a directory. */
  datatype Faults = Faults(listing: set<Path>, batches: set<(Path, nat)>, removal: set<Path>)

  const NO_FAULTS := Faults({}, {}, {})

  /** Where a walk cannot fail: no operation fails, a configured folder is a directory, and none is nested too deep. */
  ghost predicate CanFinish(folders: seq<FolderRetention>, faults: Faults, tree: Tree, folder: Path, recursion: nat)
  {
    && faults == NO_FAULTS && Governing(folders, folder).Some? && recursion < 1_000
    && (folder in tree ==> tree[folder].Directory?)
    && forall p :: p in tree && folder <= p && tree[p].Directory? ==> recursion + |p| - |folder| < 1_000
  }

  lemma CanFinishBelow(folders: seq<FolderRetention>, faults: Faults, tree: Tree, folder: Path, name: string,
                       recursion: nat)
    requires CanFinish(folders, faults, tree, folder, recursion)
    requires folder + [name] in tree && tree[folder + [name]].Directory?
    ensures CanFinish(folders, faults, tree, folder + [name], recursion + 1)
  {
    var p := folder + [name];
    assert Dir(p) == folder && folder <= p;
  }

  lemma CanStillFinish(folders: seq<FolderRetention>, faults: Faults, tree: Tree, part: Tree, folder: Path,
                       recursion: nat)
    requires CanFinish(folders, faults, tree, folder, recursion) && IsPartOf(part, tree)
    ensures CanFinish(folders, faults, part, folder, recursion)
  {
  }

  class RetentionCheck {
    const folders: seq<FolderRetention>
    const now: int
    const faults: Faults
    var tree: Tree
    var results: seq<FolderResult>

    constructor (folders: seq<FolderRetention>, now: int, faults: Faults, tree: Tree)
      ensures this.folders == folders && this.now == now && this.tree == tree && this.results == []
      ensures this.faults == faults
    {
      this.folders, this.now, this.faults, this.tree, this.results := folders, now, faults, tree, [];
    }

    ghost function Now(): State
      reads this
    {
      State(tree, results)
    }

    /** The deepest-first scan over the ancestors finds the governing configuration. */
    method GetFolderRetention(folderPath: Path) returns (r: Option<FolderRetention>)
      ensures r == Governing(folders, folderPath)
    {
      var dirs := GetDirsForVirtualPath(folderPath);
      assert dirs[0] == folderPath;
      for i := 0 to |dirs|
        invariant i < |dirs| ==> Governing(folders, folderPath) == Governing(folders, dirs[i])
        invariant i == |dirs| ==> Governing(folders, folderPath).None?
      {
        for k := 0 to |folders|
          invariant forall j :: 0 <= j < k ==> folders[j].path != dirs[i]
        {
          if folders[k].path == dirs[i] {
            FirstConfigured(folders, k);
            return Some(folders[k]);
          }
        }
        ConfiguredAtFinds(folders, dirs[i]);
        if i + 1 < |dirs| {
          assert dirs[i + 1] == Dir(dirs[i]);
        }
      }
      return None;
    }

    lemma ListedAfter(entries: seq<(string, Entry)>, folder: Path, entry: (string, Entry))
      ensures IsListed(entries + [entry], folder, folder + [entry.0])
      ensures forall q :: IsListed(entries, folder, q) ==> IsListed(entries + [entry], folder, q)
    {
      var longer := entries + [entry];
      assert longer[|entries|] == entry;
      forall q | IsListed(entries, folder, q)
        ensures IsListed(longer, folder, q)
      {
        var i :| 0 <= i < |entries| && folder + [entries[i].0] == q;
        assert longer[i] == entries[i];
      }
    }

    /** Lists a directory; listing can fail, and a missing directory is told apart. */
    method ListDir(folder: Path) returns (exists_: bool, ok: bool, entries: seq<(string, Entry)>)
      requires WellFormed(tree)
      ensures exists_ <==> folder in tree
      ensures ok <==> folder in tree && tree[folder].Directory? && folder !in faults.listing
      ensures ok ==> Lists(entries, tree, folder)
    {
      exists_, ok, entries := folder in tree, false, [];
      if folder in faults.listing || folder !in tree || tree[folder].File? {
        return;
      }
      var all := set p | p in tree && p != [] && Dir(p) == folder;
      var rest := all;
      while rest != {}
        invariant rest <= all
        invariant forall i :: 0 <= i < |entries| ==>
          folder + [entries[i].0] in all && folder + [entries[i].0] !in rest
              && tree[folder + [entries[i].0]] == entries[i].1
        invariant forall i, j :: 0 <= i < j < |entries| ==> entries[i].0 != entries[j].0
        invariant forall p :: p in all && p !in rest ==> IsListed(entries, folder, p)
        decreases rest
      {
        hide WellFormed, Lists, IsListed;
        var p :| p in rest;
        var name := p[|p| - 1];
        assert folder + [name] == p;
        ListedAfter(entries, folder, (name, tree[p]));
        entries := entries + [(name, tree[p])];
        rest := rest - {p};
      }
      forall p | p in tree && p != [] && Dir(p) == folder
        ensures IsListed(entries, folder, p)
      {
        assert p in all;
      }
      ok := true;
    }

    /** Removes an expired file; the removal can be denied. */
    method RemoveFile(p: Path) returns (ok: bool)
      requires p in tree
      modifies `tree
      ensures ok <==> p !in faults.removal
      ensures tree == if ok then old(tree) - {p} else old(tree)
    {
      ok := p !in faults.removal;
      if ok {
        tree := tree - {p};
      }
    }

    /** Removes the directory only if it is empty, is not the root and is not itself configured. */
    method CheckEmptyDirRemoval(folder: Path, checkVal: bool, ghost start: State, ghost pending: FolderResult)
      requires Shrunk(folders, now, folder, start, Now(), pending)
      requires IsCleaned(folders, folder) && checkVal == Governing(folders, folder).value.deleteEmptyDirs
      modifies `tree
      ensures Shrunk(folders, now, folder, start, Now(), pending) && IsPartOf(tree, old(tree))
      ensures tree == if checkVal && folder != [] && (forall f <- folders :: f.path != folder) &&
                         IsEmptyDir(old(tree), folder) && folder !in faults.removal
                      then old(tree) - {folder} else old(tree)
    {
      hide Shrunk;
      if folder == [] || !checkVal {
        return;
      }
      for i := 0 to |folders|
        invariant forall j :: 0 <= j < i ==> folders[j].path != folder
      {
        if folders[i].path == folder {
          return;
        }
      }
      if IsEmptyDir(tree, folder) && folder !in faults.removal {
        ShrunkByEmptyDir(folders, now, folder, start, Now(), pending);
        tree := tree - {folder};
      }
    }

    /** Walks one directory, deleting what has expired and descending into its directories. */
    method WalkFolder(folder: Path, recursion: nat) returns (ok: bool, result: FolderResult)
      requires WellFormed(tree) && recursion <= MAX_RECURSION
      modifies `tree, `results
      ensures Shrunk(folders, now, folder, old(Now()), Now(), result)
      ensures ok ==> IsClean(folders, now, tree, folder)
      ensures DeletesReached(folders, folder, old(tree), tree)
      ensures ok && faults.removal == {} ==> IsTidy(folders, tree, folder)
      ensures old(CanFinish(folders, faults, tree, folder, recursion)) ==> ok
      ensures recursion >= 1_000 || Governing(folders, folder).None? ==> !ok && result.retention == 0
      ensures recursion < 1_000 && Governing(folders, folder).Some? ==>
                result.retention == Governing(folders, folder).value.retention
      ensures result.path == folder
      decreases MAX_RECURSION - recursion, 1
    {
      ghost var canFinish := CanFinish(folders, faults, tree, folder, recursion);
      assert canFinish ==> faults == NO_FAULTS && Governing(folders, folder).Some? && recursion < MAX_RECURSION;
      assert canFinish && folder in tree ==> tree[folder].Directory?;
      CleanedMeans(folder);
      hide Shrunk, IsClean, Progress, IsDoomed, WellFormed, CanFinish, IsPartOf, IsTidy, AreTidy, DeletesReached;
      hide Governing, IsCleaned, MayVanish, IsEmptyDir;
      ghost var start := Now();
      NothingReached(folder, tree);
      result := FolderResult(folder, 0, 0, 0);
      ok := false;
      NothingShrunk(folder);
      if recursion >= MAX_RECURSION {
        return;
      }
      var retention := GetFolderRetention(folder);
      if retention.None? {
        return;
      }
      result := result.(retention := retention.value.retention);
      SamePending(folder, start, result);
      if retention.value.retention == 0 {
        ExcludedIsClean(folder);
        ExcludedIsTidy(folder);
        return true, result;
      }
      var exists_, listed, entries := ListDir(folder);
      if !exists_ {
        MissingIsClean(folder);
        MissingIsTidy(folder);
        return true, result;
      }
      if !listed {
        return;
      }
      ghost var listing := tree;
      NothingDone(folder, entries);
      var done: bool;
      done, result := WalkEntries(folder, recursion, entries, result, start);
      if !done {
        return;
      }
      AllChildrenDone(folders, now, listing, tree, folder, entries);
      ghost var walked := tree;
      CheckEmptyDirRemoval(folder, retention.value.deleteEmptyDirs, start, result);
      EmptyRemoved(folder, listing, walked, entries);
      CleanStaysClean(folders, now, walked, tree, folder);
      ok := true;
    }

    /** The entries of a listed folder, in batches. */
    method WalkEntries(folder: Path, recursion: nat, entries: seq<(string, Entry)>, pending: FolderResult,
                       ghost start: State)
      returns (ok: bool, result: FolderResult)
      requires WellFormed(tree) && recursion < MAX_RECURSION && Lists(entries, tree, folder)
      requires Shrunk(folders, now, folder, start, Now(), pending)
      requires Progress(folders, now, tree, folder, entries, 0)
      requires Governing(folders, folder).Some? && 0 < pending.retention == Governing(folders, folder).value.retention
      modifies `tree, `results
      ensures Shrunk(folders, now, folder, start, Now(), result) && IsPartOf(tree, old(tree)) && WellFormed(tree)
      ensures ok ==> Progress(folders, now, tree, folder, entries, |entries|)
      ensures DeletesReached(folders, folder, old(tree), tree)
      ensures ok && faults.removal == {} ==> AreTidy(folders, tree, folder, entries, |entries|)
      ensures result.retention == pending.retention && result.path == pending.path
      ensures old(CanFinish(folders, faults, tree, folder, recursion)) ==> ok
      decreases MAX_RECURSION - recursion, 0
    {
      ghost var canFinish := CanFinish(folders, faults, tree, folder, recursion);
      assert canFinish ==> faults == NO_FAULTS;
      NothingReached(folder, tree);
      NothingTidy(folder, entries);
      hide Shrunk, IsClean, Progress, IsDoomed, WellFormed, CanFinish, IsPartOf, IsTidy, AreTidy, DeletesReached;
      hide Governing, IsCleaned, MayVanish, IsEmptyDir;
      ghost var listing := tree;
      ok, result := false, pending;
      SamePart(tree);
      var batch := 0;
      while batch < |entries|
        invariant 0 <= batch <= |entries|
        invariant Shrunk(folders, now, folder, start, Now(), result) && IsPartOf(tree, listing) && WellFormed(tree)
        invariant Progress(folders, now, tree, folder, entries, batch)
        invariant DeletesReached(folders, folder, listing, tree)
        invariant faults.removal == {} ==> AreTidy(folders, tree, folder, entries, batch)
        invariant result.retention == pending.retention && result.path == pending.path
      {
        if (folder, batch) in faults.batches {
          return;
        }
        var end := if batch + LISTER_BATCH_SIZE <= |entries| then batch + LISTER_BATCH_SIZE else |entries|;
        for i := batch to end
          invariant Shrunk(folders, now, folder, start, Now(), result) && IsPartOf(tree, listing) && WellFormed(tree)
          invariant Progress(folders, now, tree, folder, entries, i)
          invariant DeletesReached(folders, folder, listing, tree)
          invariant faults.removal == {} ==> AreTidy(folders, tree, folder, entries, i)
          invariant result.retention == pending.retention && result.path == pending.path
        {
          var done: bool;
          if canFinish {
            CanStillFinish(folders, faults, listing, tree, folder, recursion);
          }
          ghost var before := tree;
          done, result := WalkEntry(folder, recursion + 1, entries, i, result, start);
          ReachedTwice(folders, folder, listing, before, tree);
          PartOfPart(tree, before, listing);
          if !done {
            return;
          }
        }
        batch := end;
      }
      ok := true;
    }

    lemma NothingTidy(folder: Path, entries: seq<(string, Entry)>)
      ensures AreTidy(folders, tree, folder, entries, 0)
    {
    }

    lemma SamePart(tree: Tree)
      ensures IsPartOf(tree, tree)
    {
    }

    lemma PartOfPart(s: Tree, t: Tree, u: Tree)
      requires IsPartOf(s, t) && IsPartOf(t, u)
      ensures IsPartOf(s, u)
    {
    }

    /** Handles one listed entry: a directory is walked, an expired file is removed. */
    method WalkEntry(folder: Path, recursion: nat, entries: seq<(string, Entry)>, i: nat, pending: FolderResult,
                     ghost start: State)
      returns (ok: bool, result: FolderResult)
      requires WellFormed(tree) && recursion <= MAX_RECURSION && i < |entries|
      requires Shrunk(folders, now, folder, start, Now(), pending)
      requires Progress(folders, now, tree, folder, entries, i)
      requires forall j, k :: 0 <= j < k < |entries| ==> entries[j].0 != entries[k].0
      requires Governing(folders, folder).Some? && 0 < pending.retention == Governing(folders, folder).value.retention
      modifies `tree, `results
      ensures Shrunk(folders, now, folder, start, Now(), result) && IsPartOf(tree, old(tree)) && WellFormed(tree)
      ensures ok ==> Progress(folders, now, tree, folder, entries, i + 1)
      ensures result.retention == pending.retention && result.path == pending.path
      ensures recursion > 0 && old(CanFinish(folders, faults, tree, folder, recursion - 1)) ==> ok
      ensures DeletesReached(folders, folder, old(tree), tree)
      ensures ok && faults.removal == {} && AreTidy(folders, old(tree), folder, entries, i) ==>
                AreTidy(folders, tree, folder, entries, i + 1)
      decreases MAX_RECURSION - recursion, 3
    {
      ghost var canFinish := recursion > 0 && CanFinish(folders, faults, tree, folder, recursion - 1);
      EntryToHandle(folder, entries, i, pending);
      hide Governing, CanFinish, MayVanish, IsEmptyDir, AreTidy, DeletesReached, IsClean, Progress, Shrunk, WellFormed;
      hide IsDoomed, Sizes, Total, IsExpired, IsCleaned, ChildDone, IsTidy;
      ghost var before := Now();
      var p := folder + [entries[i].0];
      var info := entries[i].1;
      result, ok := pending, true;
      assert Dir(p) == folder;
      match info {
        case Directory =>
          if canFinish {
            CanFinishBelow(folders, faults, tree, folder, entries[i].0, recursion - 1);
          }
          ok := CleanupFolder(p, recursion);
          ShrunkTwice(folders, now, folder, p, start, before, Now(), pending);
          ShrunkBelow(folders, now, p, before, Now(), Nothing(p));
          ReachedBelow(folders, folder, entries[i].0, before.tree, tree);
          DirectoryDone(p, info);
        case File(size, modTime) =>
          if IsExpired(modTime, pending.retention, now) {
            ShrunkByFile(folders, now, folder, start, before, p, pending);
            RemovedFile(tree, p);
            ok := RemoveFile(p);
            if ok {
              result := result.(deletedFiles := result.deletedFiles + 1, deletedSize := result.deletedSize + size);
              NotDoomed(tree, p, info);
            }
          } else {
            NotDoomed(tree, p, info);
          }
      }
      EntryReached(folder, entries[i].0, before.tree, info);
      if ok {
        EntryDone(folder, entries, i, before.tree);
      }
    }

    /** A handled entry is done, and tidy. */
    lemma EntryDone(folder: Path, entries: seq<(string, Entry)>, i: nat, before: Tree)
      requires Progress(folders, now, before, folder, entries, i) && i < |entries|
      requires forall j, k :: 0 <= j < k < |entries| ==> entries[j].0 != entries[k].0
      requires IsPartOf(tree, before) && forall p :: p in before && p !in tree ==> folder + [entries[i].0] <= p
      requires ChildDone(folders, now, tree, folder + [entries[i].0], entries[i].1)
      requires faults.removal == {} && entries[i].1.Directory? ==> IsTidy(folders, tree, folder + [entries[i].0])
      ensures Progress(folders, now, tree, folder, entries, i + 1)
      ensures faults.removal == {} && AreTidy(folders, before, folder, entries, i) ==>
                AreTidy(folders, tree, folder, entries, i + 1)
    {
      hide Progress, ChildDone, AreTidy, IsTidy;
      ProgressStep(folders, now, before, tree, folder, entries, i);
      if faults.removal == {} && AreTidy(folders, before, folder, entries, i) {
        TidyStep(folders, before, tree, folder, entries, i);
      }
    }

    /** Walks one directory and records its result. */
    method CleanupFolder(folder: Path, recursion: nat) returns (ok: bool)
      requires WellFormed(tree) && recursion <= MAX_RECURSION
      modifies `tree, `results
      ensures Shrunk(folders, now, folder, old(Now()), Now(), Nothing(folder))
      ensures WellFormed(tree) && IsPartOf(tree, old(tree))
      ensures ok ==> IsClean(folders, now, tree, folder)
      ensures DeletesReached(folders, folder, old(tree), tree)
      ensures ok && faults.removal == {} ==> IsTidy(folders, tree, folder)
      ensures old(CanFinish(folders, faults, tree, folder, recursion)) ==> ok
      ensures results != [] && results[|results| - 1].path == folder
      ensures recursion < 1_000 && Governing(folders, folder).Some? ==>
                results[|results| - 1].retention == Governing(folders, folder).value.retention
      decreases MAX_RECURSION - recursion, 2
    {
      var result: FolderResult;
      ghost var start := Now();
      ok, result := WalkFolder(folder, recursion);
      ShrunkByResult(folders, now, folder, start, Now(), result);
      results := results + [result];
    }

    lemma NothingShrunk(folder: Path)
      requires WellFormed(tree)
      ensures Shrunk(folders, now, folder, Now(), Now(), Nothing(folder))
    {
    }

    lemma SamePending(folder: Path, start: State, result: FolderResult)
      requires Shrunk(folders, now, folder, start, Now(), Nothing(folder))
      requires result.deletedFiles == 0 && result.deletedSize == 0
      ensures Shrunk(folders, now, folder, start, Now(), result)
    {
    }

    lemma ExcludedIsClean(folder: Path)
      requires !IsCleaned(folders, folder)
      ensures IsClean(folders, now, tree, folder)
    {
      forall p | IsReached(folders, folder, p)
        ensures false
      {
        PrefixOfDir(folder, p);
      }
    }

    lemma EntryToHandle(folder: Path, entries: seq<(string, Entry)>, i: nat, pending: FolderResult)
      requires Progress(folders, now, tree, folder, entries, i) && i < |entries|
      requires Governing(folders, folder).Some? && 0 < pending.retention == Governing(folders, folder).value.retention
      ensures var p, info := folder + [entries[i].0], entries[i].1;
              && IsCleaned(folders, folder) && p in tree && tree[p] == info
              && (info.File? ==>
                    (IsDoomed(folders, now, tree, p) <==> IsExpired(info.modTime, pending.retention, now)))
    {
      assert Dir(folder + [entries[i].0]) == folder;
    }

    lemma DirectoryDone(p: Path, info: Entry)
      requires info.Directory?
      ensures IsClean(folders, now, tree, p) ==> ChildDone(folders, now, tree, p, info)
    {
    }

    lemma NotDoomed(tree: Tree, p: Path, info: Entry)
      requires p in tree ==> tree[p] != info || !IsDoomed(folders, now, tree, p)
      requires info.File?
      ensures ChildDone(folders, now, tree, p, info)
    {
    }

    lemma CleanedMeans(folder: Path)
      ensures IsCleaned(folders, folder) <==>
              Governing(folders, folder).Some? && Governing(folders, folder).value.retention > 0
    {
    }

    lemma NothingReached(folder: Path, tree: Tree)
      ensures DeletesReached(folders, folder, tree, tree)
    {
    }

    lemma ExcludedIsTidy(folder: Path)
      requires !IsCleaned(folders, folder)
      ensures IsTidy(folders, tree, folder)
    {
      forall p | IsReached(folders, folder, p)
        ensures false
      {
        PrefixOfDir(folder, p);
      }
    }

    lemma MissingIsTidy(folder: Path)
      requires WellFormed(tree) && folder !in tree
      ensures IsTidy(folders, tree, folder)
    {
      forall p | p in tree && IsReached(folders, folder, p)
        ensures false
      {
        AncestorInTree(tree, folder, p);
      }
    }

    /** What a removed file or a walked directory adds to what was deleted. */
    lemma EntryReached(folder: Path, name: string, before: Tree, info: Entry)
      requires IsCleaned(folders, folder)
      requires info.File? ==> forall p :: p in before && p !in tree ==> p == folder + [name]
      requires info.Directory? ==> DeletesReached(folders, folder, before, tree)
      ensures DeletesReached(folders, folder, before, tree)
    {
      hide IsCleaned;
      if info.File? {
        forall p | p in before && p !in tree
          ensures IsReached(folders, folder, p)
        {
          assert Dir(p) == folder;
          forall d | folder <= d <= Dir(p)
            ensures IsCleaned(folders, d)
          {
            assert d == folder;
          }
        }
      }
    }

    /** After the removal of the folder, if it is empty and may vanish, all of it is tidy. */
    lemma EmptyRemoved(folder: Path, listing: Tree, walked: Tree, entries: seq<(string, Entry)>)
      requires Lists(entries, listing, folder) && IsPartOf(walked, listing) && WellFormed(walked) && WellFormed(tree)
      requires faults.removal == {} ==> AreTidy(folders, walked, folder, entries, |entries|)
      requires IsCleaned(folders, folder) && folder in listing && listing[folder].Directory?
      requires DeletesReached(folders, folder, listing, walked)
      requires tree == if Governing(folders, folder).value.deleteEmptyDirs && folder != [] &&
                          (forall f <- folders :: f.path != folder) && IsEmptyDir(walked, folder) &&
                          folder !in faults.removal
                       then walked - {folder} else walked
      ensures faults.removal == {} ==> IsTidy(folders, tree, folder)
      ensures DeletesReached(folders, folder, listing, tree)
    {
      hide IsCleaned;
      if faults.removal == {} {
        if tree == walked {
          AllTidy(folders, listing, walked, folder, entries);
        } else {
          MissingIsTidy(folder);
        }
      }
    }

    lemma MissingIsClean(folder: Path)
      requires WellFormed(tree) && folder !in tree
      ensures IsClean(folders, now, tree, folder)
    {
      forall p | p in tree && IsReached(folders, folder, p)
        ensures false
      {
        AncestorInTree(tree, folder, p);
      }
    }

    lemma NothingDone(folder: Path, entries: seq<(string, Entry)>)
      requires Lists(entries, tree, folder)
      ensures Progress(folders, now, tree, folder, entries, 0)
    {
    }

    /**
     * Runs the check on every folder with a positive retention. A successful run deletes exactly the files that were
     * modified longer ago than the retention of their nearest configured folder, in hours; any run deletes only such
     * files and reports their number and size exactly. Directories are deleted only if they may vanish, and all of
     * those that are empty are, unless a removal fails. It succeeds where nothing can fail.
     */
    method Start() returns (ok: bool)
      requires WellFormed(tree) && results == []
      modifies `tree, `results
      ensures WellFormed(tree) && IsPartOf(tree, old(tree))
      ensures forall p :: p in old(tree) && old(tree)[p].File? && p !in tree ==>
                var g := Governing(folders, Dir(p));
                g.Some? && g.value.retention > 0 && now - old(tree)[p].modTime > g.value.retention * 3_600_000_000_000
      ensures ok ==> forall p :: p in old(tree) && old(tree)[p].File? ==>
                var g := Governing(folders, Dir(p));
                (p !in tree <==> g.Some? && g.value.retention > 0 &&
                                 now - old(tree)[p].modTime > g.value.retention * 3_600_000_000_000)
      ensures forall p :: p in old(tree) && old(tree)[p].Directory? && p !in tree ==> MayVanish(folders, p)
      ensures ok && faults.removal == {} ==> forall p :: p in tree && MayVanish(folders, p) ==> !IsEmptyDir(tree, p)
      ensures (forall f <- folders :: f.retention > 0 ==> CanFinish(folders, faults, old(tree), f.path, 0)) ==> ok
      ensures |Sizes(old(tree))| == |Sizes(tree)| + DeletedFiles(results)
      ensures Total(Sizes(old(tree))) == Total(Sizes(tree)) + DeletedSize(results)
    {
      DoomedIffOutdated(folders, now, tree);
      hide Shrunk, IsClean, IsDoomed, Sizes, Total, WellFormed, CanFinish, Governing, IsTidy, DeletesReached;
      hide MayVanish, IsEmptyDir;
      ghost var start := Now();
      NothingShrunk([]);
      for i := 0 to |folders|
        invariant Shrunk(folders, now, [], start, Now(), Nothing([])) && WellFormed(tree)
        invariant IsPartOf(tree, start.tree)
        invariant forall j :: 0 <= j < i && folders[j].retention > 0 ==> IsClean(folders, now, tree, folders[j].path)
        invariant faults.removal == {} ==>
                    forall j :: 0 <= j < i && folders[j].retention > 0 ==> IsTidy(folders, tree, folders[j].path)
      {
        if folders[i].retention > 0 {
          ghost var before := Now();
          if CanFinish(folders, faults, start.tree, folders[i].path, 0) {
            CanStillFinish(folders, faults, start.tree, tree, folders[i].path, 0);
          }
          var done := CleanupFolder(folders[i].path, 0);
          ShrunkTwice(folders, now, [], folders[i].path, start, before, Now(), Nothing([]));
          RunReport(start);
          if !done {
            return false;
          }
          OthersStayClean(before, i, folders[i].path);
          if faults.removal == {} {
            OthersStayTidy(before, i);
          }
        }
      }
      RunReport(start);
      AllDoomedGone(start.tree);
      if faults.removal == {} {
        AllEmptyGone();
      }
      return true;
    }

    lemma OthersStayClean(before: State, i: nat, path: Path)
      requires i <= |folders| && IsPartOf(tree, before.tree)
      requires forall j :: 0 <= j < i && folders[j].retention > 0 ==>
               IsClean(folders, now, before.tree, folders[j].path)
      ensures forall j :: 0 <= j < i && folders[j].retention > 0 ==> IsClean(folders, now, tree, folders[j].path)
    {
      hide IsClean;
      forall j | 0 <= j < i && folders[j].retention > 0
        ensures IsClean(folders, now, tree, folders[j].path)
      {
        CleanStaysClean(folders, now, before.tree, tree, folders[j].path);
      }
    }

    lemma OthersStayTidy(before: State, i: nat)
      requires i < |folders|
      requires Shrunk(folders, now, folders[i].path, before, Now(), Nothing(folders[i].path))
      requires DeletesReached(folders, folders[i].path, before.tree, tree) && IsTidy(folders, tree, folders[i].path)
      requires forall j :: 0 <= j < i && folders[j].retention > 0 ==> IsTidy(folders, before.tree, folders[j].path)
      ensures forall j :: 0 <= j < i && folders[j].retention > 0 ==> IsTidy(folders, tree, folders[j].path)
    {
      hide IsTidy, DeletesReached, Reports, WellFormed, IsDoomed;
      assert folders[i] in folders;
      forall j | 0 <= j < i && folders[j].retention > 0
        ensures IsTidy(folders, tree, folders[j].path)
      {
        OtherWalkStaysTidy(folders, before.tree, tree, folders[j].path, folders[i].path);
      }
    }

    /** With every positively configured folder tidy, no empty directory that may vanish is left. */
    lemma AllEmptyGone()
      requires forall f <- folders :: f.retention > 0 ==> IsTidy(folders, tree, f.path)
      ensures forall p :: p in tree && MayVanish(folders, p) ==> !IsEmptyDir(tree, p)
    {
      forall p | p in tree && MayVanish(folders, p)
        ensures !IsEmptyDir(tree, p)
      {
        var g := Governing(folders, p).value;
        GoverningFolderReaches(folders, p, g.path);
        forall d | g.path <= d <= Dir(p)
          ensures IsCleaned(folders, d)
        {
          assert d <= p && Governing(folders, d) == Governing(folders, p);
        }
        assert IsReached(folders, g.path, p);
        assert IsTidy(folders, tree, g.path);
      }
    }

    lemma RunReport(start: State)
      requires Shrunk(folders, now, [], start, Now(), Nothing([])) && start.results == []
      ensures WellFormed(tree) && IsPartOf(tree, start.tree)
      ensures forall p :: p in start.tree && start.tree[p].File? && p !in tree ==> IsDoomed(folders, now, start.tree, p)
      ensures forall p :: p in start.tree && start.tree[p].Directory? && p !in tree ==> MayVanish(folders, p)
      ensures |Sizes(start.tree)| == |Sizes(tree)| + DeletedFiles(results)
      ensures Total(Sizes(start.tree)) == Total(Sizes(tree)) + DeletedSize(results)
    {
      hide Total, Sizes, WellFormed, IsDoomed, MayVanish;
    }

    /** With every positively configured folder clean, no doomed file is left anywhere. */
    lemma AllDoomedGone(before: Tree)
      requires WellFormed(tree) && IsPartOf(tree, before)
      requires forall f <- folders :: f.retention > 0 ==> IsClean(folders, now, tree, f.path)
      ensures forall p :: p in tree ==> !IsDoomed(folders, now, before, p)
    {
      forall p | p in tree
        ensures !IsDoomed(folders, now, before, p)
      {
        if IsDoomed(folders, now, tree, p) {
          DoomedIsReached(p);
        }
        DoomedAlike(folders, now, before, tree, p);
      }
    }

    lemma DoomedIsReached(p: Path)
      requires WellFormed(tree) && p in tree && IsDoomed(folders, now, tree, p)
      ensures exists f <- folders :: f.retention > 0 && IsReached(folders, f.path, p)
    {
      var g := Governing(folders, Dir(p)).value;
      GoverningFolderReaches(folders, Dir(p), g.path);
      forall d | g.path <= d <= Dir(p)
        ensures IsCleaned(folders, d)
      {
        assert Governing(folders, d) == Governing(folders, Dir(p));
      }
      assert IsReached(folders, g.path, p);
    }
  }

  /** Of the files of one directory, if one goes then every older one goes. */
  lemma OlderGoesToo(folders: seq<FolderRetention>, now: int, tree: Tree, p: Path, q: Path)
    requires p in tree && q in tree && tree[p].File? && tree[q].File? && Dir(p) == Dir(q)
    requires tree[q].modTime <= tree[p].modTime && IsDoomed(folders, now, tree, p)
    ensures IsDoomed(folders, now, tree, q)
  {
    hide Governing;
  }

  const DAILY := [FolderRetention(["d"], 24, false)]

  const FRESH: Path := ["d", "fresh"]
  const OLD: Path := ["d", "old"]

  /** At time 0: a file modified one minute ago, and one modified 48 hours ago. */
  const TWO_AGES: Tree := map[[] := Directory, ["d"] := Directory, FRESH := File(5, -60_000_000_000),
                              OLD := File(7, -172_800_000_000_000)]

  lemma TwoAgesAreChecked()
    ensures WellFormed(TWO_AGES) && FRESH != OLD && FRESH in TWO_AGES && OLD in TWO_AGES
    ensures CanFinish(DAILY, NO_FAULTS, TWO_AGES, ["d"], 0)
    ensures Governing(DAILY, Dir(FRESH)) == Governing(DAILY, Dir(OLD)) == Some(DAILY[0])
  {
    assert FRESH[1] != OLD[1];
    assert Dir(FRESH) == ["d"] == Dir(OLD) && Dir(["d"]) == [];
    assert ConfiguredAt(DAILY, ["d"]) == Some(DAILY[0]);
  }

  lemma AllButOne(part: Tree, tree: Tree, p: Path)
    requires IsPartOf(part, tree) && p in tree && p !in part
    requires forall q :: q in tree && tree[q].File? && q != p ==> q in part
    ensures Sizes(part) == Sizes(tree - {p})
  {
  }

  lemma OneIsLeft(tree: Tree)
    requires IsPartOf(tree, TWO_AGES) && FRESH in tree && OLD !in tree
    ensures |Sizes(TWO_AGES)| == |Sizes(tree)| + 1 && Total(Sizes(TWO_AGES)) == Total(Sizes(tree)) + 7
  {
    TwoAgesAreChecked();
    assert forall q :: q in TWO_AGES && TWO_AGES[q].File? && q != OLD ==> q == FRESH;
    assert TWO_AGES[OLD] == File(7, -172_800_000_000_000);
    hide Sizes, Total, WellFormed, IsPartOf, TWO_AGES;
    AllButOne(tree, TWO_AGES, OLD);
    RemovedFile(TWO_AGES, OLD);
  }

  /** With one day of retention a file of one minute stays, and one of two days goes. */
  method OldGoesFreshStays() returns (c: RetentionCheck, ok: bool)
    ensures ok && FRESH in c.tree && OLD !in c.tree
    ensures DeletedFiles(c.results) == 1 && DeletedSize(c.results) == 7
  {
    TwoAgesAreChecked();
    c := new RetentionCheck(DAILY, 0, NO_FAULTS, TWO_AGES);
    hide Governing, CanFinish, WellFormed, Sizes, DeletedFiles, DeletedSize;
    ok := c.Start();
    OneIsLeft(c.tree);
  }
}
