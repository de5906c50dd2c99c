/** The files of a user tree, the accounts that pay for them, and what moving files does to both. */
module Accounting {
  import opened Options
  import opened Paths
  import opened Totals
  import opened VirtualFolders

  datatype Node = File(size: nat) | Directory
  type Tree = map<Path, Node>

  datatype Account = UserAccount | FolderAccount(name: string)

  datatype Usage = Usage(files: int, size: int)
  {
    function Plus(other: Usage): Usage { Usage(files + other.files, size + other.size) }
    function Minus(other: Usage): Usage { Usage(files - other.files, size - other.size) }
  }

  const NOTHING := Usage(0, 0)

  type Counters = map<Account, Usage>

  /** The account charged for a folder: its own, unless it is included in the user quota. */
  function AccountOf(folder: Option<VirtualFolder>): Account
  {
    if folder.None? || folder.value.IsIncludedInUserQuota() then UserAccount else FolderAccount(folder.value.name)
  }

  /** The account charged for a file: the one of the folder that owns its parent directory. */
  function Owner(user: User, p: Path): Account
  {
    AccountOf(FolderForPath(user, Dir(p)))
  }

  /** The folder has the deepest mount point at or above the parent directory of p. */
  ghost predicate IsNearest(user: User, f: VirtualFolder, p: Path)
  {
    f in user.folders && f.mount <= Dir(p) && forall g <- user.folders :: g.mount <= Dir(p) ==> |g.mount| <= |f.mount|
  }

  /** The user is charged outside all the folders, and where the nearest folder has no quotas of its own (-1). */
  lemma OwnerMeans(user: User, p: Path)
    requires user.Valid()
    ensures Owner(user, p) == UserAccount <==>
            forall f :: IsNearest(user, f, p) ==> f.quotaSize == -1 && f.quotaFiles == -1
    ensures forall f :: IsNearest(user, f, p) && !(f.quotaSize == -1 && f.quotaFiles == -1) ==>
              Owner(user, p) == FolderAccount(f.name)
  {
    FolderForPathIsNearest(user, Dir(p));
    var r := FolderForPath(user, Dir(p));
    assert r.Some? ==> IsNearest(user, r.value, p);
    forall f | IsNearest(user, f, p)
      ensures r == Some(f)
    {
      assert f.mount == r.value.mount;
    }
  }

  /** Every account of the user has a counter. */
  ghost predicate HasAccounts(user: User, used: Counters)
  {
    UserAccount in used && forall f <- user.folders :: FolderAccount(f.name) in used
  }

  predicate HasParent(tree: Tree, p: Path)
  {
    Dir(p) in tree && tree[Dir(p)].Directory?
  }

  /** Mount points are directories, and inside one storage every entry has a parent directory. */
  ghost predicate WellFormed(user: User, tree: Tree)
  {
    && (forall f <- user.folders :: f.mount in tree ==> tree[f.mount].Directory?)
    && ([] in tree ==> tree[[]].Directory?)
    && (forall p {:trigger HasParent(tree, p)} :: p in tree && p != [] && !user.IsVirtualFolder(p) ==>
        HasParent(tree, p))
  }

  // ---------------------------------------------------------------- ground truth

  /** The files an account pays for, with their sizes. */
  ghost function Owned(user: User, tree: Tree, a: Account): map<Path, int>
  {
    map p | p in tree && tree[p].File? && Owner(user, p) == a :: tree[p].size
  }

  ghost function Measure(files: map<Path, int>): Usage
  {
    Usage(|files|, Total(files))
  }

  /** Every counter equals the number and the size of the files its account owns. */
  ghost predicate Exact(user: User, tree: Tree, used: Counters)
  {
    forall a :: a in used ==> used[a] == Measure(Owned(user, tree, a))
  }

  /** The entries that go with p when it is renamed: p itself, and for a directory all below it. */
  predicate GoesWith(tree: Tree, p: Path, q: Path)
    requires p in tree
  {
    if tree[p].File? then q == p else p <= q
  }

  /** The part of the tree that is renamed together with p. */
  function Leaving(tree: Tree, p: Path): Tree
    requires p in tree
  {
    map q | q in tree && GoesWith(tree, p, q) :: tree[q]
  }

  function Files(tree: Tree): map<Path, int>
  {
    map p | p in tree && tree[p].File? :: tree[p].size
  }

  /** What a file, or all the files of a directory, count for. */
  ghost function UsageAt(tree: Tree, p: Path): Usage
    requires p in tree
  {
    Measure(Files(Leaving(tree, p)))
  }

  // ---------------------------------------------------------------- charging accounts

  function UsedBy(used: Counters, a: Account): Usage
  {
    if a in used then used[a] else NOTHING
  }

  function Charge(used: Counters, a: Account, delta: Usage): Counters
  {
    used[a := UsedBy(used, a).Plus(delta)]
  }

  /** The accounts after moving `moved` from one account to another, replacing `replaced` there. */
  function Settle(used: Counters, from: Account, to: Account, moved: Usage, replaced: Usage): Counters
  {
    Charge(Charge(used, from, NOTHING.Minus(moved)), to, moved.Minus(replaced))
  }

  lemma OwnerHasAccount(user: User, used: Counters, p: Path)
    requires HasAccounts(user, used)
    ensures Owner(user, p) in used
  {
    FolderForPathIsNearest(user, Dir(p));
  }

  // ---------------------------------------------------------------- changing one file

  /** The tree with the file p set to the given size, or removed. */
  function WithFile(tree: Tree, p: Path, size: Option<nat>): Tree
  {
    match size
    case None => tree - {p}
    case Some(n) => tree[p := File(n)]
  }

  function UsageOfFile(tree: Tree, p: Path): Usage
  {
    if p in tree && tree[p].File? then Usage(1, tree[p].size) else NOTHING
  }

  /** Creating, resizing or removing one file: charging its owner the difference keeps every account exact. */
  lemma SetFileKeepsExact(user: User, tree: Tree, used: Counters, p: Path, size: Option<nat>)
    requires Exact(user, tree, used) && Owner(user, p) in used
    requires p in tree ==> tree[p].File?
    ensures var after := WithFile(tree, p, size);
            Exact(user, after, Charge(used, Owner(user, p), UsageOfFile(after, p).Minus(UsageOfFile(tree, p))))
  {
    hide Total, FolderForPath, Owned;
    var after := WithFile(tree, p, size);
    var delta := UsageOfFile(after, p).Minus(UsageOfFile(tree, p));
    var used' := Charge(used, Owner(user, p), delta);
    forall a | a in used'
      ensures used'[a] == Measure(Owned(user, after, a))
    {
      SetFileMeasure(user, tree, p, size, a);
    }
  }

  lemma SetFileKeepsWellFormed(user: User, tree: Tree, p: Path, size: Option<nat>)
    requires WellFormed(user, tree) && p in tree && tree[p].File?
    ensures WellFormed(user, WithFile(tree, p, size))
  {
    var after := WithFile(tree, p, size);
    forall q | q in after && q != [] && !user.IsVirtualFolder(q)
      ensures HasParent(after, q)
    {
      assert HasParent(tree, q);
    }
  }

  lemma FileRemoved(user: User, tree: Tree, used: Counters, p: Path)
    requires HasAccounts(user, used) && WellFormed(user, tree) && Exact(user, tree, used)
    requires p in tree && tree[p].File?
    ensures var used' := Charge(used, Owner(user, p), NOTHING.Minus(UsageOfFile(tree, p)));
            HasAccounts(user, used') && WellFormed(user, tree - {p}) && Exact(user, tree - {p}, used')
  {
    assert WithFile(tree, p, None) == tree - {p};
    assert UsageOfFile(tree - {p}, p) == NOTHING;
    OwnerHasAccount(user, used, p);
    SetFileKeepsWellFormed(user, tree, p, None);
    hide Exact, WellFormed, Owner, Measure;
    SetFileKeepsExact(user, tree, used, p, None);
  }

  lemma FileResized(user: User, tree: Tree, used: Counters, p: Path, size: nat)
    requires HasAccounts(user, used) && WellFormed(user, tree) && Exact(user, tree, used)
    requires p in tree && tree[p].File?
    ensures var used', tree' := Charge(used, Owner(user, p), Usage(1, size).Minus(UsageOfFile(tree, p))),
            tree[p := File(size)];
            HasAccounts(user, used') && WellFormed(user, tree') && Exact(user, tree', used')
  {
    OwnerHasAccount(user, used, p);
    SetFileKeepsWellFormed(user, tree, p, Some(size));
    hide Exact, WellFormed, Owner, Measure;
    SetFileKeepsExact(user, tree, used, p, Some(size));
  }

  lemma SetFileMeasure(user: User, tree: Tree, p: Path, size: Option<nat>, a: Account)
    requires p in tree ==> tree[p].File?
    ensures var after := WithFile(tree, p, size);
            Measure(Owned(user, after, a)) ==
            Measure(Owned(user, tree, a)).Plus(
              if a == Owner(user, p) then UsageOfFile(after, p).Minus(UsageOfFile(tree, p)) else NOTHING)
  {
    hide Measure, Owner;
    var after := WithFile(tree, p, size);
    OwnedElsewhere(user, tree, p, size, a);
    MeasureWithout(Owned(user, tree, a), p);
    MeasureWithout(Owned(user, after, a), p);
  }

  lemma OwnedElsewhere(user: User, tree: Tree, p: Path, size: Option<nat>, a: Account)
    ensures Owned(user, WithFile(tree, p, size), a) - {p} == Owned(user, tree, a) - {p}
  {
  }

  lemma MeasureWithout(files: map<Path, int>, p: Path)
    ensures Measure(files) == Measure(files - {p}).Plus(if p in files then Usage(1, files[p]) else NOTHING)
  {
    if p in files {
      TotalRemove(files, p);
      assert (files - {p}).Keys == files.Keys - {p};
    } else {
      assert files - {p} == files;
    }
  }

  // ---------------------------------------------------------------- renaming

  function Rebase(p: Path, src: Path, dst: Path): Path
    requires src <= p
  {
    dst + p[|src|..]
  }

  function Staying(tree: Tree, src: Path, dst: Path): Tree
    requires src in tree
  {
    map q | q in tree && !GoesWith(tree, src, q) && q != dst :: tree[q]
  }

  function Arriving(tree: Tree, src: Path, dst: Path): Tree
    requires src in tree
  {
    map q | q in (set p | p in tree && GoesWith(tree, src, p) :: Rebase(p, src, dst)) ::
      assert Rebase(q, dst, src) in tree by {
        var p :| p in tree && GoesWith(tree, src, p) && q == Rebase(p, src, dst);
        assert Rebase(q, dst, src) == p;
      }
      tree[Rebase(q, dst, src)]
  }

  /** The tree after a rename: the source entries reappear at the target, which is replaced. */
  function Moved(tree: Tree, src: Path, dst: Path): Tree
    requires src in tree
  {
    Staying(tree, src, dst) + Arriving(tree, src, dst)
  }

  /** A rename entry by entry: what went with the source is at the target, and everything else where it was. */
  lemma MovedEntries(tree: Tree, src: Path, dst: Path)
    requires src in tree && src != dst && (tree[src].Directory? ==> !IsDirOverlapped(src, dst))
    ensures forall p :: p in tree && (p == src || (tree[src].Directory? && src <= p)) ==>
              var q := dst + p[|src|..];
              q in Moved(tree, src, dst) && Moved(tree, src, dst)[q] == tree[p] && p !in Moved(tree, src, dst)
    ensures forall p :: p in tree && !(p == src || (tree[src].Directory? && src <= p)) && !(dst <= p) ==>
              p in Moved(tree, src, dst) && Moved(tree, src, dst)[p] == tree[p]
    ensures forall q :: q in Moved(tree, src, dst) && q !in tree ==>
              dst <= q && src + q[|dst|..] in tree && Moved(tree, src, dst)[q] == tree[src + q[|dst|..]]
  {
    forall p | p in tree && GoesWith(tree, src, p)
      ensures var q := dst + p[|src|..];
              q in Moved(tree, src, dst) && Moved(tree, src, dst)[q] == tree[p] && p !in Moved(tree, src, dst)
    {
      var q := Rebase(p, src, dst);
      assert Rebase(q, dst, src) == p;
      if p in Arriving(tree, src, dst) {
        ArrivalSource(tree, src, dst, p);
      }
    }
    forall q | q in Arriving(tree, src, dst)
      ensures dst <= q && src + q[|dst|..] in tree && Moved(tree, src, dst)[q] == tree[src + q[|dst|..]]
    {
      ArrivalSource(tree, src, dst, q);
    }
  }

  /** The conditions a permitted rename has passed: see BaseConnection.Rename. */
  ghost predicate Movable(user: User, tree: Tree, src: Path, dst: Path)
  {
    && src in tree && src != [] && dst != [] && src != dst
    && !user.IsVirtualFolder(src) && !user.IsVirtualFolder(dst)
    && HasParent(tree, dst)
    && (dst in tree ==> tree[dst].File? && tree[src].File?)
    && (tree[src].Directory? ==>
          !IsDirOverlapped(src, dst) && !user.HasVirtualFoldersInside(src) && !user.HasVirtualFoldersInside(dst))
  }

  /** Entries below a directory that holds no virtual folders all have its owner. */
  lemma OwnerBelow(user: User, d: Path, q: Path)
    requires d != [] && d <= q && !user.IsVirtualFolder(d)
    requires q == d || !user.HasVirtualFoldersInside(d)
    ensures Owner(user, q) == Owner(user, d)
  {
    if q != d {
      forall f <- user.folders
        ensures !(Dir(d) < f.mount && f.mount <= Dir(q))
      {
        assert Dir(d) < f.mount && f.mount <= q ==> d <= f.mount;
      }
      SameFolder(user, Dir(d), Dir(q));
    }
  }

  /** Nothing exists below a missing directory that holds no virtual folders. */
  lemma {:induction false} NothingBelow(user: User, tree: Tree, d: Path, q: Path)
    requires WellFormed(user, tree) && d !in tree && d != [] && d <= q
    requires !user.IsVirtualFolder(d) && !user.HasVirtualFoldersInside(d)
    ensures q !in tree
    decreases |q|
  {
    if q != d {
      assert d <= Dir(q);
      NothingBelow(user, tree, d, Dir(q));
      assert !user.IsVirtualFolder(q) && !HasParent(tree, q);
    }
  }

  lemma ArrivalSource(tree: Tree, src: Path, dst: Path, q: Path)
    requires src in tree && q in Arriving(tree, src, dst)
    ensures dst <= q
    ensures var p := Rebase(q, dst, src); p in tree && GoesWith(tree, src, p) && Rebase(p, src, dst) == q
  {
    var p :| p in tree && GoesWith(tree, src, p) && q == Rebase(p, src, dst);
    assert Rebase(q, dst, src) == p;
  }

  lemma ArrivalsAreNew(user: User, tree: Tree, src: Path, dst: Path)
    requires WellFormed(user, tree) && Movable(user, tree, src, dst)
    ensures Staying(tree, src, dst).Keys !! Arriving(tree, src, dst).Keys
  {
    forall q | q in Arriving(tree, src, dst)
      ensures q !in Staying(tree, src, dst)
    {
      ArrivalSource(tree, src, dst, q);
      if q != dst {
        NothingBelow(user, tree, dst, q);
      }
    }
  }

  /** The files that arrive are as many, and as large, as the files that left. */
  lemma ArrivingMeasure(tree: Tree, src: Path, dst: Path)
    requires src in tree
    ensures Measure(Files(Arriving(tree, src, dst))) == UsageAt(tree, src)
  {
    hide Total;
    var m, n := Files(Leaving(tree, src)), Files(Arriving(tree, src, dst));
    var f := (p: Path) => if src <= p then Rebase(p, src, dst) else p;
    forall p | p in m
      ensures f(p) in n && n[f(p)] == m[p] && Rebase(f(p), dst, src) == p
    {
      assert Rebase(Rebase(p, src, dst), dst, src) == p;
    }
    forall q | q in n
      ensures exists p :: p in m && f(p) == q
    {
      ArrivalSource(tree, src, dst, q);
      assert f(Rebase(q, dst, src)) == q;
    }
    TotalRekey(m, n, f);
  }

  lemma MeasureUnion(m: map<Path, int>, n: map<Path, int>)
    requires m.Keys !! n.Keys
    ensures Measure(m + n) == Measure(m).Plus(Measure(n))
  {
    CountDisjointUnion(m, n);
    TotalDisjointUnion(m, n);
  }

  lemma OwnedUnion(user: User, s: Tree, t: Tree, a: Account)
    requires s.Keys !! t.Keys
    ensures Owned(user, s, a).Keys !! Owned(user, t, a).Keys
    ensures Owned(user, s + t, a) == Owned(user, s, a) + Owned(user, t, a)
  {
    hide Owner;
  }

  /** Separate parts of a tree can be measured one by one. */
  lemma MeasureParts(user: User, s: Tree, t: Tree, a: Account)
    requires s.Keys !! t.Keys
    ensures Measure(Owned(user, s + t, a)) == Measure(Owned(user, s, a)).Plus(Measure(Owned(user, t, a)))
  {
    hide Owned, Measure;
    OwnedUnion(user, s, t, a);
    MeasureUnion(Owned(user, s, a), Owned(user, t, a));
  }

  /** A part of the tree with a single owner weighs on that account only. */
  lemma SingleOwner(user: User, part: Tree, owner: Account, a: Account)
    requires forall q :: q in part ==> Owner(user, q) == owner
    ensures Measure(Owned(user, part, a)) == if a == owner then Measure(Files(part)) else NOTHING
  {
    hide Owner;
    if a == owner {
      assert Owned(user, part, a) == Files(part);
    } else {
      assert Owned(user, part, a) == map[];
    }
  }

  function Replaced(tree: Tree, dst: Path): Tree
  {
    if dst in tree then map[dst := tree[dst]] else map[]
  }

  lemma SingleMeasure(p: Path, size: int)
    ensures Measure(map[p := size]) == Usage(1, size)
  {
    TotalInsert(map[], p, size);
    assert map[][p := size] == map[p := size];
  }

  lemma ReplacedMeasure(tree: Tree, dst: Path)
    requires dst in tree ==> tree[dst].File?
    ensures Measure(Files(Replaced(tree, dst))) == UsageOfFile(tree, dst)
  {
    if dst in tree {
      var size: int := tree[dst].size;
      assert Files(Replaced(tree, dst)) == map[dst := size];
      hide Total;
      SingleMeasure(dst, size);
    } else {
      assert Files(Replaced(tree, dst)) == map[];
    }
  }

  lemma PartsBefore(user: User, tree: Tree, src: Path, dst: Path)
    requires Movable(user, tree, src, dst)
    ensures Staying(tree, src, dst).Keys !! Leaving(tree, src).Keys
    ensures (Staying(tree, src, dst) + Leaving(tree, src)).Keys !! Replaced(tree, dst).Keys
    ensures tree == Staying(tree, src, dst) + Leaving(tree, src) + Replaced(tree, dst)
  {
  }

  lemma MeasureBefore(user: User, tree: Tree, src: Path, dst: Path, a: Account)
    requires Movable(user, tree, src, dst)
    ensures Measure(Owned(user, tree, a)) ==
            Measure(Owned(user, Staying(tree, src, dst), a))
              .Plus(if a == Owner(user, src) then UsageAt(tree, src) else NOTHING)
              .Plus(if a == Owner(user, dst) then UsageOfFile(tree, dst) else NOTHING)
  {
    var stay, leave, replaced := Staying(tree, src, dst), Leaving(tree, src), Replaced(tree, dst);
    PartsBefore(user, tree, src, dst);
    forall q | q in leave
      ensures Owner(user, q) == Owner(user, src)
    {
      OwnerBelow(user, src, q);
    }
    ReplacedMeasure(tree, dst);
    hide Measure, Owned, Owner, Files, Staying, Leaving;
    MeasureParts(user, stay, leave, a);
    MeasureParts(user, stay + leave, replaced, a);
    SingleOwner(user, leave, Owner(user, src), a);
    SingleOwner(user, replaced, Owner(user, dst), a);
  }

  lemma MeasureAfter(user: User, tree: Tree, src: Path, dst: Path, a: Account)
    requires WellFormed(user, tree) && Movable(user, tree, src, dst)
    ensures Measure(Owned(user, Moved(tree, src, dst), a)) ==
            Measure(Owned(user, Staying(tree, src, dst), a))
              .Plus(if a == Owner(user, dst) then UsageAt(tree, src) else NOTHING)
  {
    var stay, arrive := Staying(tree, src, dst), Arriving(tree, src, dst);
    ArrivalsAreNew(user, tree, src, dst);
    forall q | q in arrive
      ensures Owner(user, q) == Owner(user, dst)
    {
      ArrivalSource(tree, src, dst, q);
      OwnerBelow(user, dst, q);
    }
    hide Measure, Owned, Owner, Files, Staying, Arriving, UsageAt;
    ArrivingMeasure(tree, src, dst);
    MeasureParts(user, stay, arrive, a);
    SingleOwner(user, arrive, Owner(user, dst), a);
  }

  /** The central law: after any permitted rename, settling the two accounts keeps every counter exact. */
  lemma MoveKeepsExact(user: User, tree: Tree, used: Counters, src: Path, dst: Path)
    requires WellFormed(user, tree) && Movable(user, tree, src, dst)
    requires Owner(user, src) in used && Owner(user, dst) in used
    requires Exact(user, tree, used)
    ensures Exact(user, Moved(tree, src, dst),
                  Settle(used, Owner(user, src), Owner(user, dst), UsageAt(tree, src), UsageOfFile(tree, dst)))
  {
    hide Measure, Owned, Owner, UsageAt, UsageOfFile, Moved;
    var used' := Settle(used, Owner(user, src), Owner(user, dst), UsageAt(tree, src), UsageOfFile(tree, dst));
    forall a | a in used'
      ensures used'[a] == Measure(Owned(user, Moved(tree, src, dst), a))
    {
      MeasureBefore(user, tree, src, dst, a);
      MeasureAfter(user, tree, src, dst, a);
    }
  }

  lemma StayingParent(user: User, tree: Tree, src: Path, dst: Path, q: Path)
    requires WellFormed(user, tree) && Movable(user, tree, src, dst)
    requires q in Staying(tree, src, dst) && q != [] && !user.IsVirtualFolder(q)
    ensures HasParent(Staying(tree, src, dst), q)
  {
    assert HasParent(tree, q);
    assert src <= Dir(q) ==> src <= q;
  }

  lemma ArrivalParent(user: User, tree: Tree, src: Path, dst: Path, q: Path)
    requires WellFormed(user, tree) && Movable(user, tree, src, dst)
    requires q in Arriving(tree, src, dst)
    ensures q != [] && !user.IsVirtualFolder(q)
    ensures HasParent(if q == dst then Staying(tree, src, dst) else Arriving(tree, src, dst), q)
  {
    ArrivalSource(tree, src, dst, q);
    if q == dst {
      assert src <= Dir(dst) ==> src <= dst;
    } else {
      var p := Rebase(q, dst, src);
      assert src < p && !user.IsVirtualFolder(p);
      assert HasParent(tree, p);
      assert Dir(q) == Rebase(Dir(p), src, dst) && Rebase(Dir(q), dst, src) == Dir(p);
      assert GoesWith(tree, src, Dir(p));
    }
  }

  lemma MoveKeepsWellFormed(user: User, tree: Tree, src: Path, dst: Path)
    requires WellFormed(user, tree) && Movable(user, tree, src, dst)
    ensures WellFormed(user, Moved(tree, src, dst))
  {
    var stay, arrive, after := Staying(tree, src, dst), Arriving(tree, src, dst), Moved(tree, src, dst);
    ArrivalsAreNew(user, tree, src, dst);
    forall q | q in arrive
      ensures q != [] && !user.IsVirtualFolder(q) && HasParent(after, q)
    {
      ArrivalParent(user, tree, src, dst, q);
    }
    forall q | q in stay && q != [] && !user.IsVirtualFolder(q)
      ensures HasParent(after, q)
    {
      StayingParent(user, tree, src, dst, q);
    }
  }

  /** What is found at the target after the rename counts for as much as the source did. */
  lemma ArrivedAtTarget(user: User, tree: Tree, src: Path, dst: Path)
    requires WellFormed(user, tree) && Movable(user, tree, src, dst)
    ensures dst in Moved(tree, src, dst) && Moved(tree, src, dst)[dst] == tree[src]
    ensures UsageAt(Moved(tree, src, dst), dst) == UsageAt(tree, src)
  {
    var after := Moved(tree, src, dst);
    ArrivalsAreNew(user, tree, src, dst);
    assert dst in Arriving(tree, src, dst) by {
      assert dst == Rebase(src, src, dst);
      assert src == Rebase(dst, dst, src);
    }
    assert Rebase(dst, dst, src) == src;
    assert after[dst] == tree[src];
    forall q | q in Staying(tree, src, dst)
      ensures !GoesWith(after, dst, q)
    {
      if dst <= q && dst !in tree && tree[src].Directory? {
        NothingBelow(user, tree, dst, q);
      }
    }
    forall q | q in Arriving(tree, src, dst)
      ensures GoesWith(after, dst, q)
    {
      ArrivalSource(tree, src, dst, q);
    }
    assert Leaving(after, dst) == Arriving(tree, src, dst);
    ArrivingMeasure(tree, src, dst);
  }

  lemma FileUsage(tree: Tree, p: Path)
    requires p in tree && tree[p].File?
    ensures UsageAt(tree, p) == Usage(1, tree[p].size)
  {
    assert Files(Leaving(tree, p)) == map[p := tree[p].size];
    SingleMeasure(p, tree[p].size);
  }

  /** Within one account a rename only removes what it replaces. */
  lemma SettleSame(used: Counters, a: Account, moved: Usage, replaced: Usage)
    requires a in used
    ensures Settle(used, a, a, moved, replaced) == Charge(used, a, NOTHING.Minus(replaced))
  {
  }

  /** Between two accounts, the destination gains what arrives and loses what it replaces. */
  lemma SettleOther(used: Counters, from: Account, to: Account, moved: Usage, replaced: Usage)
    requires from != to
    ensures UsedBy(Settle(used, from, to, moved, replaced), to) == UsedBy(used, to).Plus(moved).Minus(replaced)
  {
  }

  /** Settling has no effect exactly if nothing is replaced, and nothing moves to another account. */
  lemma SettleIsNothingIff(used: Counters, from: Account, to: Account, moved: Usage, replaced: Usage)
    requires from in used && to in used
    ensures Settle(used, from, to, moved, replaced) == used <==>
            replaced == NOTHING && (from == to || moved == NOTHING)
  {
    var after := Settle(used, from, to, moved, replaced);
    assert after.Keys == used.Keys;
    assert after[to] == if from == to then used[to].Minus(replaced) else used[to].Plus(moved).Minus(replaced);
    assert from != to ==> after[from] == used[from].Minus(moved);
  }

  /** There is only one exact value of the counters. */
  lemma ExactIsUnique(user: User, tree: Tree, used: Counters, used': Counters)
    requires Exact(user, tree, used) && used.Keys == used'.Keys
    ensures Exact(user, tree, used') <==> used == used'
  {
    hide Measure, Owned;
  }

  lemma ExactAt(user: User, tree: Tree, used: Counters, a: Account)
    requires Exact(user, tree, used) && a in used
    ensures UsedBy(used, a) == Measure(Owned(user, tree, a))
  {
  }

  lemma SettleKeepsAccounts(user: User, used: Counters, from: Account, to: Account, moved: Usage, replaced: Usage)
    requires HasAccounts(user, used)
    ensures HasAccounts(user, Settle(used, from, to, moved, replaced))
    ensures from in used && to in used ==> Settle(used, from, to, moved, replaced).Keys == used.Keys
  {
  }
}
