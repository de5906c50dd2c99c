/** Renames that leave the accounts wrong, break a quota, or are refused although nothing changes hands. */
module RenameExamples {
  import opened Accounting
  import opened Options
  import opened Paths
  import opened Quota
  import opened VirtualFolders

  const HOME: Path := []
  const F: Path := ["f"]
  const G: Path := ["g"]
  const ALLOWED := Policy(true, false, true, true, true)
  const UNMEASURED := RenameOutcomes(false, false, false, false, true)

  /** Without files all the counters are zero. */
  lemma NothingOwned(user: User, tree: Tree, used: Counters)
    requires forall p :: p in tree ==> tree[p].Directory?
    requires forall a :: a in used ==> used[a] == NOTHING
    ensures Exact(user, tree, used)
  {
    forall a | a in used
      ensures used[a] == Measure(Owned(user, tree, a))
    {
      assert Owned(user, tree, a) == map[];
    }
  }

  /** A folder of its own, with a quota for its size. */
  function Separate(quotaSize: nat): User
  {
    User([VirtualFolder("f", F, quotaSize, 0)], 0, 0, 0)
  }

  lemma Owners(quotaSize: nat, name: string)
    ensures Owner(Separate(quotaSize), [name]) == UserAccount
    ensures Owner(Separate(quotaSize), ["f", name]) == FolderAccount("f")
    ensures LimitFor(Separate(quotaSize), ["f", name]) == Limit(quotaSize, 0)
    ensures FolderForPath(Separate(quotaSize), Dir(["f", name])).Some?
  {
    var user := Separate(quotaSize);
    assert Dir([name]) == HOME && Dir(["f", name]) == F;
    assert |F| == 1 && |HOME| == 0;
    assert user.folders[0].mount == F && user.folders[1..] == [];
    assert MountedAt(user.folders, HOME) == MountedAt(user.folders[1..], HOME) == None;
    assert FolderForPath(user, HOME) == None;
    assert FolderForPath(user, F) == Some(user.folders[0]);
  }

  /** A directory with a file of five bytes in the home, and an empty folder without a quota. */
  const DIRECTORY_IN_HOME: Tree := map[HOME := Directory, F := Directory, ["d"] := Directory, ["d", "a"] := File(5)]

  const DIRS: Tree := map[HOME := Directory, F := Directory, ["d"] := Directory]

  const NO_FILES: Counters := map[UserAccount := NOTHING, FolderAccount("f") := NOTHING]

  const FIVE_BYTES: Counters := map[UserAccount := Usage(1, 5), FolderAccount("f") := NOTHING]

  lemma DirectoryInHome()
    ensures Exact(Separate(0), DIRECTORY_IN_HOME, FIVE_BYTES)
  {
    hide *;
    SameOwner();
    FiveBytesCharged();
    OneFileMore();
    SetFileKeepsExact(Separate(0), DIRS, NO_FILES, ["d", "a"], Some(5));
  }

  lemma FiveBytesCharged()
    ensures HasAccounts(Separate(0), NO_FILES) && HasAccounts(Separate(0), FIVE_BYTES) && UserAccount in NO_FILES
    ensures Charge(NO_FILES, UserAccount, Usage(1, 5).Minus(NOTHING)) == FIVE_BYTES
  {
  }

  lemma OneFileMore()
    ensures ["d", "a"] !in DIRS && WithFile(DIRS, ["d", "a"], Some(5)) == DIRECTORY_IN_HOME
    ensures UsageOfFile(DIRS, ["d", "a"]) == NOTHING && UsageOfFile(DIRECTORY_IN_HOME, ["d", "a"]) == Usage(1, 5)
    ensures Exact(Separate(0), DIRS, NO_FILES)
  {
    NothingOwned(Separate(0), DIRS, NO_FILES);
    hide Exact;
  }

  lemma DirectoryIsWellFormed()
    ensures Separate(0).Valid() && WellFormed(Separate(0), DIRECTORY_IN_HOME)
  {
    forall p | p in DIRECTORY_IN_HOME && p != HOME && p != F
      ensures HasParent(DIRECTORY_IN_HOME, p)
    {
      assert Dir(["d"]) == HOME && Dir(["d", "a"]) == ["d"];
    }
  }

  lemma SameOwner()
    ensures Owner(Separate(0), ["d", "a"]) == UserAccount
  {
    Owners(0, "d");
    assert Dir(["d", "a"]) == ["d"] && !Separate(0).IsVirtualFolder(["d"]);
    OwnerBelow(Separate(0), ["d"], ["d", "a"]);
  }

  lemma DirectoryIsPermitted(c: Connection)
    requires c.user == Separate(0)
    ensures c.IsRenamePermitted(["d"], ["f", "d"], ALLOWED)
    ensures c.IsFolderRenamePermitted(["d"], ["f", "d"], ALLOWED)
  {
    assert ["d"][0] != ["f", "d"][0];
  }

  lemma DirectoryMayMove(c: Connection)
    requires c.user == Separate(0) && c.tree == DIRECTORY_IN_HOME
    ensures c.IsDone(["d"], ["f", "d"], ALLOWED, UNMEASURED)
  {
    Owners(0, "d");
    assert Dir(["f", "d"]) == F;
    DirectoryIsPermitted(c);
    assert c.CanBeRenamed(c.tree, ["d"], ["f", "d"]);
    hide LimitFor;
  }

  lemma DirectoryIsUnmeasured(c: Connection)
    requires c.user == Separate(0) && c.tree == DIRECTORY_IN_HOME
    ensures Owner(c.user, ["d"]) != Owner(c.user, ["f", "d"])
    ensures !c.IsMeasured(["d"], ["f", "d"], UNMEASURED.isReported, UNMEASURED.remeasureFails)
    ensures UsageAt(DIRECTORY_IN_HOME, ["d"]) != NOTHING
  {
    Owners(0, "d");
    assert ["d", "a"] in Files(Leaving(DIRECTORY_IN_HOME, ["d"]));
    hide Owner, FolderForPath, LimitFor;
  }

  /** A directory moves to another account, and cannot be scanned there: both accounts stay as they were. */
  method UnmeasuredMoveIsNotCounted() returns (c: Connection, r: Outcome)
    ensures r == Done && c.tree == Moved(DIRECTORY_IN_HOME, ["d"], ["f", "d"])
    ensures !Exact(c.user, c.tree, c.used)
  {
    hide *;
    DirectoryInHome();
    DirectoryIsWellFormed();
    FiveBytesCharged();
    c := new Connection(Separate(0), DIRECTORY_IN_HOME, FIVE_BYTES);
    DirectoryMayMove(c);
    DirectoryIsUnmeasured(c);
    r := c.Rename(["d"], ["f", "d"], ALLOWED, UNMEASURED);
  }

  // ---------------------------------------------------------------- an overwrite without the usage

  const A: Path := ["a"]
  const B: Path := ["f", "b"]

  const MOUNT: Tree := map[HOME := Directory, F := Directory]
  const ONE_FILE: Tree := map[HOME := Directory, F := Directory, A := File(150)]
  const TWO_FILES: Tree := map[HOME := Directory, F := Directory, A := File(150), B := File(60)]
  const ONE_CHARGED: Counters := map[UserAccount := Usage(1, 150), FolderAccount("f") := NOTHING]
  const BOTH_CHARGED: Counters := map[UserAccount := Usage(1, 150), FolderAccount("f") := Usage(1, 60)]

  lemma TwoFiles()
    ensures Exact(Separate(100), TWO_FILES, BOTH_CHARGED)
  {
    hide *;
    BothCharged();
    FileByFile();
    TwoOwners();
    SetFileKeepsExact(Separate(100), MOUNT, NO_FILES, A, Some(150));
    SetFileKeepsExact(Separate(100), ONE_FILE, ONE_CHARGED, B, Some(60));
  }

  lemma TwoOwners()
    ensures Owner(Separate(100), A) == UserAccount && Owner(Separate(100), B) == FolderAccount("f")
    ensures LimitFor(Separate(100), B) == Limit(100, 0)
    ensures FolderForPath(Separate(100), Dir(B)).Some?
  {
    Owners(100, "a");
    Owners(100, "b");
  }

  lemma BothCharged()
    ensures UserAccount in NO_FILES && FolderAccount("f") in ONE_CHARGED && HasAccounts(Separate(100), BOTH_CHARGED)
    ensures Charge(NO_FILES, UserAccount, Usage(1, 150).Minus(NOTHING)) == ONE_CHARGED
    ensures Charge(ONE_CHARGED, FolderAccount("f"), Usage(1, 60).Minus(NOTHING)) == BOTH_CHARGED
  {
  }

  lemma FileByFile()
    ensures Exact(Separate(100), MOUNT, NO_FILES)
    ensures A !in MOUNT && WithFile(MOUNT, A, Some(150)) == ONE_FILE
    ensures B !in ONE_FILE && WithFile(ONE_FILE, B, Some(60)) == TWO_FILES
    ensures UsageOfFile(MOUNT, A) == NOTHING && UsageOfFile(ONE_FILE, A) == Usage(1, 150)
    ensures UsageOfFile(ONE_FILE, B) == NOTHING && UsageOfFile(TWO_FILES, B) == Usage(1, 60)
  {
    NothingOwned(Separate(100), MOUNT, NO_FILES);
    hide Exact;
  }

  lemma TwoFilesAreWellFormed()
    ensures Separate(100).Valid() && WellFormed(Separate(100), TWO_FILES)
  {
    assert Dir(A) == HOME && Dir(B) == F;
  }

  const WITHOUT_USAGE := RenameOutcomes(true, false, false, false, false)

  lemma OverwriteIsDone(c: Connection)
    requires c.user == Separate(100) && c.tree == TWO_FILES
    ensures A in TWO_FILES && c.IsDone(A, B, ALLOWED, WITHOUT_USAGE)
    ensures c.IsMeasured(A, B, WITHOUT_USAGE.isReported, WITHOUT_USAGE.remeasureFails)
    ensures UsageAt(TWO_FILES, A) == Usage(1, 150) && UsageOfFile(TWO_FILES, B) == Usage(1, 60)
  {
    TwoOwners();
    FileUsage(TWO_FILES, A);
    assert c.IsRenamePermitted(A, B, ALLOWED);
    assert Dir(B) == F && c.CanBeRenamed(c.tree, A, B);
    hide LimitFor, UsageAt;
  }

  const AFTERWARDS: Counters := map[UserAccount := NOTHING, FolderAccount("f") := Usage(1, 150)]

  lemma SettledBetween(used: Counters, from: Account, to: Account, moved: Usage, replaced: Usage)
    requires from in used && to in used && from != to
    ensures Settle(used, from, to, moved, replaced) ==
            used[from := used[from].Minus(moved)][to := used[to].Plus(moved).Minus(replaced)]
  {
  }

  lemma Overwritten()
    ensures Settle(BOTH_CHARGED, UserAccount, FolderAccount("f"), Usage(1, 150), Usage(1, 60)) == AFTERWARDS
  {
    hide Settle, Charge;
    SettledBetween(BOTH_CHARGED, UserAccount, FolderAccount("f"), Usage(1, 150), Usage(1, 60));
  }

  lemma RenamedIsSettled(c: Connection, tree: Tree, used: Counters, src: Path, dst: Path)
    requires src in tree
    ensures c.Renamed(tree, used, src, dst) ==
            Settle(used, Owner(c.user, src), Owner(c.user, dst), UsageAt(tree, src), UsageOfFile(tree, dst))
  {
    hide Settle, Owner, UsageAt, UsageOfFile;
  }

  /** The usage cannot be looked up: a file of 150 bytes replaces one of 60 in a folder with a quota of 100. */
  method UncheckedOverwriteExceeds() returns (c: Connection, r: Outcome)
    ensures r == Done && Exact(c.user, c.tree, c.used)
    ensures LimitFor(c.user, B) == Limit(100, 0) && Owner(c.user, B) == FolderAccount("f")
    ensures c.used == AFTERWARDS
  {
    hide *;
    TwoFiles();
    TwoFilesAreWellFormed();
    BothCharged();
    TwoOwners();
    c := new Connection(Separate(100), TWO_FILES, BOTH_CHARGED);
    OverwriteIsDone(c);
    r := c.Rename(A, B, ALLOWED, WITHOUT_USAGE);
    RenamedIsSettled(c, TWO_FILES, BOTH_CHARGED, A, B);
    Overwritten();
  }

  // ---------------------------------------------------------------- two folders of one account

  /** Two folders that are included in the user quota of 100 bytes. */
  const INCLUDED := User([VirtualFolder("f", F, -1, -1), VirtualFolder("g", G, -1, -1)], 100, 0, 0)

  const FULL_FOLDER: Tree := map[HOME := Directory, F := Directory, G := Directory, ["f", "a"] := File(100)]

  lemma SameAccount()
    ensures Owner(INCLUDED, ["f", "a"]) == UserAccount && Owner(INCLUDED, ["g", "a"]) == UserAccount
    ensures LimitFor(INCLUDED, ["g", "a"]) == Limit(100, 0)
    ensures FolderForPath(INCLUDED, Dir(["f", "a"])) == Some(INCLUDED.folders[0])
    ensures FolderForPath(INCLUDED, Dir(["g", "a"])) == Some(INCLUDED.folders[1])
  {
    var folders := INCLUDED.folders;
    assert Dir(["f", "a"]) == F && Dir(["g", "a"]) == G && F[0] != G[0];
    assert folders[1..] == [folders[1]];
    assert MountedAt(folders, F) == Some(folders[0]);
    assert MountedAt(folders, G) == MountedAt(folders[1..], G) == Some(folders[1]);
  }

  /** At the quota, a move between two folders of the same account is refused although no account would change. */
  method MoveWithinAccountIsRefused() returns (c: Connection, ok: bool)
    ensures c.Valid() && c.tree == FULL_FOLDER && ["f", "a"] in c.tree && UserAccount in c.used
    ensures Owner(c.user, ["f", "a"]) == Owner(c.user, ["g", "a"]) == UserAccount
    ensures c.Renamed(c.tree, c.used, ["f", "a"], ["g", "a"]) == c.used
    ensures !ok
  {
    var used := map[UserAccount := Usage(1, 100), FolderAccount("f") := NOTHING, FolderAccount("g") := NOTHING];
    SameAccount();
    FullFolderIsWellFormed();
    hide Owner, LimitFor, FolderForPath, WellFormed, UsageAt;
    c := new Connection(INCLUDED, FULL_FOLDER, used);
    SettleSame(used, UserAccount, UsageAt(FULL_FOLDER, ["f", "a"]), NOTHING);
    ok := c.HasSpaceForRename(["f", "a"], ["g", "a"], -1, false, false);
  }

  lemma FullFolderIsWellFormed()
    ensures INCLUDED.Valid() && WellFormed(INCLUDED, FULL_FOLDER)
  {
    assert F[0] != G[0] && Dir(["f", "a"]) == F;
  }
}
