/** Quota enforcement and quota updates of one connection, for renames and single-file changes. */
module Quota {
  import opened Accounting
  import opened Options
  import opened Paths
  import opened VirtualFolders

  datatype QuotaCheckResult =
    QuotaCheckResult(hasSpace: bool, allowedSize: int, allowedFiles: int, usedSize: int, usedFiles: int,
                     quotaSize: int, quotaFiles: int)
  {
    function GetRemainingSize(): int { if quotaSize > 0 then quotaSize - usedSize else 0 }
    function GetRemainingFiles(): int { if quotaFiles > 0 then quotaFiles - usedFiles else 0 }
  }

  /** The disk quota of an account; a limit that is not positive does not apply. */
  datatype Limit = Limit(size: int, files: int)
  {
    predicate HasNoRestrictions(checkFiles: bool) { size == 0 && (!checkFiles || files == 0) }
    predicate SizeAllows(u: Usage) { size > 0 ==> u.size <= size }
    predicate FilesAllow(u: Usage) { files > 0 ==> u.files <= files }
    /** There is room for something new. */
    predicate HasRoom(checkFiles: bool, u: Usage)
    {
      (size > 0 ==> u.size < size) && (checkFiles && files > 0 ==> u.files < files)
    }
  }

  /** What a space check reports for an account with the given usage; looking up the usage may fail. */
  function CheckQuota(limit: Limit, usage: Usage, checkFiles: bool, getUsage: bool, usageFails: bool): QuotaCheckResult
  {
    if limit.HasNoRestrictions(checkFiles) && !getUsage then QuotaCheckResult(true, 0, 0, 0, 0, 0, 0)
    else if usageFails then QuotaCheckResult(false, 0, 0, 0, 0, limit.size, limit.files)
    else QuotaCheckResult(limit.HasRoom(checkFiles, usage), limit.size - usage.size, limit.files - usage.files,
                          usage.size, usage.files, limit.size, limit.files)
  }

  /** The quota that applies to a file: its folder's own, or the user's. */
  function LimitFor(user: User, p: Path): Limit
  {
    var folder := FolderForPath(user, Dir(p));
    if folder.Some? && !folder.value.IsIncludedInUserQuota()
    then Limit(folder.value.quotaSize, folder.value.quotaFiles)
    else Limit(user.quotaSize, user.quotaFiles)
  }

  /** What a rename adds to the destination account. */
  function Replacing(initialSize: int): Usage
  {
    if initialSize == -1 then NOTHING else Usage(1, initialSize)
  }

  /** A rename into another account is accepted exactly when its result fits. */
  predicate RenameFits(limit: Limit, before: Usage, moved: Usage, replaced: Usage)
  {
    var after := before.Plus(moved).Minus(replaced);
    limit.SizeAllows(after) &&
    (replaced == NOTHING ==> limit.HasRoom(true, before) && limit.FilesAllow(after))
  }

  /** What the check accepts: without the usage, only overwrites where a quota applies, as if nothing was used. */
  predicate MayRename(limit: Limit, before: Usage, moved: Usage, replaced: Usage, usageFails: bool)
  {
    && RenameFits(limit, if usageFails then NOTHING else before, moved, replaced)
    && (usageFails && replaced == NOTHING ==> limit.HasNoRestrictions(true))
  }

  /**
   * The check in numbers. An overwrite passes if the sizes fit; something new passes if there is room, and sizes and
   * numbers of files fit.
   */
  lemma MayRenameMeans(limit: Limit, before: Usage, moved: Usage, initialSize: int)
    requires initialSize >= -1
    ensures MayRename(limit, before, moved, Replacing(initialSize), false) <==>
            if initialSize >= 0 then
              0 < limit.size ==> before.size + moved.size - initialSize <= limit.size
            else
              && (0 < limit.size ==> before.size < limit.size && before.size + moved.size <= limit.size)
              && (0 < limit.files ==> before.files < limit.files && before.files + moved.files <= limit.files)
    ensures MayRename(limit, before, moved, Replacing(initialSize), true) <==>
            if initialSize >= 0 then 0 < limit.size ==> moved.size - initialSize <= limit.size
            else limit.size == 0 && limit.files == 0
  {
  }

  lemma CheckedMove(limit: Limit, before: Usage, moved: Usage, replaced: Usage, usageFails: bool)
    ensures var q := CheckQuota(limit, before, true, false, usageFails);
            && (q.hasSpace ==> Limit(q.quotaSize, q.quotaFiles).HasRoom(true, Usage(q.usedFiles, q.usedSize)))
            && (MayRename(limit, before, moved, replaced, usageFails) <==>
                  (replaced == NOTHING ==> q.hasSpace) &&
                  RenameFits(Limit(q.quotaSize, q.quotaFiles), Usage(q.usedFiles, q.usedSize), moved, replaced))
            && (q.hasSpace && q.quotaSize == 0 && q.quotaFiles == 0 <==> limit.HasNoRestrictions(true))
  {
  }

  /** The size quota holds, and the file quota holds if it held before. */
  predicate StaysWithin(limit: Limit, before: Usage, after: Usage)
  {
    limit.SizeAllows(after) && (limit.FilesAllow(before) ==> limit.FilesAllow(after))
  }

  /** An overwrite checked without the usage breaks the quota if it grows by more than what is left of it. */
  lemma UncheckedOverwriteExceedsIff(limit: Limit, before: Usage, moved: Usage, replaced: Usage)
    requires limit.size > 0 && before.size <= limit.size && replaced != NOTHING && replaced.files == moved.files
    ensures RenameFits(limit, NOTHING, moved, replaced) &&
            !StaysWithin(limit, before, before.Plus(moved).Minus(replaced)) <==>
            limit.size - before.size < moved.size - replaced.size <= limit.size
  {
  }

  lemma StaysWithinMeans(limit: Limit, before: Usage, after: Usage)
    ensures StaysWithin(limit, before, after) <==>
            (0 < limit.size ==> after.size <= limit.size) &&
            (0 < limit.files && before.files <= limit.files ==> after.files <= limit.files)
  {
  }

  lemma UnlimitedStaysWithin(limit: Limit, before: Usage, moved: Usage, replaced: Usage)
    ensures limit.HasNoRestrictions(true) ==> StaysWithin(limit, before, before.Plus(moved).Minus(replaced))
  {
  }

  lemma FittingRenameStaysWithin(limit: Limit, before: Usage, moved: Usage, replaced: Usage)
    requires RenameFits(limit, before, moved, replaced)
    requires replaced == NOTHING || replaced.files == moved.files
    ensures StaysWithin(limit, before, before.Plus(moved).Minus(replaced))
  {
  }

  /** What fails, or is not reported, while a file or a directory is renamed. */
  datatype RenameOutcomes = RenameOutcomes(usageFails: bool, measureFails: bool, renameFails: bool, isReported: bool,
                                           remeasureFails: bool)

  datatype Outcome = Done | OpUnsupported | PermissionDenied | NotExist | QuotaExceeded | FsFailure

  /** What the pre-delete action does: an event rule that removes the file also updates the quota. */
  datatype PreDelete = Denied | Passed | RemovedByHook | RemovedByRule

  /** Decisions taken by permissions, file patterns, mapped paths and storage identity. */
  datatype Policy = Policy(sameResource: bool, nestedInStorage: bool, renameAllowed: bool, overwriteAllowed: bool,
                           dirRenameAllowed: bool)

  // ---------------------------------------------------------------- upload limits

  datatype WriteLimit = Allowed(max: int) | Unsupported | TooLarge

  /** After uploading w bytes the account is within its size quota and the file within the upload limit. */
  predicate WriteFits(q: QuotaCheckResult, maxUploadFileSize: int, isResume: bool, fileSize: nat, w: nat)
  {
    var newSize := if isResume then fileSize + w else w;
    (q.quotaSize > 0 ==> q.usedSize - fileSize + newSize <= q.quotaSize) &&
    (maxUploadFileSize > 0 ==> newSize <= maxUploadFileSize)
  }

  /** Given room for something new, the limit admits exactly the uploads that fit; 0 means no limit at all. */
  method GetMaxWriteSize(maxUploadFileSize: int, q: QuotaCheckResult, isResume: bool, fileSize: nat,
                         isUploadResumeSupported: bool)
    returns (r: WriteLimit)
    ensures r.Unsupported? <==> isResume && !isUploadResumeSupported
    ensures r.TooLarge? <==> isResume && isUploadResumeSupported && 0 < maxUploadFileSize <= fileSize
    ensures r.Allowed? && (q.quotaSize > 0 ==> q.usedSize < q.quotaSize) ==>
              && r.max >= 0
              && (r.max == 0 <==> q.quotaSize <= 0 && maxUploadFileSize <= 0)
              && forall w: nat :: (r.max == 0 || w <= r.max) <==> WriteFits(q, maxUploadFileSize, isResume, fileSize, w)
  {
    var maxWriteSize := q.GetRemainingSize();
    if isResume {
      if !isUploadResumeSupported {
        return Unsupported;
      }
      if maxUploadFileSize > 0 && maxUploadFileSize <= fileSize {
        return TooLarge;
      }
      if maxUploadFileSize > 0 {
        var maxUploadSize := maxUploadFileSize - fileSize;
        if maxUploadSize < maxWriteSize || maxWriteSize == 0 {
          maxWriteSize := maxUploadSize;
        }
      }
    } else {
      if maxWriteSize > 0 {
        maxWriteSize := maxWriteSize + fileSize;
      }
      if maxUploadFileSize > 0 && (maxUploadFileSize < maxWriteSize || maxWriteSize == 0) {
        maxWriteSize := maxUploadFileSize;
      }
    }
    return Allowed(maxWriteSize);
  }

  class Connection {
    const user: User
    var tree: Tree
    var used: Counters

    constructor (user: User, tree: Tree, used: Counters)
      requires user.Valid() && HasAccounts(user, used) && WellFormed(user, tree)
      ensures Valid() && this.user == user && this.tree == tree && this.used == used
    {
      this.user, this.tree, this.used := user, tree, used;
    }

    ghost predicate Valid()
      reads this
    {
      user.Valid() && HasAccounts(user, used) && WellFormed(user, tree)
    }

    method UpdateUserQuota(filesAdd: int, sizeAdd: int)
      requires UserAccount in used
      modifies `used
      ensures used == Charge(old(used), UserAccount, Usage(filesAdd, sizeAdd))
    {
      if filesAdd == 0 && sizeAdd == 0 {
        return;
      }
      used := used[UserAccount := used[UserAccount].Plus(Usage(filesAdd, sizeAdd))];
    }

    method UpdateVirtualFolderQuota(folder: VirtualFolder, filesAdd: int, sizeAdd: int)
      requires FolderAccount(folder.name) in used
      modifies `used
      ensures used == Charge(old(used), FolderAccount(folder.name), Usage(filesAdd, sizeAdd))
    {
      if filesAdd == 0 && sizeAdd == 0 {
        return;
      }
      var a := FolderAccount(folder.name);
      used := used[a := used[a].Plus(Usage(filesAdd, sizeAdd))];
    }

    method UpdateUserFolderQuota(folder: VirtualFolder, filesAdd: int, sizeAdd: int)
      requires HasAccounts(user, used) && folder in user.folders
      modifies `used
      ensures used == Charge(old(used), AccountOf(Some(folder)), Usage(filesAdd, sizeAdd))
    {
      if folder.IsIncludedInUserQuota() {
        UpdateUserQuota(filesAdd, sizeAdd);
        return;
      }
      UpdateVirtualFolderQuota(folder, filesAdd, sizeAdd);
    }

    // -------------------------------------------------------------- space checks

    /** Reports the limit and the usage of the account charged for requestPath. */
    method HasSpace(checkFiles: bool, getUsage: bool, requestPath: Path, usageFails: bool)
      returns (result: QuotaCheckResult)
      requires HasAccounts(user, used)
      ensures result == CheckQuota(LimitFor(user, requestPath), UsedBy(used, Owner(user, requestPath)), checkFiles,
                                   getUsage, usageFails)
      ensures var limit, usage := LimitFor(user, requestPath), UsedBy(used, Owner(user, requestPath));
              !usageFails ==>
                (result.hasSpace <==> (0 < limit.size ==> usage.size < limit.size) &&
                                      (checkFiles && 0 < limit.files ==> usage.files < limit.files))
    {
      result := QuotaCheckResult(true, 0, 0, 0, 0, 0, 0);
      var vfolder := GetVirtualFolderForPath(user, Dir(requestPath));
      if vfolder.Some? && !vfolder.value.IsIncludedInUserQuota() {
        if vfolder.value.HasNoQuotaRestrictions(checkFiles) && !getUsage {
          return;
        }
        var usage := if usageFails then NOTHING else used[FolderAccount(vfolder.value.name)];
        result := result.(quotaSize := vfolder.value.quotaSize, quotaFiles := vfolder.value.quotaFiles,
          usedFiles := usage.files, usedSize := usage.size);
      } else {
        if user.HasNoQuotaRestrictions(checkFiles) && !getUsage {
          return;
        }
        var usage := if usageFails then NOTHING else used[UserAccount];
        result := result.(quotaSize := user.quotaSize, quotaFiles := user.quotaFiles,
          usedFiles := usage.files, usedSize := usage.size);
      }
      if usageFails {
        result := result.(hasSpace := false);
        return;
      }
      result := result.(allowedFiles := result.quotaFiles - result.usedFiles,
        allowedSize := result.quotaSize - result.usedSize);
      if (checkFiles && result.quotaFiles > 0 && result.usedFiles >= result.quotaFiles) ||
         (result.quotaSize > 0 && result.usedSize >= result.quotaSize) {
        result := result.(hasSpace := false);
      }
    }

    /** Counts the regular files in a directory and adds their sizes, as a walk of the storage does. */
    method GetDirSize(p: Path) returns (files: int, size: int)
      requires p in tree
      ensures Usage(files, size) == if tree[p].Directory? then UsageAt(tree, p) else NOTHING
      ensures size >= 0
    {
      files, size := 0, 0;
      if tree[p].File? {
        return;
      }
      var found := Files(Leaving(tree, p));
      ghost var all := found;
      while found != map[]
        invariant Usage(files, size).Plus(Measure(found)) == Measure(all)
        invariant size >= 0 && forall q :: q in found ==> found[q] >= 0
        decreases |found|
      {
        var q :| q in found;
        files, size := files + 1, size + found[q];
        MeasureWithout(found, q);
        found := found - {q};
      }
    }

    /**
     * A move that is checked passes exactly when its result would fit the account of the target if all of it was new
     * there, and a directory can be measured; where no quota applies it always passes. Without the usage an overwrite
     * is checked as if nothing was used. Between two folders that are both included in the user quota the move is
     * checked although it stays in one account.
     */
    method HasSpaceForRename(src: Path, dst: Path, initialSize: int, measureFails: bool, usageFails: bool)
      returns (ok: bool)
      requires Valid() && src in tree
      requires initialSize >= -1
      ensures tree[src].File? || initialSize == -1 ==>
                (ok <==> IsSpaceFound(src, dst, Replacing(initialSize), measureFails, usageFails))
    {
      var sourceFolder := GetVirtualFolderForPath(user, Dir(src));
      var dstFolder := GetVirtualFolderForPath(user, Dir(dst));
      if sourceFolder.None? && dstFolder.None? {
        return true;
      }
      if sourceFolder.Some? && dstFolder.Some? && sourceFolder.value.name == dstFolder.value.name {
        SameNameSameFolder(src, dst);
        return true;
      }
      if sourceFolder.None? && dstFolder.value.IsIncludedInUserQuota() {
        return true;
      }
      if dstFolder.None? && sourceFolder.value.IsIncludedInUserQuota() {
        return true;
      }
      hide RenameFits, MayRename, CheckQuota, UsageAt, LimitFor, UsedBy;
      var quotaResult := HasSpace(true, false, dst, usageFails);
      CheckedMove(LimitFor(user, dst), UsedBy(used, Owner(user, dst)), UsageAt(tree, src), Replacing(initialSize),
                  usageFails);
      if quotaResult.hasSpace && quotaResult.quotaSize == 0 && quotaResult.quotaFiles == 0 {
        return true;
      }
      ok := HasSpaceForCrossRename(quotaResult, initialSize, src, measureFails);
    }

    /** The quota is checked unless both are in the home or in one folder, or in the home and an included folder. */
    predicate IsChecked(src: Path, dst: Path)
    {
      var s, d := FolderForPath(user, Dir(src)), FolderForPath(user, Dir(dst));
      && !(s.None? && d.None?)
      && !(s.Some? && d.Some? && s.value.name == d.value.name)
      && !(s.None? && d.value.IsIncludedInUserQuota())
      && !(d.None? && s.value.IsIncludedInUserQuota())
    }

    ghost predicate IsSpaceFound(src: Path, dst: Path, replaced: Usage, measureFails: bool, usageFails: bool)
      requires src in tree
      reads this
    {
      IsChecked(src, dst) ==>
        LimitFor(user, dst).HasNoRestrictions(true) ||
        (!(tree[src].Directory? && measureFails) &&
         MayRename(LimitFor(user, dst), UsedBy(used, Owner(user, dst)), UsageAt(tree, src), replaced, usageFails))
    }

    lemma SpaceFoundFits(src: Path, dst: Path, replaced: Usage, o: RenameOutcomes)
      requires src in tree && IsSpaceFound(src, dst, replaced, o.measureFails, o.usageFails)
      ensures IsChecked(src, dst) && (o.usageFails ==> replaced == NOTHING) ==>
                LimitFor(user, dst).HasNoRestrictions(true) ||
                RenameFits(LimitFor(user, dst), UsedBy(used, Owner(user, dst)), UsageAt(tree, src), replaced)
    {
    }

    /** Moves to another account are checked, and within one account those between two different folders. */
    lemma CheckedIff(src: Path, dst: Path)
      requires user.Valid()
      ensures var s, d := FolderForPath(user, Dir(src)), FolderForPath(user, Dir(dst));
              IsChecked(src, dst) <==>
              Owner(user, src) != Owner(user, dst) || (s.Some? && d.Some? && s.value.name != d.value.name)
    {
      FolderForPathIsNearest(user, Dir(src));
      FolderForPathIsNearest(user, Dir(dst));
      var s, d := FolderForPath(user, Dir(src)), FolderForPath(user, Dir(dst));
      if s.Some? && d.Some? && s.value.name == d.value.name {
        SameNameSameFolder(src, dst);
      }
    }

    lemma SameNameSameFolder(src: Path, dst: Path)
      requires user.Valid()
      requires var s, d := FolderForPath(user, Dir(src)), FolderForPath(user, Dir(dst));
               s.Some? && d.Some? && s.value.name == d.value.name
      ensures FolderForPath(user, Dir(src)) == FolderForPath(user, Dir(dst))
    {
      FolderForPathIsNearest(user, Dir(src));
      FolderForPathIsNearest(user, Dir(dst));
    }

    method HasSpaceForCrossRename(quotaResult: QuotaCheckResult, initialSize: int, src: Path, measureFails: bool)
      returns (ok: bool)
      requires src in tree
      requires initialSize >= -1
      requires var used := Usage(quotaResult.usedFiles, quotaResult.usedSize);
               quotaResult.hasSpace ==> Limit(quotaResult.quotaSize, quotaResult.quotaFiles).HasRoom(true, used)
      ensures tree[src].File? || initialSize == -1 ==>
                var limit, used := Limit(quotaResult.quotaSize, quotaResult.quotaFiles),
                                   Usage(quotaResult.usedFiles, quotaResult.usedSize);
                ok <==> (initialSize == -1 ==> quotaResult.hasSpace) &&
                        RenameFits(limit, used, UsageAt(tree, src), Replacing(initialSize)) &&
                        !(tree[src].Directory? && measureFails)
    {
      if !quotaResult.hasSpace && initialSize == -1 {
        return false;
      }
      var sizeDiff, filesDiff := 0, 0;
      match tree[src] {
        case File(size) =>
          FileUsage(tree, src);
          sizeDiff, filesDiff := size, 1;
          if initialSize != -1 {
            sizeDiff, filesDiff := sizeDiff - initialSize, 0;
          }
        case Directory =>
          if measureFails {
            return false;
          }
          filesDiff, sizeDiff := GetDirSize(src);
      }
      if !quotaResult.hasSpace && initialSize != -1 {
        if quotaResult.quotaSize == 0 {
          return true;
        }
        var result := quotaResult.(usedSize := quotaResult.usedSize + sizeDiff);
        return result.GetRemainingSize() >= 0;
      }
      if quotaResult.quotaFiles > 0 && quotaResult.GetRemainingFiles() < filesDiff {
        return false;
      }
      if quotaResult.quotaSize > 0 && quotaResult.GetRemainingSize() < sizeDiff {
        return false;
      }
      return true;
    }

    // -------------------------------------------------------------- quota updates

    method UpdateQuotaMoveBetweenVFolders(sourceFolder: VirtualFolder, dstFolder: VirtualFolder, initialSize: int,
                                          filesSize: int, numFiles: int)
      requires HasAccounts(user, used) && sourceFolder in user.folders && dstFolder in user.folders && user.Valid()
      requires initialSize != -1 ==> numFiles == 1
      modifies `used
      ensures used == Settle(old(used), AccountOf(Some(sourceFolder)), AccountOf(Some(dstFolder)),
                             Usage(numFiles, filesSize), Replacing(initialSize))
    {
      if sourceFolder.name == dstFolder.name {
        SettleSame(used, AccountOf(Some(dstFolder)), Usage(numFiles, filesSize), Replacing(initialSize));
        if initialSize != -1 {
          UpdateUserFolderQuota(dstFolder, -numFiles, -initialSize);
        }
        return;
      }
      UpdateUserFolderQuota(sourceFolder, -numFiles, -filesSize);
      if initialSize == -1 {
        UpdateUserFolderQuota(dstFolder, numFiles, filesSize);
        return;
      }
      UpdateUserFolderQuota(dstFolder, 0, filesSize - initialSize);
    }

    method UpdateQuotaMoveFromVFolder(sourceFolder: VirtualFolder, initialSize: int, filesSize: int, numFiles: int)
      requires HasAccounts(user, used) && sourceFolder in user.folders
      requires initialSize != -1 ==> numFiles == 1
      modifies `used
      ensures used == Settle(old(used), AccountOf(Some(sourceFolder)), UserAccount,
                             Usage(numFiles, filesSize), Replacing(initialSize))
    {
      UpdateUserFolderQuota(sourceFolder, -numFiles, -filesSize);
      if initialSize == -1 {
        UpdateUserQuota(numFiles, filesSize);
        return;
      }
      UpdateUserQuota(0, filesSize - initialSize);
    }

    method UpdateQuotaMoveToVFolder(dstFolder: VirtualFolder, initialSize: int, filesSize: int, numFiles: int)
      requires HasAccounts(user, used) && dstFolder in user.folders
      requires initialSize != -1 ==> numFiles == 1
      modifies `used
      ensures used == Settle(old(used), UserAccount, AccountOf(Some(dstFolder)),
                             Usage(numFiles, filesSize), Replacing(initialSize))
    {
      UpdateUserQuota(-numFiles, -filesSize);
      if initialSize == -1 {
        UpdateUserFolderQuota(dstFolder, numFiles, filesSize);
        return;
      }
      UpdateUserFolderQuota(dstFolder, 0, filesSize - initialSize);
    }

    method UpdateQuotaInHome(initialSize: int, ghost moved: Usage)
      requires UserAccount in used
      modifies `used
      ensures used == Settle(old(used), UserAccount, UserAccount, moved, Replacing(initialSize))
    {
      SettleSame(used, UserAccount, moved, Replacing(initialSize));
      if initialSize != -1 {
        UpdateUserQuota(-1, -initialSize);
      }
    }

    /** What the rename moved: as reported by the storage, or measured at the target, which may fail. */
    method MeasureRenamed(dst: Path, reportedFiles: int, reportedSize: int, fails: bool)
      returns (ok: bool, numFiles: int, filesSize: int)
      requires dst in tree
      requires reportedSize == -1 || Usage(reportedFiles, reportedSize) == UsageAt(tree, dst)
      ensures ok <==> reportedSize != -1 || !fails
      ensures ok ==> Usage(numFiles, filesSize) == UsageAt(tree, dst)
      ensures ok && tree[dst].File? ==> numFiles == 1
    {
      hide Measure, Leaving;
      ok, numFiles, filesSize := true, reportedFiles, reportedSize;
      if tree[dst].File? {
        FileUsage(tree, dst);
      }
      if filesSize == -1 {
        if fails {
          return false, numFiles, filesSize;
        }
        numFiles := 1;
        match tree[dst] {
          case Directory => numFiles, filesSize := GetDirSize(dst);
          case File(size) => filesSize := size;
        }
      }
    }

    /** Whatever has to be measured at the target after a rename can be. */
    predicate IsMeasured(src: Path, dst: Path, isReported: bool, fails: bool)
    {
      (FolderForPath(user, Dir(src)).None? && FolderForPath(user, Dir(dst)).None?) || isReported || !fails
    }

    /**
     * All the cases settle the two owners for what is now at the target and for what it replaced. If that cannot be
     * measured no account is updated, and the error is dropped.
     */
    method UpdateQuotaAfterRename(src: Path, dst: Path, initialSize: int, reportedFiles: int, reportedSize: int,
                                  measureFails: bool)
      requires Valid() && dst in tree
      requires initialSize >= -1 && (initialSize != -1 ==> tree[dst].File?)
      requires reportedSize == -1 || Usage(reportedFiles, reportedSize) == UsageAt(tree, dst)
      modifies `used
      ensures used == if IsMeasured(src, dst, reportedSize != -1, measureFails)
                      then Settle(old(used), Owner(user, src), Owner(user, dst), UsageAt(tree, dst),
                                  Replacing(initialSize))
                      else old(used)
    {
      hide UsageAt, FolderForPath, Settle, Charge, WellFormed;
      var sourceFolder := GetVirtualFolderForPath(user, Dir(src));
      var dstFolder := GetVirtualFolderForPath(user, Dir(dst));
      if sourceFolder.None? && dstFolder.None? {
        UpdateQuotaInHome(initialSize, UsageAt(tree, dst));
        return;
      }
      var ok, numFiles, filesSize := MeasureRenamed(dst, reportedFiles, reportedSize, measureFails);
      if !ok {
        return;
      }
      if sourceFolder.Some? && dstFolder.Some? {
        UpdateQuotaMoveBetweenVFolders(sourceFolder.value, dstFolder.value, initialSize, filesSize, numFiles);
      }
      if sourceFolder.Some? && dstFolder.None? {
        UpdateQuotaMoveFromVFolder(sourceFolder.value, initialSize, filesSize, numFiles);
      }
      if sourceFolder.None? && dstFolder.Some? {
        UpdateQuotaMoveToVFolder(dstFolder.value, initialSize, filesSize, numFiles);
      }
    }

    // -------------------------------------------------------------- single files

    method ChargeOwner(p: Path, filesAdd: int, sizeAdd: int)
      requires HasAccounts(user, used)
      modifies `used
      ensures used == Charge(old(used), Owner(user, p), Usage(filesAdd, sizeAdd))
    {
      var vfolder := GetVirtualFolderForPath(user, Dir(p));
      if vfolder.Some? {
        UpdateUserFolderQuota(vfolder.value, filesAdd, sizeAdd);
      } else {
        UpdateUserQuota(filesAdd, sizeAdd);
      }
    }

    /**
     * Removes a regular file and gives its account one file and its size back, once: also if the pre-delete hook has
     * removed the file, or an event rule has removed it and updated the quota.
     */
    method RemoveFile(p: Path, allowed: bool, preDelete: PreDelete, fails: bool) returns (r: Outcome)
      requires Valid() && Exact(user, tree, used)
      requires p in tree && tree[p].File?
      modifies this
      ensures Valid() && Exact(user, tree, used)
      ensures r == Done <==> allowed && preDelete != Denied && (preDelete == Passed ==> !fails)
      ensures r == Done ==> tree == old(tree) - {p}
      ensures r != Done ==> tree == old(tree) && used == old(used)
    {
      hide Exact, WellFormed, HasAccounts, Owner, Charge;
      if !allowed {
        return PermissionDenied;
      }
      var size: int := tree[p].size;
      FileRemoved(user, tree, used, p);
      var updateQuota := true;
      match preDelete {
        case Denied => return PermissionDenied;
        case Passed =>
          if fails {
            return FsFailure;
          }
        case RemovedByHook =>
        case RemovedByRule =>
          ChargeOwner(p, -1, -size);
          updateQuota := false;
      }
      tree := tree - {p};
      if updateQuota {
        ChargeOwner(p, -1, -size);
      }
      return Done;
    }

    /** Truncates, or extends, a file that no transfer of the connection has open. */
    method TruncateByPath(p: Path, size: nat, fails: bool) returns (r: Outcome)
      requires Valid() && Exact(user, tree, used)
      modifies this
      ensures Valid() && Exact(user, tree, used)
      ensures r == Done <==> p in old(tree) && old(tree)[p].File? && !fails
      ensures r == Done ==> tree == old(tree)[p := File(size)]
      ensures r != Done ==> tree == old(tree) && used == old(used)
    {
      hide Exact, WellFormed, HasAccounts, Owner, Charge;
      if p !in tree {
        return NotExist;
      }
      if fails || tree[p].Directory? {
        return FsFailure;
      }
      FileResized(user, tree, used, p, size);
      var oldSize: int := tree[p].size;
      var sizeDiff := oldSize - size;
      tree := tree[p := File(size)];
      ChargeOwner(p, 0, -sizeDiff);
      return Done;
    }

    // -------------------------------------------------------------- renaming

    /** The storage rename: it can fail, and it may or may not report what it moved. */
    method FsRename(src: Path, dst: Path, fails: bool, isReported: bool) returns (ok: bool, files: int, size: int)
      requires src in tree
      modifies `tree
      ensures ok <==> !fails && CanBeRenamed(old(tree), src, dst)
      ensures tree == if ok then Moved(old(tree), src, dst) else old(tree)
      ensures ok ==> (size != -1 <==> isReported)
      ensures ok && isReported ==> Usage(files, size) == UsageAt(old(tree), src)
    {
      files, size := -1, -1;
      if fails || !HasParent(tree, dst) ||
         (dst in tree && (tree[dst].Directory? || tree[src].Directory?)) {
        return false, files, size;
      }
      if isReported {
        match tree[src] {
          case Directory =>
            files, size := GetDirSize(src);
          case File(n) =>
            FileUsage(tree, src);
            files, size := 1, n;
        }
      }
      tree := Moved(tree, src, dst);
      ok := true;
    }

    /** The target has a parent directory, and only a file replaces a file. */
    predicate CanBeRenamed(tree: Tree, src: Path, dst: Path)
      requires src in tree
    {
      HasParent(tree, dst) && (dst in tree ==> tree[dst].File? && tree[src].File?)
    }

    /** A directory may be renamed exactly if nothing is nested, there are no folders inside, and it is permitted. */
    method CheckFolderRename(src: Path, dst: Path, policy: Policy) returns (r: Outcome)
      ensures r == Done <==> IsFolderRenamePermitted(src, dst, policy)
      ensures r in {Done, OpUnsupported, PermissionDenied}
    {
      if IsDirOverlapped(src, dst) || policy.nestedInStorage {
        return OpUnsupported;
      }
      if user.HasVirtualFoldersInside(src) || user.HasVirtualFoldersInside(dst) {
        return OpUnsupported;
      }
      return if policy.dirRenameAllowed then Done else PermissionDenied;
    }

    predicate IsFolderRenamePermitted(src: Path, dst: Path, policy: Policy)
    {
      && !IsDirOverlapped(src, dst) && !policy.nestedInStorage
      && !user.HasVirtualFoldersInside(src) && !user.HasVirtualFoldersInside(dst) && policy.dirRenameAllowed
    }

    predicate IsRenamePermitted(src: Path, dst: Path, policy: Policy)
    {
      policy.sameResource && src != [] && dst != [] &&
      !user.IsVirtualFolder(src) && !user.IsVirtualFolder(dst) && policy.renameAllowed
    }

    /** Every check is passed, and the storage renames. */
    ghost predicate IsDone(src: Path, dst: Path, policy: Policy, o: RenameOutcomes)
      reads this
    {
      IsPassed(src, dst, policy, o) && !o.renameFails && CanBeRenamed(tree, src, dst)
    }

    ghost predicate IsPassed(src: Path, dst: Path, policy: Policy, o: RenameOutcomes)
      reads this
    {
      && src != dst && src in tree && IsRenamePermitted(src, dst, policy)
      && (dst in tree ==> policy.overwriteAllowed)
      && (tree[src].Directory? ==> IsFolderRenamePermitted(src, dst, policy))
      && IsSpaceFound(src, dst, UsageOfFile(tree, dst), o.measureFails, o.usageFails)
    }

    /** Everything that is checked before the storage renames, and the size of the file that is going to be replaced. */
    method CheckRename(src: Path, dst: Path, policy: Policy, o: RenameOutcomes) returns (r: Outcome, initialSize: int)
      requires Valid()
      ensures r == Done ==> src != dst && src in tree && IsRenamePermitted(src, dst, policy)
      ensures r == Done && CanBeRenamed(tree, src, dst) ==> IsPassed(src, dst, policy, o)
      ensures src in tree && CanBeRenamed(tree, src, dst) && IsPassed(src, dst, policy, o) ==> r == Done
      ensures r == Done && CanBeRenamed(tree, src, dst) ==>
                initialSize >= -1 && UsageOfFile(tree, dst) == Replacing(initialSize) &&
                initialSize == if dst in tree then tree[dst].size else -1
    {
      hide WellFormed, HasAccounts, Leaving, Measure, Owner, LimitFor, UsedBy, RenameFits, UsageAt, IsChecked,
           MayRename, IsSpaceFound;
      initialSize := -1;
      if src == dst {
        return OpUnsupported, initialSize;
      }
      if src !in tree {
        return NotExist, initialSize;
      }
      if !IsRenamePermitted(src, dst, policy) {
        return PermissionDenied, initialSize;
      }
      if dst in tree {
        match tree[dst] {
          case Directory => return OpUnsupported, initialSize;
          case File(size) => initialSize := size;
        }
        if !policy.overwriteAllowed {
          return PermissionDenied, initialSize;
        }
      }
      if tree[src].Directory? {
        var check := CheckFolderRename(src, dst, policy);
        if check != Done {
          return check, initialSize;
        }
      }
      var hasSpace := HasSpaceForRename(src, dst, initialSize, o.measureFails, o.usageFails);
      if !hasSpace {
        return QuotaExceeded, initialSize;
      }
      return Done, initialSize;
    }

    /** The accounts after a rename that was done. */
    ghost function Renamed(tree: Tree, used: Counters, src: Path, dst: Path): Counters
      requires src in tree
    {
      Settle(used, Owner(user, src), Owner(user, dst), UsageAt(tree, src), UsageOfFile(tree, dst))
    }

    /**
     * Renames a file or a directory tree. On failure nothing changes. A rename that is done keeps exact accounts exact
     * if and only if what moved could be measured afterwards, or there was nothing to update. A move into another
     * account respects that account's quota, unless it overwrites a file while the usage cannot be looked up.
     */
    method Rename(src: Path, dst: Path, policy: Policy, o: RenameOutcomes) returns (r: Outcome)
      requires Valid() && Exact(user, tree, used)
      modifies this
      ensures Valid()
      ensures r != Done ==> tree == old(tree) && used == old(used)
      ensures r == Done <==> old(IsDone(src, dst, policy, o))
      ensures r == Done ==> tree == Moved(old(tree), src, dst)
      ensures r == Done ==>
                used == if IsMeasured(src, dst, o.isReported, o.remeasureFails)
                        then Renamed(old(tree), old(used), src, dst) else old(used)
      ensures r == Done ==>
                (Exact(user, tree, used) <==>
                   IsMeasured(src, dst, o.isReported, o.remeasureFails) ||
                   (dst !in old(tree) && (Owner(user, src) == Owner(user, dst) || UsageAt(old(tree), src) == NOTHING)))
      ensures r == Done && Owner(user, src) != Owner(user, dst) && (o.usageFails ==> dst !in old(tree)) ==>
                var limit, before := LimitFor(user, dst), UsedBy(old(used), Owner(user, dst));
                var after := Measure(Owned(user, tree, Owner(user, dst)));
                && (0 < limit.size ==> after.size <= limit.size)
                && (0 < limit.files && before.files <= limit.files ==> after.files <= limit.files)
    {
      hide Exact, WellFormed, HasAccounts, Leaving, Measure, Moved, Owner, LimitFor, Settle, UsedBy, RenameFits,
           StaysWithin, Owned, UsageAt, IsMeasured, IsChecked, MayRename, IsSpaceFound;
      var check, initialSize := CheckRename(src, dst, policy, o);
      if check != Done {
        return check;
      }
      ghost var before, counted := tree, used;
      if CanBeRenamed(tree, src, dst) {
        SpaceFoundFits(src, dst, Replacing(initialSize), o);
      }
      var ok, files, size := FsRename(src, dst, o.renameFails, o.isReported);
      if !ok {
        return FsFailure;
      }
      assert Movable(user, before, src, dst);
      CheckedIff(src, dst);
      RenameSettled(before, used, src, dst, initialSize);
      UpdateQuotaAfterRename(src, dst, initialSize, files, size, o.remeasureFails);
      UnsettledIsExactIff(before, counted, src, dst);
      StaysWithinMeans(LimitFor(user, dst), UsedBy(counted, Owner(user, dst)),
                       Measure(Owned(user, tree, Owner(user, dst))));
      return Done;
    }

    /** Accounts that were not updated are exact exactly if there was nothing to update. */
    lemma UnsettledIsExactIff(before: Tree, used: Counters, src: Path, dst: Path)
      requires HasAccounts(user, used) && WellFormed(user, before) && Exact(user, before, used)
      requires Movable(user, before, src, dst)
      ensures Exact(user, Moved(before, src, dst), used) <==>
              dst !in before && (Owner(user, src) == Owner(user, dst) || UsageAt(before, src) == NOTHING)
    {
      hide Exact, WellFormed, HasAccounts, Leaving, Measure, Moved, Owner, UsageAt;
      var from, to := Owner(user, src), Owner(user, dst);
      OwnerHasAccount(user, used, src);
      OwnerHasAccount(user, used, dst);
      MoveKeepsExact(user, before, used, src, dst);
      SettleKeepsAccounts(user, used, from, to, UsageAt(before, src), UsageOfFile(before, dst));
      ExactIsUnique(user, Moved(before, src, dst), Renamed(before, used, src, dst), used);
      SettleIsNothingIff(used, from, to, UsageAt(before, src), UsageOfFile(before, dst));
    }

    lemma RenameSettled(before: Tree, used: Counters, src: Path, dst: Path, initialSize: int)
      requires HasAccounts(user, used) && WellFormed(user, before) && Exact(user, before, used)
      requires Movable(user, before, src, dst)
      requires initialSize == if dst in before then before[dst].size else -1
      ensures WellFormed(user, Moved(before, src, dst))
      ensures dst in Moved(before, src, dst) && Moved(before, src, dst)[dst] == before[src]
      ensures UsageAt(Moved(before, src, dst), dst) == UsageAt(before, src)
      ensures UsageOfFile(before, dst) == Replacing(initialSize)
      ensures var after := Settle(used, Owner(user, src), Owner(user, dst), UsageAt(before, src),
              Replacing(initialSize));
              && HasAccounts(user, after)
              && Exact(user, Moved(before, src, dst), after)
              && (Owner(user, src) != Owner(user, dst) &&
                  (RenameFits(LimitFor(user, dst), UsedBy(used, Owner(user, dst)), UsageAt(before, src),
                              Replacing(initialSize)) || LimitFor(user, dst).HasNoRestrictions(true)) ==>
                    StaysWithin(LimitFor(user, dst), UsedBy(used, Owner(user, dst)),
                                Measure(Owned(user, Moved(before, src, dst), Owner(user, dst)))))
    {
      if before[src].File? {
        FileUsage(before, src);
      }
      hide Exact, WellFormed, HasAccounts, Leaving, Measure, Moved, Owner, LimitFor, Settle, UsedBy, RenameFits,
           StaysWithin, Owned;
      var from, to, moved, replaced := Owner(user, src), Owner(user, dst), UsageAt(before, src), Replacing(initialSize);
      OwnerHasAccount(user, used, src);
      OwnerHasAccount(user, used, dst);
      MoveKeepsWellFormed(user, before, src, dst);
      MoveKeepsExact(user, before, used, src, dst);
      ArrivedAtTarget(user, before, src, dst);
      SettleKeepsAccounts(user, used, from, to, moved, replaced);
      if from != to {
        SettleOther(used, from, to, moved, replaced);
        ExactAt(user, Moved(before, src, dst), Settle(used, from, to, moved, replaced), to);
        if RenameFits(LimitFor(user, dst), UsedBy(used, to), moved, replaced) {
          FittingRenameStaysWithin(LimitFor(user, dst), UsedBy(used, to), moved, replaced);
        } else {
          UnlimitedStaysWithin(LimitFor(user, dst), UsedBy(used, to), moved, replaced);
        }
      }
    }
  }
}
