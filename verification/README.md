# A verified model of SFTPxy's accounting and indexing machinery

SFTPxy serves files over several protocols. Around the storage it keeps state that must agree with a simple
ground truth over unbounded runs: usage counters with what is on disk, denormalised relations with each other,
in-memory indexes with the database, pruned histories with full ones, and a guard in a shared table with what the
nodes of a cluster are doing. This project models that state in Dafny and proves the agreement.

`dafny verify dfyconfig.toml` checks everything.

Where the code changes objects step by step the model is a class with the same fields and methods, proved against
a specification on values; the laws of the specification are lemmas beside it. Where threads or nodes interleave,
the model is a state machine over their steps, and the laws hold for every run.

| files | what they model |
|---|---|
| `Accounting.dfy`, `Quota.dfy`, `VirtualFolders.dfy`, `Paths.dfy`, `Totals.dfy` | who owns which file, renames, single-file changes, space checks and upload limits |
| `RenameExamples.dfy` | renames that go wrong |
| `Transfer.dfy` | an upload from opening the file to `Close`, over any writes and truncates |
| `DirLister.dfy` | streaming a directory into buffers of any size |
| `Retention.dfy` | the retention check: a recursive walk that deletes what has expired |
| `Bolt.dfy`, `BoltProvider.dfy`, `NameLists.dfy` | the relations between users, admins, groups, folders and roles, stored on both sides |
| `IPList.dfy` | longest-prefix match from the index in memory or from the range query |
| `TransfersChecker.dfy` | which active transfers have to be closed |
| `Defender.dfy`, `RateLimiter.dfy`, `ReservationRuns.dfy`, `CredentialCache.dfy`, `Eviction.dfy`, `Maps.dfy` | sliding window, bans, and maps bounded by evicting the oldest entries |
| `Connections.dfy`, `ClientsMap.dfy`, `SwapLists.dfy` | the connection table and the client counters |
| `EventRules.dfy`, `RuleRefresh.dfy` | the rules in use, refreshed from the database; the same refresh step by step |
| `ScheduledTask.dfy` | the guard of scheduled rules across nodes |

## Findings

- Scheduled rules exclude each other across nodes only if the time from reading the task to checking its age, the
  longest time between two refreshes, and the 999,999 ns that storing milliseconds can lose add up to at most ten
  minutes: a refresh does not change the version, so the update alone does not stop a node whose check is late. With
  refreshes exactly every ten minutes, as the age check suggests, a run with two nodes exists even if the check
  follows the read at once. The interval the code uses, five minutes, leaves almost five minutes for the delay.
- The write limit of an upload can be switched off. It stays in force if and only if every truncate is to less than the
  initial size plus the limit, and every write starts no further than the bytes received can have brought the file.
  After the first step that breaks this, appending more can end above the quota without an error. Two witnesses end at
  101 and at 1,000,001 bytes with room for 100.
- While the limit is in force an upload can still end above its quota: only the first error is kept, and only a quota
  error removes a plain upload. After any other error, such as a write before the end of a resumed file, the client may
  write on, and what it writes stays. A plain upload can never end above the quota without a failing storage if and only
  if, until the quota error, every step keeps the limit and there is no other error, save while the file is too short to
  be appended to. A witness ends at 1010 bytes under a quota of 100.
- If an upload to an existing file with atomic mode cannot be opened after the file was moved to its temporary path,
  nothing is left at the path and the account still counts the file. Account and path agree if and only if it was not
  moved.
- If what was moved to another folder cannot be scanned, the rename succeeds and no account is updated. The accounts stay
  exact if and only if it can be scanned, or both ends are in the home, or there was nothing to update: nothing replaced,
  and the same account or nothing that counts.
- A move between two folders that are both included in the user quota is checked as if its files were added, and refused
  at the quota although no account would change.
- If the usage cannot be looked up, a rename that overwrites a file in another account is checked as if nothing was used
  there. A quota that held is broken if and only if the file grows by more than what is left and by no more than the
  whole quota.
- A ban can be evicted at once by the cleanup that follows it, and the bans may stay above the soft limit: expired
  bans are removed and then still count among the entries to remove. A ban survives, whatever the order of equal ones,
  if and only if enough others end earlier; the soft limit is reached if and only if the live bans were within it or
  none had expired.
- Two IP list keys can stand for the same masked network. Storing one in both places keeps index and database in step if
  and only if the others have equal entries, and removing one if and only if there are no others. Both give the same
  answers after any later operations if and only if each inserted key has its network for itself.
- The refresh of the event rules can miss an update for good. If loads do not overlap, it does if and only if a load
  read its time after the update was stamped and had queried before it was committed, or a rule that was created again
  is loaded before the deletion of the old one takes it out of use. A load that has found a rule before its deletion and
  applies it after its removal puts it back in use for good. Overlapping loads can also put an old version back; the
  exact condition for all interleavings is stated on what the last loads saw.
- The check for transfers over quota does not load folders unless two uploads of a user share one: an upload that alone
  fills a folder is compared with the quota as if it was unused, or with none.
- A download limit that a user has exceeded before hides an exceeded upload limit: the check for active transfers looks
  at the first exceeded limit only, and selects nothing if no active transfer counts against it.
- Two first events of a source at the same time leave one bucket with one reservation. A bucket counts all the events of
  its source if and only if it did not replace another one.

## Model

| member | source | states |
|---|---|---|
| `Quota.Connection.Rename` | internal/common/connection.go:804-877 | Done if and only if every check passes and the storage renames. A refused or failed rename changes nothing; a done one moves the whole tree and keeps accounts that equal what is on disk exact if and only if what moved could be measured afterwards, or there was nothing to update; a move into another account ends within its size quota, and within its file quota if it started within it, unless it overwrites a file while the usage cannot be looked up |
| `Accounting.MoveKeepsExact` | internal/common/connection.go:1568-1623 | For every permitted rename of a file or a directory, between any two owners, taking what moved from the owner of the source and giving it, less what was replaced, to the owner of the target keeps every counter equal to the files its account owns |
| `Accounting.MovedEntries` | internal/common/connection.go:804-877 | What went with the source is at the target, entry by entry, and no longer at the source; everything else is where it was |
| `Accounting.OwnerMeans` | internal/common/connection.go:1437-1470 | The user is charged outside all folders and where the nearest folder has both quotas -1, and that folder otherwise |
| `Accounting.MoveKeepsWellFormed` | internal/vfs/osfs.go:167-192 | After a permitted rename every entry still has a parent directory and mount points are still directories |
| `Accounting.OwnerBelow` | internal/common/connection.go:1212-1242 | Refusing nested virtual folders is what makes every descendant of a directory share its owner |
| `Accounting.ArrivalsAreNew` | internal/common/connection.go:1212-1242 | What arrives at the target meets nothing that stays: a missing directory without virtual folders inside has nothing below it |
| `Accounting.ArrivedAtTarget` | internal/common/connection.go:1568-1590 | Measuring the target after the rename gives what the source counted for before it |
| `Accounting.SetFileKeepsExact` | internal/common/connection.go:435-472 | Creating, resizing or removing one file and charging its owner the difference keeps every counter exact |
| `Accounting.FileRemoved` | internal/common/connection.go:435-472 | Giving back one file and its size when it is removed keeps every counter exact |
| `Accounting.FileResized` | internal/common/connection.go:1120-1146 | Giving back the old size less the new one after a truncate by path keeps every counter exact |
| `Quota.Connection.RenameSettled` | internal/common/connection.go:1568-1623 | The space check and the update use the same deltas: what passes the check fits after the update |
| `Quota.Connection.UpdateQuotaAfterRename` | internal/common/connection.go:1568-1623 | All the cases of source and target folder amount to one settlement between the two owners, and to no update at all if the target cannot be measured |
| `Quota.Connection.UnsettledIsExactIff` | internal/common/connection.go:1588-1611 | Without the update the accounts are still exact if and only if nothing was replaced, and the owner is the same or what moved counts for nothing |
| `RenameExamples.UnmeasuredMoveIsNotCounted` | internal/common/connection.go:1591-1611 | A directory with a file moves from the home to a folder without a quota, and cannot be scanned there: the rename succeeds and the accounts are wrong |
| `Quota.Connection.UpdateQuotaMoveBetweenVFolders` | internal/common/connection.go:1527-1544 | Folder to folder, also when both are the same or both are charged to the user |
| `Quota.Connection.UpdateQuotaMoveFromVFolder` | internal/common/connection.go:1546-1555 | Folder to home |
| `Quota.Connection.UpdateQuotaMoveToVFolder` | internal/common/connection.go:1557-1566 | Home to folder |
| `Quota.Connection.MeasureRenamed` | internal/common/connection.go:1591-1612 | The number and the size that are charged are those of the files now at the target, reported or measured; it fails if and only if nothing was reported and the target cannot be scanned |
| `Quota.Connection.HasSpace` | internal/common/connection.go:1437-1493 | Reports limit, usage and what is left of the account that owns the path, and whether there is room for something new; room means below the size quota and, if files are checked, below the file quota; no room if the usage cannot be looked up where a quota applies |
| `Quota.Connection.HasSpaceForRename` | internal/common/connection.go:1278-1310 | Exactly when it refuses: a move that is checked passes if and only if no quota applies, or a directory can be measured and the result would fit the account of the target as if all of it was new there |
| `Quota.Connection.CheckedIff` | internal/common/connection.go:1278-1310 | Checked are the moves to another account, and within one account those between two different folders |
| `RenameExamples.MoveWithinAccountIsRefused` | internal/common/connection.go:1278-1310 | At the quota, a move between two folders that are both included in the user quota is refused although no account would change |
| `Quota.Connection.HasSpaceForCrossRename` | internal/common/connection.go:1313-1364 | The check on a computed quota result passes if and only if the result of the move fits, for new targets, overwrites and directories, and a directory could be measured |
| `Quota.MayRenameMeans` | internal/common/connection.go:1313-1364 | The check in numbers: an overwrite passes if the sizes fit, something new if there is room and sizes and numbers of files fit; without the usage, an overwrite as if nothing was used and something new only without quotas |
| `Quota.UncheckedOverwriteExceedsIff` | internal/common/connection.go:1478-1482 | If the usage cannot be looked up an overwrite is checked as if nothing was used: it is accepted and breaks a quota that held if and only if it grows by more than what is left and by no more than the whole quota |
| `RenameExamples.UncheckedOverwriteExceeds` | internal/common/connection.go:1478-1482 | The usage cannot be looked up: a file of 150 bytes replaces one of 60 in a folder with a quota of 100, and the rename is done |
| `Quota.GetMaxWriteSize` | internal/common/connection.go:1368-1396 | With room left, the limit is 0 if and only if no limit applies, and otherwise writing w bytes is allowed if and only if the account stays within its size quota and the file within the upload limit, for resumes and overwrites |
| `Quota.Connection.GetDirSize` | internal/vfs/osfs.go:443-463 | The walk counts exactly the regular files of the directory and their total size, and nothing for anything else |
| `Quota.Connection.CheckFolderRename` | internal/common/connection.go:1212-1242 | Passes if and only if the directories do not overlap, as paths or in the storage, no virtual folder is inside either, and it is permitted |
| `Quota.Connection.RemoveFile` | internal/common/connection.go:435-472 | Exact accounts stay exact, and the file is given back once, also when the pre-delete hook or an event rule removed it; it is done if and only if it is not refused and does not fail, and otherwise nothing changes |
| `Quota.Connection.TruncateByPath` | internal/common/connection.go:1120-1146 | Exact accounts stay exact when a file that no transfer has open is truncated or extended, which is done if and only if it is a file and nothing fails |
| `Quota.Connection.UpdateUserFolderQuota` | internal/dataprovider/provider_quota_ops.go:33-39 | Charges the account of the folder: the user if the folder is included in the user quota |
| `VirtualFolders.GetVirtualFolderForPath` | internal/dataprovider/user.go:637-652 | The scan over the ancestors computes the folder found by walking up from the path |
| `VirtualFolders.FolderForPathIsNearest` | internal/dataprovider/user.go:637-652 | The folder found is the one with the deepest mount point at or above the path, and none is found only if there is none |
| `VirtualFolders.SameFolder` | internal/dataprovider/user.go:813-826 | Paths with no mount point between them have the same folder |
| `VirtualFolders.FoldersInsideMeans` | internal/dataprovider/user.go:813-826 | A folder is inside a path if and only if its mount point is longer and starts with it; any is inside the root |
| `Paths.OverlapMeans` | internal/util/util.go:520-537 | Directories overlap if and only if one is the other or leads to it |
| `Paths.GetDirsForVirtualPath` | internal/util/util.go:542-556 | Lists all the ancestors, deepest first |
| `Transfer.UploadWithinQuota` | internal/sftpd/handler.go:403-507 | An upload from the space check to Close, over any writes, truncates and failures: it starts if and only if the checks pass and the file opens, and the account follows the file exactly. It starts only if one more byte, and for a new path one more file, fits the quotas, and an account within its file quota stays within it. Account and file end within their limits if and only if the size at the path is at most the ceiling; if every step keeps the limit that holds when it succeeds or received no more than the allowance, and for uploads in order if and only if the file does not stay or no more than the limit was received |
| `Transfer.FileQuotaIsKept` | internal/common/connection.go:1485-1490 | At a file quota of ten with ten files, an upload to a new path is refused and one to an existing file starts |
| `Transfer.StepLaw` | internal/common/transfer.go:260-283 | From a state where the limit is in force, a step leaves it in force if and only if a truncate stays below the initial size plus the limit and a write starts within reach of the bytes received, whatever the transfer quota |
| `Transfer.KeepingStaysBelow` | internal/common/transfer.go:239-283 | If every step keeps the limit, the file is above the ceiling only if more than the allowance was received and an error is recorded |
| `Transfer.AboveIffReceived` | internal/common/transfer.go:239-283 | In order, the file is above the ceiling if and only if more than the limit was received |
| `Transfer.EndsAboveOnlyIf` | internal/common/transfer.go:378-416 | If every step keeps the limit, the path ends above the ceiling only if more than the allowance was received and the first error was of another kind, or the removal of a plain upload failed |
| `Transfer.BelowIffCareful` | internal/common/transfer.go:239-314 | The exact condition over whole plain uploads with any errors and transfer quotas: at no point can the client append and close without a failure so that the path ends above the ceiling, if and only if until the quota error every step keeps the limit and no other error is recorded, except while the file is too short to be appended to |
| `Transfer.BreakingExceeds` | internal/common/transfer.go:239-314 | After any single step that is not careful there is an append that ends above the ceiling |
| `Transfer.TruncateSwitchesLimitOff` | internal/common/transfer.go:265-281 | With room for 100 bytes, a truncate to 100 and a write of one byte end at 101 without an error |
| `Transfer.HoleIsNotCounted` | internal/sftpd/transfer.go:112-133 | With room for 100 bytes, one byte at offset 1,000,000 ends at 1,000,001 without an error |
| `Transfer.EarlierErrorExceeds` | internal/common/transfer.go:300-306 | A client resumes a file of 10 bytes under a quota of 100, is refused a write before the end, and then writes 1000 bytes: 1010 stay and are counted |
| `Transfer.Upload` | internal/common/transfer.go:378-452 | Once opened, for new or existing files, resumed or truncated, atomic or not: the account changes by exactly the final minus the original count and size of the file at the path, in every outcome; the file is there if and only if it stays, with the length the steps give it, and other files are untouched. A success without truncates received no more than is allowed, and plain writes without a failure succeed if and only if no more is sent; otherwise nothing stays. If it cannot be opened the account stays as it is, and the path agrees with it if and only if the old file was not moved |
| `Transfer.WritesFailIff` | internal/common/transfer.go:239-256 | With or without a size limit, writes meet the quota error if and only if more is sent than the size limit, the total transfer quota, or the upload quota where there is no total one |
| `Transfer.NoErrorIsAllowed` | internal/common/transfer.go:239-256 | Whatever fails, what was received without an error and without truncates is within these limits |
| `Transfer.TransferQuotaIsEnough` | internal/common/transfer.go:239-256 | A transfer quota of ten bytes without a size limit: an upload of 1000 bytes fails and nothing stays |
| `Transfer.AbandonedAgreesIffNotRenamed` | internal/sftpd/handler.go:464-480 | Moving the old file to the temporary path is the only thing that makes a refused upload disagree with the account |
| `Transfer.AbandonedFileIsCounted` | internal/sftpd/handler.go:464-480 | An atomic upload of an existing file that cannot be created: nothing is at the path, and the account still counts ten bytes |
| `Transfer.BaseTransfer.Close` | internal/common/transfer.go:378-452 | In every outcome the account ends with exactly the file found at the path, counted at most once; the whole upload is there if and only if no removal, failed rename, partial encrypted file or hook took it away, depending on the first error; it succeeds if and only if there was no error and none is met |
| `Transfer.BaseTransfer.FinishFile` | internal/common/transfer.go:389-416 | The upload is at the path if and only if: after a quota error a plain upload could not be removed, and otherwise a plain upload, or an atomic one that may be and was renamed |
| `Transfer.BaseTransfer.Truncate` | internal/common/transfer.go:260-296 | Initial size and write limit move by opposite amounts; the limit stays on if and only if the new size is below the old size plus the old limit |
| `Transfer.BaseTransfer.TruncateFile` | internal/common/connection.go:1120-1146 | The account follows every truncate of an open upload, so the deltas telescope |
| `Transfer.BaseTransfer.GetUploadFileSize` | internal/common/transfer.go:316-351 | The size found at the path, and how many files were deleted by removing a partial encrypted file |
| `Transfer.BaseTransfer.CheckUploadOutsideHomeDir` | internal/common/transfer.go:354-371 | Cleaning up a failed atomic rename removes at most the temporary file, and records the first error |
| `Transfer.BaseTransfer.ExecuteUploadHook` | internal/common/transfer.go:481-500 | A failed hook removes the file and takes exactly that file back |
| `Transfer.BaseTransfer.UpdateQuota` | internal/common/transfer.go:518-535 | Charges the files and the size beyond the initial size |
| `Transfer.BaseTransfer.TransferError` | internal/common/transfer.go:300-314 | The first error wins |
| `Transfer.BaseTransfer.WriteAt` | internal/sftpd/transfer.go:112-133 | The new length, bytes received and first error with its kind are those of the write, also for holes, short writes and writes after an error; the account and the other files stay |
| `Transfer.HandleUploadToNewFile` | internal/sftpd/handler.go:403-432 | Starts if and only if the file can be created, with nothing counted for it; otherwise nothing changes |
| `Transfer.HandleUploadToExistingFile` | internal/sftpd/handler.go:434-507 | Starts with the old file counted at its initial size: the full size when resumed, nothing when truncated; if it cannot start, what became of the old file is stated |
| `DirLister.DirListerAt.ListAt` | internal/common/connection.go:1823-1845 | What is returned followed by what is left is what was left before; no call returns more than its buffer holds, and nothing read is dropped for lack of room |
| `DirLister.DirListerAt.Next` | internal/common/connection.go:1848-1864 | Prepended entries first, then the visible part of what is read; empty batches are skipped, and the end means nothing is left |
| `DirLister.DirListerAt.Prepend` | internal/common/connection.go:1815-1820 | The entry becomes the first of what is left |
| `DirLister.DirListerAt.ListAll` | internal/common/connection.go:1823-1845 | For any buffer sizes of at least one, the results up to the end are the prepended entries followed by the visible ones, in at most one call more than there are entries, unless the backend fails |
| `DirLister.FilteredConcat` | internal/common/connection.go:1848-1864 | Filtering batch by batch is filtering the whole |
| `DirLister.FilteredCounts` | internal/common/connection.go:1848-1864 | Each visible entry is there as often as it was read, and no other entry |
| `DirLister.Lister.Next` | internal/vfs/vfs.go:246-269 | A lister respects its limit and returns what is pending in order |
| `Retention.RetentionCheck.Start` | internal/common/dataretention.go:269-287 | A successful run deletes exactly the files that were modified more than the retention of their nearest configuration ago, counted in hours of 3,600,000,000,000 ns; any run deletes only such files, and the reported counts and sizes are exactly what is gone. Only directories that may vanish are deleted, and all of those that are empty unless a removal fails. It succeeds where nothing can fail |
| `Retention.OldGoesFreshStays` | internal/common/dataretention.go:212-213 | With one day of retention a file of one minute stays, one of 48 hours goes, and one file and its size are reported |
| `Retention.OlderGoesToo` | internal/common/dataretention.go:212-213 | Of the files of one directory, if one goes then every older one goes |
| `Retention.GoverningIsNearest` | internal/common/dataretention.go:125-136 | The governing configuration is the one with the deepest path at or above the directory, the first of those with the same path |
| `Retention.RetentionCheck.AllEmptyGone` | internal/common/dataretention.go:242-266 | No empty directory that may be removed is left once every positive folder was walked |
| `Retention.RetentionCheck.WalkFolder` | internal/common/dataretention.go:146-240 | The recursive walk deletes only doomed files and directories that may vanish, where it comes by; if it succeeds none of either is left there, and it succeeds where nothing can fail |
| `Retention.RetentionCheck.CleanupFolder` | internal/common/dataretention.go:146-240 | The walk of one directory together with the result it records |
| `Retention.RetentionCheck.WalkEntry` | internal/common/dataretention.go:202-225 | One listed entry: a directory is walked, an expired file is removed and counted |
| `Retention.RetentionCheck.CheckEmptyDirRemoval` | internal/common/dataretention.go:242-266 | Removes the directory if and only if it is empty, not the root, not configured, its configuration says so and the removal does not fail |
| `Retention.RetentionCheck.GetFolderRetention` | internal/common/dataretention.go:125-136 | The scan over the ancestors computes the nearest configuration |
| `Retention.GoverningFolderReaches` | internal/common/dataretention.go:125-136 | All the directories from the governing folder down to a file share its configuration, so the walk that starts there is not cut off |
| `Retention.RetentionCheck.AllDoomedGone` | internal/common/dataretention.go:269-287 | Positive folders below excluded ones are covered because each positive folder is visited on its own |
| `Retention.AllChildrenDone` | internal/common/dataretention.go:146-240 | A folder is clean once each of its listed entries is |
| `BoltProvider.Provider.AddUser` | internal/dataprovider/bolt.go:660-724 | Both sides of every relation stay equal; it succeeds if and only if the user is new and the role, groups and folders it names exist, and an error changes nothing |
| `BoltProvider.Provider.UpdateUser` | internal/dataprovider/bolt.go:726-770 | The same for an update, which unlinks the old references before it links the new ones |
| `BoltProvider.Provider.DeleteUser` | internal/dataprovider/bolt.go:772-822 | No relation, share or API key names the user afterwards |
| `BoltProvider.Provider.AddAdmin` | internal/dataprovider/bolt.go:405-453 | Consistency, exact success condition and rollback for a new admin |
| `BoltProvider.Provider.UpdateAdmin` | internal/dataprovider/bolt.go:455-511 | The same for an update |
| `BoltProvider.Provider.DeleteAdmin` | internal/dataprovider/bolt.go:513-557 | No relation or API key names the admin afterwards |
| `BoltProvider.Provider.AddGroup` | internal/dataprovider/bolt.go:1455-1495 | Consistency, exact success condition and rollback; the members of a new group start empty |
| `BoltProvider.Provider.UpdateGroup` | internal/dataprovider/bolt.go:1497-1542 | The members of the group are kept, whatever the request lists |
| `BoltProvider.Provider.DeleteGroup` | internal/dataprovider/bolt.go:1544-1589 | Refused if and only if the group is missing or a user has it; no admin and no folder names it afterwards |
| `BoltProvider.Provider.AddFolder` | internal/dataprovider/bolt.go:1141-1161 | Consistency and exact success condition |
| `BoltProvider.Provider.UpdateFolder` | internal/dataprovider/bolt.go:1163-1196 | The relations are kept |
| `BoltProvider.Provider.DeleteFolder` | internal/dataprovider/bolt.go:1254-1284 | Exactly the references to the folder are dropped from users and groups |
| `BoltProvider.Provider.AddRole` | internal/dataprovider/bolt.go:2648-2678 | Consistency and exact success condition |
| `BoltProvider.Provider.DeleteRole` | internal/dataprovider/bolt.go:2711-2743 | Refused if and only if the role is missing or an admin has it; its users lose the role |
| `BoltProvider.Provider.AddShare` | internal/dataprovider/bolt.go:1828-1867 | A share is stored only for an existing user |
| `BoltProvider.Provider.DeleteShare` | internal/dataprovider/bolt.go:1917-1939 | Only the owner deletes a share |
| `BoltProvider.Provider.StoreAPIKey` | internal/dataprovider/bolt.go:1632-1714 | A key is stored only for an existing user or admin |
| `Bolt.UserStored` | internal/dataprovider/bolt.go:3687-3728 | Relinking a user in groups, folders and role keeps all six relations consistent |
| `Bolt.UserDeleted` | internal/dataprovider/bolt.go:772-822 | Unlinking a user everywhere leaves a consistent database |
| `Bolt.AdminStored` | internal/dataprovider/bolt.go:455-511 | Relinking an admin keeps all six relations consistent |
| `Bolt.AdminDeleted` | internal/dataprovider/bolt.go:513-557 | Unlinking an admin everywhere leaves a consistent database |
| `Bolt.GroupStored` | internal/dataprovider/bolt.go:1497-1542 | Relinking the folders of a group keeps all six relations consistent |
| `Bolt.GroupDeleted` | internal/dataprovider/bolt.go:1544-1589 | Dropping a group no user has, with its admins and folders, leaves a consistent database |
| `Bolt.FolderDeleted` | internal/dataprovider/bolt.go:1254-1284 | Dropping a folder from all that refer to it leaves a consistent database |
| `Bolt.RoleDeleted` | internal/dataprovider/bolt.go:2711-2743 | Dropping a role no admin has from its users leaves a consistent database |
| `Bolt.AddMapping` | internal/dataprovider/bolt.go:3499-3518 | Adds the member once to one record and to nothing else; a missing record is an error |
| `Bolt.RemoveMapping` | internal/dataprovider/bolt.go:3520-3542 | Removes the member from one record and from nothing else |
| `Bolt.AddMappings` | internal/dataprovider/bolt.go:3687-3728 | Adds the member to all the listed records, or fails if one is missing |
| `Bolt.RemoveMappings` | internal/dataprovider/bolt.go:3687-3728 | Removes the member from all the listed records |
| `Bolt.AddToRole` | internal/dataprovider/bolt.go:3394-3416 | Adds the member to its role, if it has one |
| `Bolt.RemoveFromRole` | internal/dataprovider/bolt.go:3418-3448 | Removes the member from its role |
| `BoltProvider.RemoveFolderFromUsers` | internal/dataprovider/bolt.go:1198-1252 | Exactly the listed users lose the folder |
| `BoltProvider.RemoveFolderFromGroups` | internal/dataprovider/bolt.go:1198-1252 | Exactly the listed groups lose the folder |
| `BoltProvider.RemoveRoleFromUsers` | internal/dataprovider/bolt.go:2711-2743 | Exactly the listed users with the role lose it |
| `BoltProvider.RemoveGroupFromAdmins` | internal/dataprovider/bolt.go:3589-3612 | Exactly the listed admins lose the group |
| `BoltProvider.DeleteRelatedShares` | internal/dataprovider/bolt.go:3754-3779 | Exactly the shares of the user are deleted |
| `BoltProvider.DeleteRelatedAPIKeys` | internal/dataprovider/bolt.go:3781-3812 | Exactly the keys of the user or admin are deleted |
| `BoltProvider.FolderUsersSuffice` | internal/dataprovider/bolt.go:1198-1252 | The users the folder lists are all the users that refer to it |
| `BoltProvider.RoleUsersSuffice` | internal/dataprovider/bolt.go:2711-2743 | The users the role lists are all the users that have it |
| `IPList.List.IsListed` | internal/dataprovider/iplist.go:406-472 | In memory or not, the answer is the mode of a matching entry with the longest prefix, or no match if none matches; only for text that is no address an empty index and the database differ |
| `IPList.LongestMatchIsUnique` | internal/dataprovider/iplist.go:406-472 | With distinct masked networks that answer is unique, whatever the order of the entries |
| `IPList.List.BestInIndex` | internal/dataprovider/iplist.go:415-442 | The loop over the networks of the index finds the longest match of the database |
| `IPList.List.BestInDatabase` | internal/dataprovider/iplist.go:444-471 | The loop over the entries of the range query finds the longest match of the database |
| `IPList.RangeIsPrefix` | internal/dataprovider/bolt.go:3004-3042 | An address lies between the first and the last address of a network if and only if it starts with its prefix |
| `IPList.InRangeIsContained` | internal/dataprovider/bolt.go:3004-3042 | The range query is containment in the masked network |
| `IPList.Provider.GetListEntriesForIP` | internal/dataprovider/bolt.go:3004-3042 | Returns exactly the entries whose network contains the address |
| `IPList.InsertLaw` | internal/dataprovider/iplist.go:310-337 | Storing an entry in both places keeps index and database in step if and only if the other entries for its masked network are equal to it |
| `IPList.RemoveLaw` | internal/dataprovider/iplist.go:339-361 | Removing an entry from both places keeps them in step if and only if no other key stands for its network |
| `IPList.InSyncAnswers` | internal/dataprovider/iplist.go:435-473 | In step, index and database give the same answers for every address and protocol |
| `IPList.InsertAnswersLaw` | internal/dataprovider/iplist.go:310-337 | After an insertion the answers are the same everywhere if and only if the index still gives the answer wherever an entry it displaced decides |
| `IPList.SameForeverIffFree` | internal/dataprovider/iplist.go:310-361 | Starting from distinct networks, storing an entry leaves index and database giving the same answers after every later sequence of operations if and only if no other key stands for its network |
| `IPList.DistinctEndsTheSame` | internal/dataprovider/iplist.go:310-361 | Any sequence of operations that keeps networks distinct from the start ends with the same answers |
| `IPList.LoadedInSyncIff` | internal/dataprovider/iplist.go:475-513 | An index loaded in any order is in step if and only if the keys of each network have equal entries |
| `IPList.SharedNetworkCanDisagree` | internal/dataprovider/iplist.go:217-224 | Two keys for one masked network, and an address for which index and database answer differently |
| `IPList.EqualEntriesAgreeUntilRemoval` | internal/dataprovider/iplist.go:339-361 | Two keys for one network with equal entries agree, and no longer once one of them is removed |
| `IPList.List.constructor` | internal/dataprovider/iplist.go:475-513 | In memory if and only if below the limit, and then in step with the database if and only if keys of one network have equal entries |
| `IPList.List.LoadIndex` | internal/dataprovider/iplist.go:475-513 | Loading all the entries, in any order, gives every network of the database the entry of one of its keys |
| `IPList.List.InsertInIndex` | internal/dataprovider/iplist.go:310-337 | The network gets the entry, and the list leaves the memory mode if and only if it is then too large |
| `IPList.List.UpdateInIndex` | internal/dataprovider/iplist.go:363-395 | Removing and inserting the network amounts to replacing its entry |
| `IPList.List.AddEntry` | internal/dataprovider/bolt.go:2839-2867 | Succeeds if and only if the key is new and the mode valid; a list in step stays in step if and only if the other entries for the network of the added one are equal to it |
| `IPList.List.UpdateEntry` | internal/dataprovider/bolt.go:2869-2903 | Succeeds if and only if the key exists and the mode is valid, and keeps a list in step under the same condition |
| `IPList.List.RemoveEntry` | internal/dataprovider/iplist.go:339-361 | Removes the entry, and keeps a list in step if and only if no other key stands for its network |
| `IPList.List.Validate` | internal/dataprovider/iplist.go:187-244 | Accepts a parsed network with a valid mode, fills in its range, and keeps the protocols it applies to |
| `IPList.CheckProtocols` | internal/dataprovider/iplist.go:178-185 | Storing 0 for all the protocols changes no protocol an entry applies to |
| `IPList.ProtocolFlags` | internal/dataprovider/iplist.go:118-131 | Of the sums of flags, 1 applies to SSH, 2 to FTP, 4 to WebDAV and 8 to HTTP, and no flag to all |
| `IPList.NestedNetworks` | internal/dataprovider/iplist.go:404-473 | A network denied for FTP around one allowed for WebDAV: an address in both is denied for FTP, allowed for WebDAV and not listed for SSH |
| `IPList.GetLastIPForPrefix` | internal/util/util.go:924-943 | Sets exactly the bits after the prefix |
| `TransfersChecker.Checker.GetOverquotaTransfers` | internal/common/transferschecker.go:268-277 | Exactly the transfers the disk and data rules select with what is fetched: the users with at least two active transfers, and their folders only if two uploads share one; every flagged transfer belongs to one of them, and none is flagged if fetching fails |
| `TransfersChecker.PlannedFlags` | internal/dataprovider/bolt.go:957-975 | What fetching only this changes: a transfer of a user with at least two is selected as with the full data, except that uploads to folders when none is shared are compared with the quota as if unused in Bolt, and not at all in SQL |
| `TransfersChecker.ClosingPlannedIsEnough` | internal/common/transferschecker.go:163-226 | With what is fetched, closing the selected transfers relieves the own quota and data limits of every user with two transfers, and every folder that two uploads share |
| `TransfersChecker.LoneUploadIsNotSelected` | internal/common/transferschecker.go:94-146 | An upload that alone exceeds a folder is not selected while its user only downloads something else |
| `TransfersChecker.ClosingFlaggedIsEnough` | internal/common/transferschecker.go:163-226 | Closing all the selected transfers leaves no growth in any group over its disk quota, and nothing counted against the first data limit a user exceeds |
| `TransfersChecker.DiskSelection` | internal/common/transferschecker.go:178-204 | In a group over its quota only growing uploads are selected, what is left does not grow, and with non-negative remaining quota at least one is selected |
| `TransfersChecker.DataSelection` | internal/common/transferschecker.go:49-72 | In the order total, download, upload: closing the selected transfers leaves zero bytes against the first exceeded limit, and nothing is selected when none is exceeded |
| `TransfersChecker.NoDataFlagIff` | internal/common/transferschecker.go:49-72 | Nothing is selected for data if and only if the first limit of MB times 1,048,576 that is exceeded by what was used and what the active transfers add, each in its own direction, has no active bytes to count |
| `TransfersChecker.FlaggedHasBytes` | internal/common/transferschecker.go:49-72 | A transfer is selected for data only if some such limit is exceeded and it has bytes in a direction that counts |
| `TransfersChecker.EachLimitCounts` | internal/common/transferschecker.go:49-72 | One user for each of the three limits: the transfers that count are selected, and those of the other direction are not |
| `TransfersChecker.DownloadHidesUpload` | internal/common/transferschecker.go:59-63 | A download limit that was exceeded before hides an exceeded upload limit: no upload is selected |
| `TransfersChecker.HomeIsOverIff` | internal/common/transferschecker.go:87-90 | Uploads to the home are over the quota if and only if they grow by more than what is left of the quota of the user |
| `TransfersChecker.FolderRemainingMeans` | internal/common/transferschecker.go:74-86 | For a folder, what is left of the first quota with its name that limits anything |
| `TransfersChecker.LoneFlagMeans` | internal/dataprovider/bolt.go:957-975 | An upload alone in its folder is compared in Bolt with all of that quota, whatever is used |
| `TransfersChecker.Checker.AggregateUploadTransfers` | internal/common/transferschecker.go:109-146 | The groups are exactly the order-preserving partition of the uploads by user and folder, each keyed by the position of its first upload; the users are those with a group of at least two |
| `TransfersChecker.Checker.AggregateTransfersByUser` | internal/common/transferschecker.go:94-107 | Groups all the transfers by user; the users to fetch become those with at least two transfers, mapped to true if and only if a folder group of theirs has at least two |
| `TransfersChecker.Checker.FlagOverquota` | internal/common/transferschecker.go:163-226 | Goes over the groups in any order and returns the selected transfers of each |
| `TransfersChecker.FlagDisk` | internal/common/transferschecker.go:178-204 | The selected uploads of one group |
| `TransfersChecker.FlagData` | internal/common/transferschecker.go:206-224 | The selected transfers of one user |
| `TransfersChecker.AggregatedStep` | internal/common/transferschecker.go:109-146 | One more upload joins the group of the first upload with its key although its key is appended again |
| `TransfersChecker.FlagsMeaning` | internal/common/transferschecker.go:163-226 | Selecting group by group is selecting transfer by transfer among all the active ones |
| `TransfersChecker.FlaggedIsPlanned` | internal/common/transferschecker.go:94-107 | A user with a single active transfer is not fetched, and its transfer is never selected |
| `TransfersChecker.FindKey` | internal/common/transferschecker.go:118-127 | The first position of the key, or the position it is going to have |
| `TransfersChecker.Checker.RemoveTransfer` | internal/common/transferschecker.go:240-252 | Removes exactly the transfer with the ids |
| `TransfersChecker.Checker.AddTransfer` | internal/common/transferschecker.go:233-238 | The ids stay unique if and only if those of the new transfer are new |
| `TransfersChecker.Checker.UpdateTransferCurrentSizes` | internal/common/transferschecker.go:254-266 | Changes the sizes of exactly the transfer with the ids |
| `Defender.MemoryDefender.AddEvent` | internal/common/defendermem.go:163-224 | A host gets a ban, and is no longer scored, if and only if the scores of its whole history that are in the window reach the threshold, otherwise exactly those events are stored; the ban is in force if enough other bans end earlier for the cleanup, and evicted at once if too few end no later; stored totals are below the threshold, hosts and bans stay disjoint, and both maps stay within the hard limit |
| `Defender.MemoryDefender.GetScore` | internal/common/defendermem.go:253-268 | Equals the sum, in the window, over all the events since the host was last banned, deleted or evicted; it is 0 for a banned host |
| `Defender.MemoryDefender.IsBanned` | internal/common/defendermem.go:113-140 | True if and only if the ban is in force or the deny list matches; a ban in force gets longer by the increment, at least one minute |
| `Defender.MemoryDefender.DeleteHost` | internal/common/defendermem.go:143-158 | The host is neither banned nor scored afterwards, and the result tells whether it was |
| `Defender.MemoryDefender.InWindowOf` | internal/common/defendermem.go:182-197 | The compaction in place keeps exactly the events in the window, in order, with their total |
| `Defender.MemoryDefender.CleanupBanned` | internal/common/defendermem.go:270-302 | Over the hard limit the expired bans go, then the earliest others, fewer by the number of expired ones |
| `Defender.MemoryDefender.CleanupHosts` | internal/common/defendermem.go:304-331 | Over the hard limit the hosts seen least recently go, down to the soft limit |
| `Defender.BannedBound` | internal/common/defendermem.go:270-302 | The bans never exceed the hard limit |
| `Defender.SoftLimitIff` | internal/common/defendermem.go:270-302 | Over the hard limit, the cleanup reaches the soft limit if and only if the live bans are within it or none has expired |
| `Defender.SoftLimitIsExceeded` | internal/common/defendermem.go:274-300 | One expired ban among three with a soft limit of one: both live bans stay |
| `Defender.SurvivesIffOutlives` | internal/common/defendermem.go:270-302 | A live ban survives the cleanup, however ties are broken, if and only if the map is within the hard limit or at least as many live bans end earlier as are evicted |
| `Defender.BanOutlives` | internal/common/defendermem.go:270-302 | And it is evicted, however ties are broken, if fewer other live bans end no later than are evicted |
| `Defender.FreshBanIsEvicted` | internal/common/defendermem.go:205-211 | A sound state with two lengthened bans and a hard limit of two: the next event of a third host reaches the threshold, and whatever the cleanup chooses the new ban is evicted |
| `Defender.OldestLive` | internal/common/defendermem.go:274-300 | Expired keys that are still in the sorted list use up removals, so the first entries hold no live ban unless they hold all the expired ones |
| `Defender.PrunedWindow` | internal/common/defendermem.go:182-197 | Pruning early does not change what counts later |
| `Defender.WindowMembers` | internal/common/defendermem.go:182-197 | Exactly the events less than the observation time in minutes ago count |
| `Defender.Validate` | internal/common/defender.go:188-243 | A configuration is accepted if and only if, with negative scores disabled, it is in range and some score is left |
| `Defender.EvictedSeenFirst` | internal/common/defendermem.go:304-331 | No evicted host had its last event later than one that stays |
| `Defender.ScoreKeeps` | internal/common/defendermem.go:163-224 | Scoring a host keeps the invariant for all of them |
| `Defender.BanKeeps` | internal/common/defendermem.go:163-224 | Banning a host keeps the invariant for all of them |
| `Eviction.PrefixIsOldest` | internal/common/defendermem.go:291-300 | Removing the first entries of the sorted list evicts no entry later than a survivor, and exactly that many |
| `Eviction.SortedByValue` | internal/common/defendermem.go:304-323 | Every key once, by increasing value |
| `RateLimiter.SourceBuckets.Wait` | internal/common/ratelimiter.go:136-165 | An event reserves from the bucket of its source, created if needed; the other buckets are evicted at most, and their number never exceeds the hard limit |
| `ReservationRuns.ReservationsAreCountedIff` | internal/common/ratelimiter.go:183-208 | In every interleaving of the two locked steps the hard limit holds, and a bucket has counted all the events of its source if and only if it did not replace another one |
| `ReservationRuns.AloneIsCounted` | internal/common/ratelimiter.go:183-208 | If no two first events of a source are between their steps, every bucket counts every event |
| `ReservationRuns.FirstEventsLoseOne` | internal/common/ratelimiter.go:183-208 | Two events of a new source at once leave one reservation |
| `ReservationRuns.StepKeepsInvariant` | internal/common/ratelimiter.go:183-208 | What each step keeps |
| `RateLimiter.SourceBuckets.Reserve` | internal/common/ratelimiter.go:183-193 | Touches only the bucket of the source |
| `RateLimiter.SourceBuckets.AddAndReserve` | internal/common/ratelimiter.go:195-208 | Room is made before the bucket is added, so the hard limit holds afterwards |
| `RateLimiter.SourceBuckets.Cleanup` | internal/common/ratelimiter.go:210-233 | From the hard limit on, the buckets used least recently go, down to the soft limit |
| `RateLimiter.OldestRemoved` | internal/common/ratelimiter.go:210-233 | No evicted bucket was used later than one that stays |
| `RateLimiter.EvictedLeastRecent` | internal/common/ratelimiter.go:210-233 | What is left is exactly the soft limit from the hard limit on, and no bucket that goes was used later than one that stays |
| `CredentialCache.CredentialsCache.Check` | internal/dataprovider/cachedpassword.go:89-110 | A password matches only if it was added last for that user, for that hash, and not removed since; an outdated hash makes the entry the oldest |
| `CredentialCache.CredentialsCache.Cleanup` | internal/dataprovider/cachedpassword.go:119-157 | Below five times the limit afterwards; unused entries go first, then the ones used least recently |
| `CredentialCache.CredentialsCache.Add` | internal/dataprovider/cachedpassword.go:58-75 | Stores the credential under its own key unless caching is off or something is empty |
| `CredentialCache.CredentialsCache.Remove` | internal/dataprovider/cachedpassword.go:77-86 | The user is not cached afterwards |
| `CredentialCache.OldestRemoved` | internal/dataprovider/cachedpassword.go:137-155 | No evicted credential was used later than one that stays |
| `CredentialCache.WhatIsEvicted` | internal/dataprovider/cachedpassword.go:119-157 | Over the limit, what was not used for 3,600,000 ms goes; nothing that goes was used later than what stays; and anything else goes only if exactly the limit stays |
| `Connections.ActiveConnections.Add` | internal/common/common.go:984-1002 | Accepted if and only if the user is below its limit; index, counts and session limits stay exact if and only if the id of an accepted connection is new |
| `Connections.ActiveConnections.Swap` | internal/common/common.go:1008-1032 | Accepted if and only if the user of the new connection is below its limit without the replaced one; a refused swap changes nothing |
| `Connections.ActiveConnections.Remove` | internal/common/common.go:1035-1071 | Exactly the connection is gone; index and counts stay exact |
| `Connections.ActiveConnections.SessionsAreLimited` | internal/common/common.go:984-1032 | In every reachable state, if all the connections of a user have a limit of at most m sessions, the user has at most m |
| `Connections.SessionLimit` | internal/common/common.go:984-1032 | The same from the order of arrival: the last connection found less sessions than its limit |
| `Connections.Departure` | internal/common/common.go:1035-1071 | A removal only makes room for those that arrived later |
| `Connections.SwapWithLastKeepsIndex` | internal/common/common.go:1039-1052 | Moving the last element in place of the removed one keeps the index a bijection |
| `Connections.AppendKeepsIndex` | internal/common/common.go:996-997 | Appending keeps the index a bijection if and only if the id is new |
| `Connections.AddedIsCounted` | internal/common/common.go:953-958 | One more connection of a user is one more in its count, and in no other |
| `Connections.RemovedIsCounted` | internal/common/common.go:961-972 | One less is one less, a count never stays at zero, and adding the user back restores the counts |
| `Connections.ActiveConnections.GetActiveSessions` | internal/common/common.go:976-981 | The number of connections of the user |
| `Connections.ActiveConnections.AddSSHConnection` | internal/common/common.go:1097-1105 | The index of the SSH connections stays a bijection if and only if the id is new |
| `Connections.ActiveConnections.RemoveSSHConnection` | internal/common/common.go:1108-1124 | Exactly the SSH connection is gone and the index stays a bijection |
| `ClientsMap.RunIsBalanced` | internal/common/clientsmap.go:19-42 | For every interleaving, the total is the sum of the counts plus the adders between their two steps minus the remover between its two updates, and every count is positive |
| `ClientsMap.QuiescentTotal` | internal/common/clientsmap.go:44-46 | When no operation is half done the total is the sum of the counts |
| `ClientsMap.CountIsAddsLessRemovals` | internal/common/clientsmap.go:28-42 | For every interleaving, the count of a source is its additions less the removals that found it |
| `ClientsMap.StepKeepsBalance` | internal/common/clientsmap.go:19-42 | Each step of each thread keeps the balance |
| `ClientsMap.ClientsMap.Add` | internal/common/clientsmap.go:19-26 | The method is the unlocked step followed by the locked one |
| `ClientsMap.ClientsMap.Remove` | internal/common/clientsmap.go:28-42 | The method is the two updates of a mapped source, and nothing for an unmapped one |
| `ClientsMap.ClientsMap.GetTotal` | internal/common/clientsmap.go:44-46 | The sum of the counts |
| `ClientsMap.ClientsMap.GetTotalFrom` | internal/common/clientsmap.go:48-53 | The count of the source, positive if and only if it is mapped |
| `EventRules.EventRulesContainer.LoadRules` | internal/common/eventmanager.go:267-290 | After a refresh the rules in use are exactly the active rules of the database in their latest version, each once in the list of its trigger, with exactly the jobs of their schedules |
| `EventRules.RecentAreEnough` | internal/dataprovider/bolt.go:2403-2449 | No update is missed between loads: every rule that is not reflected is among the recently updated ones, and nothing is read only when there is no such rule |
| `EventRules.EventRulesContainer.AddUpdateRuleInternal` | internal/common/eventmanager.go:216-265 | Replaces the rule by its latest version, or only removes it if it is deleted, inactive or on demand |
| `EventRules.EventRulesContainer.RemoveRuleInternal` | internal/common/eventmanager.go:151-214 | No list has the name afterwards, its jobs are unregistered, and every other rule stays once in its list |
| `EventRules.EventRulesContainer.RemoveRule` | internal/common/eventmanager.go:142-149 | The rule is out of use |
| `EventRules.EventRulesContainer.AddEventRule` | internal/dataprovider/provider_crud.go:323-333 | After a successful addition and its refresh the rules in use are the active ones of the database |
| `EventRules.EventRulesContainer.UpdateEventRule` | internal/dataprovider/provider_crud.go:336-346 | The same for an update |
| `EventRules.EventRulesContainer.DeleteEventRule` | internal/dataprovider/provider_crud.go:348-362 | The rule leaves the database and the rules in use |
| `EventRules.WriteKeepsSynced` | internal/dataprovider/bolt.go:2518-2565 | A write stamped with the current time is either reflected or recent enough for the next refresh |
| `EventRules.DeleteKeepsSynced` | internal/dataprovider/bolt.go:2567-2594 | A deletion keeps the rest reflected or recent enough |
| `EventRules.RemoveKeepsHeld` | internal/common/eventmanager.go:151-214 | The first list where the name is found is the only one that has it |
| `EventRules.AddKeepsHeld` | internal/common/eventmanager.go:231-263 | Appending to the list of its trigger makes the rule occur exactly once |
| `SwapLists.SwapRemoved` | internal/common/eventmanager.go:152-160 | Moving the last element in place of the removed one loses no other: it holds for rules, connections and transfers |
| `EventRules.ScheduledRemoved` | internal/common/eventmanager.go:197-205 | Unregistering the jobs of one rule leaves exactly the jobs of the others |
| `EventRules.JobAdded` | internal/common/eventmanager.go:246-259 | Each registered schedule adds its job to its rule and to no other |
| `EventRules.Provider.GetRecentlyUpdatedRules` | internal/dataprovider/bolt.go:2403-2449 | Nothing if no rule was updated since, otherwise exactly the rules updated at that time or later |
| `EventRules.Provider.AddEventRule` | internal/dataprovider/bolt.go:2472-2516 | Stores a new rule with its time and records the time of the last update |
| `EventRules.Provider.UpdateEventRule` | internal/dataprovider/bolt.go:2518-2565 | Stores a rule that exists with its new time and records the time of the last update |
| `EventRules.Provider.DeleteEventRule` | internal/dataprovider/bolt.go:2567-2594 | Deletes the rule without recording an update |
| `RuleRefresh.MissedIff` | internal/common/eventmanager.go:267-290 | In every interleaving of writes, deletions and loads: even one more load misses the latest version of a rule if and only if the load that finished last read its time after the stamp, and the load that put the rule in use last had queried before the commit |
| `RuleRefresh.MissedIffOvertaken` | internal/common/eventmanager.go:267-290 | If loads do not overlap, a rule is missed at the end if and only if its last write was overtaken: a load read its time after the stamp and had queried before the commit, or the removal of an earlier rule of the name came after the load that brought it |
| `RuleRefresh.NoneMissedIff` | internal/common/eventmanager.go:267-290 | From startup, in every run whose loads do not overlap, no update is missed if and only if none of the last writes was overtaken |
| `RuleRefresh.RefreshedIff` | internal/common/eventmanager.go:267-290 | From startup, in every run whose loads do not overlap: at the end one more load gives exactly the rules of the database if and only if no last write was overtaken and no deleted rule was put back |
| `RuleRefresh.StaleIffRevived` | internal/dataprovider/provider_crud.go:348-362 | In every interleaving, a deleted rule is in use for good if and only if a load that had found it applied after its removal |
| `RuleRefresh.DeletedRuleReturns` | internal/dataprovider/provider_crud.go:348-362 | A run where a deleted rule is put back |
| `RuleRefresh.RecreatedRuleIsDropped` | internal/dataprovider/provider_crud.go:348-362 | A run where a rule is created again and loaded before its deletion takes it out of use |
| `RuleRefresh.OvertakenWriteIsMissed` | internal/dataprovider/bolt.go:2518-2565 | A run where one load falls between stamp and commit, and the update stays out of use |
| `RuleRefresh.OverlappingLoadsMiss` | internal/common/eventmanager.go:267-290 | A run of three overlapping loads where no write is overtaken and an old version replaces the new one for good |
| `RuleRefresh.StepKeepsInvariant` | internal/common/eventmanager.go:267-290 | What each step of writers, deletions and loads keeps |
| `RuleRefresh.SequentialStep` | internal/common/eventmanager.go:267-290 | What each step keeps while loads do not overlap: every rule is kept, or lost to a load that overtook its write |
| `ScheduledTask.ExclusiveIffSafe` | internal/common/eventmanager.go:2849-2904 | No two nodes ever execute the rule at once, in any interleaving, if and only if the delay from reading the task to checking its age, the refresh interval and the truncation to milliseconds add up to at most ten minutes |
| `ScheduledTask.MutualExclusion` | internal/common/eventmanager.go:2849-2904 | With such timing every run is exclusive |
| `ScheduledTask.UnsafeTimingFails` | internal/common/eventmanager.go:2862-2873 | Without it there is a run with two jobs running: the refreshes do not change the version |
| `ScheduledTask.OneSuccessForEachVersion` | internal/dataprovider/sqlcommon.go:3778-3788 | Whatever the delays, from each version at most one node succeeds |
| `ScheduledTask.StepKeepsInvariant` | internal/common/eventmanager.go:2849-2904 | What each step of each node keeps |
| `ScheduledTask.UpdateKeepsInvariant` | internal/dataprovider/sqlqueries.go:1138-1141 | A successful update invalidates every version read before it |
| `ScheduledTask.RefreshKeepsInvariant` | internal/dataprovider/sqlcommon.go:3790-3800 | A refresh keeps the stored time recent and the version as it is |
| `ScheduledTask.KeepRefreshing` | internal/common/eventmanager.go:2885-2898 | A job can be kept running with refreshes in time while another one waits before its check |

## Left out

- Transfer.Upload: the checks before the file is opened are in UploadWithinQuota; transfer quotas enter as what is left
  of them when the upload is opened.
- Transfer.UploadWithinQuota: one upload at a time; the account is not changed by others meanwhile.
- Transfer.HandleUploadToNewFile: the space check and the pre-upload action are in UploadWithinQuota.
- Transfer.BelowIffCareful: for plain uploads, closed without a failure; what atomic uploads, encrypted files, hooks and
  failing removals change is stated by Close.
- Quota.Connection.HasSpace: the transfer quota it also returns is a parameter of the upload.
- Quota.Connection.CheckFolderRename: the recursive permission check is a parameter.
- Quota.Connection.Rename: a failed rename changes nothing; the copy to another device, which can fail half way, is not
  modelled.
- EventRules.EventRulesContainer.LoadRules: a load, a write and a deletion with its removal are one step each here; their
  interleavings are in RuleRefresh.
- RuleRefresh.MissedIff: rules are versions, and one clock stamps writes and loads.
- EventRules.EventRulesContainer.AddUpdateRuleInternal: registering a cron job succeeds; the deferred deletion of rules
  marked as deleted is not modelled.
- RateLimiter.SourceBuckets.Wait: which bucket is used and that it is counted; the delay, the refusal and the global
  bucket are not modelled; the interleavings of concurrent events are in ReservationRuns.
- ScheduledTask.ExclusiveIffSafe: the clocks are synchronised, each statement on the tasks table is one step, and a task
  is not deleted while its rule exists.
- Defender.MemoryDefender.IsBanned: each call is one step; the code releases the read lock before it takes the write
  lock.
- Retention.RetentionCheck.Start: one clock value for the whole run; directories nested 1000 levels deep or more make the
  run fail, as in the code.
- BoltProvider.Provider: users, admins, groups, folders and roles are their references and names; other fields, JSON,
  validation (a flag), the relation between rules and actions and the update of roles and shares are not modelled.
- Symbolic links, status errors other than a missing file, and storage with implicit atomic uploads: the accounting is
  approximate there.
- Quota tracking modes 0 (off) and 2 (only users with a quota): the model is mode 1; delayed quota updates
  and transfer quota counters.
- Integer widths: sizes and counters are unbounded.
- IP list keys share a bucket with the roles in Bolt; here they are a separate space. Addresses are bit strings, parsing
  is opaque, IPv4-mapped IPv6 addresses count as IPv4, and the index tree is a map from networks to entries.
- The connections' idle checks, transfers per connection and signals to close.
- Permissions and file patterns are parameters, and so are clocks, outcomes of storage calls and hooks.
- Networks, protocols, configuration, plugins, logging and metrics.
