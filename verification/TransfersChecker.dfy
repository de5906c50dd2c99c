/** Finds the active transfers that have to be closed because together they exceed a quota. */
module TransfersChecker {
  import opened Options
  import opened SwapLists

  datatype Kind = Upload | Download

  datatype Transfer = Transfer(id: int, kind: Kind, connId: string, username: string, folder: string,
                               ulSize: int, dlSize: int, truncatedSize: int)

  /** Uploads that share a disk quota: the same user and the same folder ("" for the user's own quota). */
  datatype Key = Key(username: string, folder: string)

  function KeyOf(t: Transfer): Key
  {
    Key(t.username, t.folder)
  }

  // ---------------------------------------------------------------- grouping

  /** The uploads, in order. */
  function Uploads(ts: seq<Transfer>): seq<Transfer>
  {
    if ts == [] then []
    else if ts[|ts| - 1].kind.Upload? then Uploads(ts[..|ts| - 1]) + [ts[|ts| - 1]]
    else Uploads(ts[..|ts| - 1])
  }

  /** The transfers with a given key, in order. */
  function Grouped(ts: seq<Transfer>, k: Key): seq<Transfer>
  {
    if ts == [] then []
    else if KeyOf(ts[|ts| - 1]) == k then Grouped(ts[..|ts| - 1], k) + [ts[|ts| - 1]]
    else Grouped(ts[..|ts| - 1], k)
  }

  /** The transfers of a user, in order. */
  function OfUser(ts: seq<Transfer>, username: string): seq<Transfer>
  {
    if ts == [] then []
    else if ts[|ts| - 1].username == username then OfUser(ts[..|ts| - 1], username) + [ts[|ts| - 1]]
    else OfUser(ts[..|ts| - 1], username)
  }

  predicate IsFirst(ts: seq<Transfer>, i: int)
  {
    0 <= i < |ts| && forall j :: 0 <= j < i ==> KeyOf(ts[j]) != KeyOf(ts[i])
  }

  lemma {:induction false} GroupedMembers(ts: seq<Transfer>, k: Key)
    ensures forall t :: t in Grouped(ts, k) <==> t in ts && KeyOf(t) == k
  {
    if ts != [] {
      GroupedMembers(ts[..|ts| - 1], k);
      assert ts == ts[..|ts| - 1] + [ts[|ts| - 1]];
    }
  }

  lemma {:induction false} UploadMembers(ts: seq<Transfer>)
    ensures forall t :: t in Uploads(ts) <==> t in ts && t.kind.Upload?
  {
    if ts != [] {
      UploadMembers(ts[..|ts| - 1]);
      assert ts == ts[..|ts| - 1] + [ts[|ts| - 1]];
    }
  }

  lemma {:induction false} OfUserMembers(ts: seq<Transfer>, username: string)
    ensures forall t :: t in OfUser(ts, username) <==> t in ts && t.username == username
  {
    if ts != [] {
      OfUserMembers(ts[..|ts| - 1], username);
      assert ts == ts[..|ts| - 1] + [ts[|ts| - 1]];
    }
  }

  /** A group of uploads is part of what its user transfers. */
  lemma {:induction false} GroupIsPartOfUser(ts: seq<Transfer>, k: Key)
    ensures |Grouped(Uploads(ts), k)| <= |OfUser(ts, k.username)|
  {
    if ts != [] {
      var init, last := ts[..|ts| - 1], ts[|ts| - 1];
      GroupIsPartOfUser(init, k);
      if last.kind.Upload? {
        GroupedAppend(Uploads(init), last, k);
      }
    }
  }

  // ---------------------------------------------------------------- selection rules

  datatype FolderQuota = FolderQuota(name: string, quotaSize: int, usedQuotaSize: int)

  /** Quotas and usage of a user; data transfer limits are in MB. */
  datatype User = User(quotaSize: int, usedQuotaSize: int, folders: seq<FolderQuota>, ulLimit: int, dlLimit: int,
                       totalLimit: int, usedUpload: int, usedDownload: int)

  const MB := 1048576

  /** What a lookup of an unknown user gives. */
  const NO_USER := User(0, 0, [], 0, 0, 0, 0, 0)

  function Limit(mb: int): int
  {
    if mb > 0 then mb * MB else 0
  }

  /** The limits in the order they are checked. */
  predicate ExceedsTotal(u: User, ul: int, dl: int)
  {
    Limit(u.totalLimit) > 0 && ul + dl > Limit(u.totalLimit) - (u.usedUpload + u.usedDownload)
  }

  predicate ExceedsDownload(u: User, dl: int)
  {
    Limit(u.dlLimit) > 0 && dl > Limit(u.dlLimit) - u.usedDownload
  }

  predicate ExceedsUpload(u: User, ul: int)
  {
    Limit(u.ulLimit) > 0 && ul > Limit(u.ulLimit) - u.usedUpload
  }

  predicate IsDataTransferExceeded(u: User, t: Transfer, ul: int, dl: int)
  {
    if ExceedsTotal(u, ul, dl) then t.dlSize > 0 || t.ulSize > 0
    else if ExceedsDownload(u, dl) then t.dlSize > 0
    else if ExceedsUpload(u, ul) then t.ulSize > 0
    else false
  }

  function NetGrowth(ts: seq<Transfer>): int
  {
    if ts == [] then 0 else NetGrowth(ts[..|ts| - 1]) + ts[|ts| - 1].ulSize - ts[|ts| - 1].truncatedSize
  }

  function Uploaded(ts: seq<Transfer>): int
  {
    if ts == [] then 0 else Uploaded(ts[..|ts| - 1]) + ts[|ts| - 1].ulSize
  }

  function Downloaded(ts: seq<Transfer>): int
  {
    if ts == [] then 0 else Downloaded(ts[..|ts| - 1]) + ts[|ts| - 1].dlSize
  }

  function FolderRemaining(folders: seq<FolderQuota>, name: string): Option<int>
  {
    if folders == [] then None
    else if folders[0].name == name && folders[0].quotaSize > 0 then
      Some(folders[0].quotaSize - folders[0].usedQuotaSize)
    else FolderRemaining(folders[1..], name)
  }

  /** The disk quota left for a group of uploads, None without a limit. */
  function RemainingDiskQuota(u: User, folder: string): Option<int>
  {
    if folder != "" then FolderRemaining(u.folders, folder)
    else if u.quotaSize > 0 then Some(u.quotaSize - u.usedQuotaSize)
    else None
  }

  /** The uploads of the group together grow by more than its quota allows. */
  predicate IsOverDisk(u: User, group: seq<Transfer>)
  {
    group != [] &&
    var remaining := RemainingDiskQuota(u, group[0].folder);
    remaining.Some? && NetGrowth(group) > remaining.value
  }

  predicate DiskFlags(u: User, group: seq<Transfer>, t: Transfer)
  {
    IsOverDisk(u, group) && t.ulSize > t.truncatedSize
  }

  predicate DataFlags(u: User, ts: seq<Transfer>, t: Transfer)
  {
    IsDataTransferExceeded(u, t, Uploaded(ts), Downloaded(ts))
  }

  /** What is left of a list of transfers after closing the flagged ones. */
  ghost function Left(ts: seq<Transfer>, closed: set<Transfer>): seq<Transfer>
  {
    if ts == [] then []
    else if ts[|ts| - 1] in closed then Left(ts[..|ts| - 1], closed)
    else Left(ts[..|ts| - 1], closed) + [ts[|ts| - 1]]
  }

  ghost predicate HasSizes(ts: seq<Transfer>)
  {
    forall t <- ts :: t.ulSize >= 0 && t.dlSize >= 0 && t.truncatedSize >= 0
  }

  // ---------------------------------------------------------------- the selection is enough, and not more

  lemma {:induction false} LeftGrowth(ts: seq<Transfer>, closed: set<Transfer>)
    requires forall t <- ts :: t.ulSize > t.truncatedSize ==> t in closed
    ensures NetGrowth(Left(ts, closed)) <= 0
  {
    if ts != [] {
      var init, last := ts[..|ts| - 1], ts[|ts| - 1];
      LeftGrowth(init, closed);
      var left := Left(init, closed);
      assert (left + [last])[..|left + [last]| - 1] == left;
    }
  }

  lemma {:induction false} SomeGrows(ts: seq<Transfer>)
    requires NetGrowth(ts) > 0
    ensures exists t <- ts :: t.ulSize > t.truncatedSize
  {
    var init, last := ts[..|ts| - 1], ts[|ts| - 1];
    if last.ulSize <= last.truncatedSize {
      SomeGrows(init);
    }
  }

  /**
   * For a group over its disk quota: only growing uploads are flagged, what is left does not grow at all,
   * and if the quota was not already exceeded on disk at least one upload is flagged.
   */
  lemma DiskSelection(u: User, group: seq<Transfer>, closed: set<Transfer>)
    requires IsOverDisk(u, group)
    requires forall t <- group :: DiskFlags(u, group, t) ==> t in closed
    ensures NetGrowth(Left(group, closed)) <= 0
    ensures RemainingDiskQuota(u, group[0].folder).value >= 0 ==> exists t <- group :: DiskFlags(u, group, t)
  {
    LeftGrowth(group, closed);
    if RemainingDiskQuota(u, group[0].folder).value >= 0 {
      SomeGrows(group);
    }
  }

  lemma {:induction false} LeftUploaded(ts: seq<Transfer>, closed: set<Transfer>)
    requires HasSizes(ts) && forall t <- ts :: t.ulSize > 0 ==> t in closed
    ensures Uploaded(Left(ts, closed)) == 0
  {
    if ts != [] {
      var init, last := ts[..|ts| - 1], ts[|ts| - 1];
      LeftUploaded(init, closed);
      var left := Left(init, closed);
      assert (left + [last])[..|left + [last]| - 1] == left;
    }
  }

  lemma {:induction false} LeftDownloaded(ts: seq<Transfer>, closed: set<Transfer>)
    requires HasSizes(ts) && forall t <- ts :: t.dlSize > 0 ==> t in closed
    ensures Downloaded(Left(ts, closed)) == 0
  {
    if ts != [] {
      var init, last := ts[..|ts| - 1], ts[|ts| - 1];
      LeftDownloaded(init, closed);
      var left := Left(init, closed);
      assert (left + [last])[..|left + [last]| - 1] == left;
    }
  }

  /**
   * Closing the flagged transfers of a user leaves nothing counted against the first limit that is
   * exceeded; and nothing is flagged when no limit is exceeded.
   */
  lemma DataSelection(u: User, ts: seq<Transfer>, closed: set<Transfer>)
    requires HasSizes(ts) && forall t <- ts :: DataFlags(u, ts, t) ==> t in closed
    ensures var ul, dl := Uploaded(ts), Downloaded(ts);
            if ExceedsTotal(u, ul, dl) then Uploaded(Left(ts, closed)) + Downloaded(Left(ts, closed)) == 0
            else if ExceedsDownload(u, dl) then Downloaded(Left(ts, closed)) == 0
            else if ExceedsUpload(u, ul) then Uploaded(Left(ts, closed)) == 0
            else forall t <- ts :: !DataFlags(u, ts, t)
  {
    var ul, dl := Uploaded(ts), Downloaded(ts);
    if ExceedsTotal(u, ul, dl) {
      LeftUploaded(ts, closed);
      LeftDownloaded(ts, closed);
    } else if ExceedsDownload(u, dl) {
      LeftDownloaded(ts, closed);
    } else if ExceedsUpload(u, ul) {
      LeftUploaded(ts, closed);
    }
  }

  // ---------------------------------------------------------------- the limits as numbers

  /** A limit in MB is exceeded by what was used and what the active transfers add, each in its own direction. */
  lemma ExceedsMeans(u: User, ul: int, dl: int)
    ensures ExceedsTotal(u, ul, dl) <==>
            0 < u.totalLimit && u.usedUpload + ul + u.usedDownload + dl > u.totalLimit * 1_048_576
    ensures ExceedsDownload(u, dl) <==> 0 < u.dlLimit && u.usedDownload + dl > u.dlLimit * 1_048_576
    ensures ExceedsUpload(u, ul) <==> 0 < u.ulLimit && u.usedUpload + ul > u.ulLimit * 1_048_576
  {
  }

  /**
   * Nothing is selected for data if and only if the first exceeded limit, in the order total, download, upload, has no
   * bytes of active transfers to count against it.
   */
  lemma NoDataFlagIff(u: User, ts: seq<Transfer>)
    requires HasSizes(ts)
    ensures var ul, dl := Uploaded(ts), Downloaded(ts);
            (forall t <- ts :: !DataFlags(u, ts, t)) <==>
            if 0 < u.totalLimit && u.usedUpload + ul + u.usedDownload + dl > u.totalLimit * 1_048_576
            then ul == 0 && dl == 0
            else if 0 < u.dlLimit && u.usedDownload + dl > u.dlLimit * 1_048_576 then dl == 0
            else 0 < u.ulLimit && u.usedUpload + ul > u.ulLimit * 1_048_576 ==> ul == 0
  {
    ExceedsMeans(u, Uploaded(ts), Downloaded(ts));
    SumsAreZeroIff(ts);
    hide Uploaded, Downloaded, ExceedsTotal, ExceedsDownload, ExceedsUpload;
  }

  /** A transfer is selected for data only if some limit is exceeded and it has bytes in a direction that counts. */
  lemma FlaggedHasBytes(u: User, ts: seq<Transfer>, t: Transfer)
    requires DataFlags(u, ts, t)
    ensures var ul, dl := Uploaded(ts), Downloaded(ts);
            || (0 < u.totalLimit && u.usedUpload + ul + u.usedDownload + dl > u.totalLimit * 1_048_576 &&
                (t.ulSize > 0 || t.dlSize > 0))
            || (0 < u.dlLimit && u.usedDownload + dl > u.dlLimit * 1_048_576 && t.dlSize > 0)
            || (0 < u.ulLimit && u.usedUpload + ul > u.ulLimit * 1_048_576 && t.ulSize > 0)
  {
    hide Uploaded, Downloaded;
  }

  lemma {:induction false} SumsAreZeroIff(ts: seq<Transfer>)
    requires HasSizes(ts)
    ensures Uploaded(ts) >= 0 && Downloaded(ts) >= 0
    ensures Uploaded(ts) == 0 <==> forall t <- ts :: t.ulSize == 0
    ensures Downloaded(ts) == 0 <==> forall t <- ts :: t.dlSize == 0
  {
    if ts != [] {
      var init, last := ts[..|ts| - 1], ts[|ts| - 1];
      SumsAreZeroIff(init);
      assert ts == init + [last];
    }
  }

  /** What is left of the first quota of the folder that limits anything. */
  lemma {:induction false} FolderRemainingMeans(folders: seq<FolderQuota>, name: string)
    ensures var r := FolderRemaining(folders, name);
            if r.Some? then
              exists i :: IsFirstLimit(folders, name, i) && r.value == folders[i].quotaSize - folders[i].usedQuotaSize
            else
              forall f <- folders :: f.name == name ==> f.quotaSize <= 0
  {
    if folders != [] && !(folders[0].name == name && folders[0].quotaSize > 0) {
      FolderRemainingMeans(folders[1..], name);
      assert folders == [folders[0]] + folders[1..];
      if FolderRemaining(folders, name).Some? {
        var i :| IsFirstLimit(folders[1..], name, i) &&
                 FolderRemaining(folders, name).value == folders[1..][i].quotaSize - folders[1..][i].usedQuotaSize;
        assert IsFirstLimit(folders, name, i + 1);
      }
    } else if folders != [] {
      assert IsFirstLimit(folders, name, 0);
    }
  }

  /** An upload that is alone in its folder is compared in Bolt with all of the first quota that limits the folder. */
  lemma LoneFlagMeans(u: User, provider: Provider, t: Transfer)
    ensures IsLoneFlag(u, provider, t) <==>
            provider.Bolt? && t.ulSize > t.truncatedSize &&
            exists i :: IsFirstLimit(u.folders, t.folder, i) && t.ulSize - t.truncatedSize > u.folders[i].quotaSize
  {
    UnusedFolders(u.folders);
    FolderRemainingMeans(WithoutUsage(u.folders), t.folder);
    var unused := WithoutUsage(u.folders);
    assert forall i :: IsFirstLimit(unused, t.folder, i) <==> IsFirstLimit(u.folders, t.folder, i);
    forall i, j | IsFirstLimit(u.folders, t.folder, i) && IsFirstLimit(u.folders, t.folder, j)
      ensures i == j
    {
    }
    assert forall i :: 0 <= i < |unused| ==> unused[i] in unused;
  }

  lemma {:induction false} UnusedFolders(folders: seq<FolderQuota>)
    ensures |WithoutUsage(folders)| == |folders|
    ensures forall i :: 0 <= i < |folders| ==> WithoutUsage(folders)[i] == folders[i].(usedQuotaSize := 0)
  {
    if folders != [] {
      UnusedFolders(folders[1..]);
    }
  }

  ghost predicate IsFirstLimit(folders: seq<FolderQuota>, name: string, i: int)
  {
    && 0 <= i < |folders| && folders[i].name == name && folders[i].quotaSize > 0
    && forall j :: 0 <= j < i ==> folders[j].name != name || folders[j].quotaSize <= 0
  }

  /** The uploads to the home are over the quota of the user exactly if they grow by more than what is left of it. */
  lemma HomeIsOverIff(u: User, group: seq<Transfer>)
    requires group != [] && group[0].folder == ""
    ensures IsOverDisk(u, group) <==> 0 < u.quotaSize && u.usedQuotaSize + NetGrowth(group) > u.quotaSize
  {
    hide NetGrowth;
  }

  const DOWNLOADS := [Transfer(1, Download, "c", "u", "", 0, 1000, 0), Transfer(2, Download, "c", "u", "", 0, 2000, 0)]
  const UPLOADS := [Transfer(1, Upload, "c", "u", "", 1000, 0, 0), Transfer(2, Upload, "c", "u", "", 2000, 0, 0)]

  lemma Sums()
    ensures Downloaded(DOWNLOADS) == 3000 && Uploaded(DOWNLOADS) == 0
    ensures Uploaded(UPLOADS) == 3000 && Downloaded(UPLOADS) == 0
  {
    assert DOWNLOADS[..1][..0] == [] && UPLOADS[..1][..0] == [];
    assert Downloaded(DOWNLOADS[..1]) == 1000 && Uploaded(DOWNLOADS[..1]) == 0;
    assert Downloaded(UPLOADS[..1]) == 0 && Uploaded(UPLOADS[..1]) == 1000;
  }

  /** One megabyte is used: each of the three limits of one megabyte selects the transfers that count, and no others. */
  lemma EachLimitCounts()
    ensures var download, upload, total := User(0, 0, [], 0, 1, 0, 0, 1_048_576), User(0, 0, [], 1, 0, 0, 1_048_576, 0),
                                           User(0, 0, [], 0, 0, 1, 1_048_576, 0);
            && (forall t <- DOWNLOADS :: DataFlags(download, DOWNLOADS, t) && DataFlags(total, DOWNLOADS, t))
            && (forall t <- UPLOADS :: DataFlags(upload, UPLOADS, t) && DataFlags(total, UPLOADS, t))
            && (forall t <- DOWNLOADS :: !DataFlags(upload, DOWNLOADS, t))
            && (forall t <- UPLOADS :: !DataFlags(download, UPLOADS, t))
  {
    Sums();
    hide Uploaded, Downloaded;
  }

  /** A download limit that was exceeded before hides the upload limit: nothing is selected. */
  lemma DownloadHidesUpload()
    ensures var u := User(0, 0, [], 1, 1, 0, 1_048_576, 1_048_577);
            && ExceedsUpload(u, Uploaded(UPLOADS)) && forall t <- UPLOADS :: !DataFlags(u, UPLOADS, t)
  {
    Sums();
    hide Uploaded, Downloaded;
  }

  // ---------------------------------------------------------------- the checker

  datatype Overquota = Overquota(connId: string, id: int, kind: Kind)

  function FlagOf(t: Transfer): Overquota
  {
    Overquota(t.connId, t.id, t.kind)
  }

  ghost predicate Crowded(ups: seq<Transfer>, k: Key)
  {
    |Grouped(ups, k)| > 1
  }

  class Checker {
    var transfers: seq<Transfer>

    constructor ()
      ensures transfers == []
    {
      transfers := [];
    }

    /**
     * Groups the uploads by user and folder. Each group is keyed by the position of its first upload
     * among the uploads, and holds exactly its uploads, in order.
     */
    method AggregateUploadTransfers() returns (usersToFetch: map<string, bool>, aggregations: map<int, seq<Transfer>>)
      ensures IsAggregated(Uploads(transfers), aggregations)
      ensures AreUsersToFetch(Uploads(transfers), usersToFetch)
    {
      usersToFetch, aggregations := map[], map[];
      var keys: seq<Key> := [];
      ghost var ups: seq<Transfer> := [];
      NothingAggregated();
      hide IsAggregated, AreUsersToFetch, Uploads, Grouped, Crowded;
      UploadsOfNone();
      for n := 0 to |transfers|
        invariant ups == Uploads(transfers[..n])
        invariant |keys| == |ups| && forall i :: 0 <= i < |ups| ==> keys[i] == KeyOf(ups[i])
        invariant IsAggregated(ups, aggregations)
        invariant AreUsersToFetch(ups, usersToFetch)
      {
        var transfer := transfers[n];
        UploadsAppend(transfers[..n], transfer);
        assert transfers[..n + 1] == transfers[..n] + [transfer];
        if transfer.kind != Upload {
          continue;
        }
        var key := FindKey(keys, transfer);
        keys := keys + [KeyOf(transfer)];
        AggregatedStep(ups, aggregations, transfer, key);
        var group := (if key in aggregations then aggregations[key] else []) + [transfer];
        aggregations := aggregations[key := group];
        FetchStep(ups, usersToFetch, transfer);
        CrowdedGroup(ups + [transfer], KeyOf(transfer));
        if |group| > 1 {
          if transfer.folder != "" {
            usersToFetch := usersToFetch[transfer.username := true];
          } else if transfer.username !in usersToFetch {
            usersToFetch := usersToFetch[transfer.username := false];
          }
        }
        ups := ups + [transfer];
      }
      assert transfers[..|transfers|] == transfers;
    }

    /** Groups all the transfers by user, and completes the users to fetch with those that have two or more. */
    method AggregateTransfersByUser(usersToFetch: map<string, bool>)
      returns (users: map<string, bool>, aggregations: map<string, seq<Transfer>>)
      requires AreUsersToFetch(Uploads(transfers), usersToFetch)
      ensures IsByUser(transfers, aggregations)
      ensures IsFetchPlan(transfers, users)
    {
      users, aggregations := usersToFetch, map[];
      NobodyYet(usersToFetch);
      hide IsByUser, AreUsersToFetch, OfUser, Uploads, IsPlanSoFar;
      for n := 0 to |transfers|
        invariant IsByUser(transfers[..n], aggregations)
        invariant IsPlanSoFar(transfers[..n], usersToFetch, users)
      {
        var transfer := transfers[n];
        assert transfers[..n + 1] == transfers[..n] + [transfer];
        ByUserStep(transfers[..n], aggregations, transfer);
        PlanStep(transfers[..n], usersToFetch, users, transfer);
        var group := (if transfer.username in aggregations then aggregations[transfer.username] else []) + [transfer];
        aggregations := aggregations[transfer.username := group];
        if |group| > 1 {
          if transfer.username !in users {
            users := users[transfer.username := false];
          }
        }
      }
      assert transfers[..|transfers|] == transfers;
      PlanComplete(transfers, usersToFetch, users);
    }

    /** Flags the growing uploads of every group over its disk quota, then the transfers over a data limit. */
    method FlagOverquota(users: map<string, User>, uploads: map<int, seq<Transfer>>, byUser: map<string, seq<Transfer>>)
      returns (flags: seq<Overquota>)
      requires forall i :: i in uploads ==> uploads[i] != []
      ensures forall f :: f in flags <==>
                (exists i :: i in uploads && IsDiskFlag(Lookup(users, uploads[i][0].username), uploads[i], f)) ||
                (exists u :: u in byUser && IsDataFlag(Lookup(users, u), byUser[u], f))
    {
      hide IsDiskFlag, IsDataFlag;
      flags := [];
      var rest := uploads.Keys;
      while rest != {}
        invariant rest <= uploads.Keys
        invariant forall f :: f in flags <==>
                    exists i :: i in uploads && i !in rest
                        && IsDiskFlag(Lookup(users, uploads[i][0].username), uploads[i], f)
        decreases rest
      {
        SomeIndex(rest);
        var i :| i in rest;
        var found := FlagDisk(Lookup(users, uploads[i][0].username), uploads[i]);
        flags, rest := flags + found, rest - {i};
      }
      var disk := flags;
      var names := byUser.Keys;
      while names != {}
        invariant names <= byUser.Keys
        invariant forall f :: f in flags <==>
                    f in disk || exists u :: u in byUser && u !in names && IsDataFlag(Lookup(users, u), byUser[u], f)
        decreases names
      {
        var u :| u in names;
        var found := FlagData(Lookup(users, u), byUser[u]);
        flags, names := flags + found, names - {u};
      }
    }

    /**
     * The whole check, given the users in the provider, of which only the planned ones are fetched, with their
     * folders only if two uploads share one. Nothing is flagged unless some user has two transfers; otherwise exactly
     * the transfers the rules select with what was fetched, and they all belong to users with at least two.
     */
    method GetOverquotaTransfers(stored: map<string, User>, provider: Provider, fails: bool)
      returns (flags: seq<Overquota>)
      ensures fails || (forall u :: |OfUser(transfers, u)| <= 1) ==> flags == []
      ensures !fails && (exists u :: |OfUser(transfers, u)| > 1) ==>
                forall f :: f in flags <==>
                              exists t <- transfers :: f == Overquota(t.connId, t.id, t.kind)
                                  && IsFlagged(transfers, Planned(transfers, stored, provider), t)
      ensures forall f :: f in flags ==> exists t <- transfers :: f == FlagOf(t) && |OfUser(transfers, t.username)| > 1
    {
      var usersToFetch, uploads := AggregateUploadTransfers();
      var users, byUser := AggregateTransfersByUser(usersToFetch);
      if users == map[] || fails {
        assert forall u :: u !in users || fails;
        return [];
      }
      var fetched := map u | u in users && u in stored :: Fetched(stored[u], users[u], provider);
      FetchedAsPlanned(transfers, stored, provider, users, fetched);
      GroupsAreNotEmpty(Uploads(transfers), uploads);
      flags := FlagOverquota(fetched, uploads, byUser);
      forall f
        ensures f in flags <==> exists t <- transfers :: f == FlagOf(t) && IsFlagged(transfers, fetched, t)
      {
        FlagsMeaning(transfers, fetched, uploads, byUser, f);
      }
      hide IsFlagged, OfUser;
      forall t <- transfers | IsFlagged(transfers, fetched, t)
        ensures |OfUser(transfers, t.username)| > 1
      {
        FlaggedIsPlanned(transfers, stored, provider, t);
      }
    }

    // -------------------------------------------------------------- the transfers in memory

    /** The ids stay unique if and only if those of the new transfer are new. */
    method AddTransfer(t: Transfer)
      requires HasUniqueIds(transfers)
      modifies this
      ensures transfers == old(transfers) + [t]
      ensures HasUniqueIds(transfers) <==> forall x <- old(transfers) :: x.id != t.id || x.connId != t.connId
    {
      transfers := transfers + [t];
      var n := |old(transfers)|;
      assert transfers[n] == t;
      assert forall i :: 0 <= i < n ==> transfers[i] == old(transfers)[i];
      if HasUniqueIds(transfers) {
        forall x <- old(transfers)
          ensures x.id != t.id || x.connId != t.connId
        {
          var i :| 0 <= i < n && old(transfers)[i] == x;
          assert transfers[i] == x;
        }
      }
    }

    /** Removes the transfer with the given ids by moving the last one in its place. */
    method RemoveTransfer(id: int, connId: string)
      requires HasUniqueIds(transfers)
      modifies this
      ensures HasUniqueIds(transfers)
      ensures forall t :: t in transfers <==> t in old(transfers) && !(t.id == id && t.connId == connId)
    {
      for idx := 0 to |transfers|
        invariant transfers == old(transfers)
        invariant forall j :: 0 <= j < idx ==> !(transfers[j].id == id && transfers[j].connId == connId)
      {
        if transfers[idx].id == id && transfers[idx].connId == connId {
          var lastIdx := |transfers| - 1;
          transfers := transfers[idx := transfers[lastIdx]];
          transfers := transfers[..lastIdx];
          SwapRemoved(old(transfers), IdOf, idx);
          return;
        }
      }
    }

    /** Updates the sizes of one transfer and leaves the others alone. */
    method UpdateTransferCurrentSizes(ulSize: int, dlSize: int, id: int, connId: string)
      requires HasUniqueIds(transfers)
      modifies this
      ensures HasUniqueIds(transfers) && |transfers| == |old(transfers)|
      ensures forall i :: 0 <= i < |transfers| ==>
              transfers[i] == Resized(old(transfers)[i], ulSize, dlSize, id, connId)
    {
      for idx := 0 to |transfers|
        invariant transfers == old(transfers)
        invariant forall j :: 0 <= j < idx ==> !(transfers[j].id == id && transfers[j].connId == connId)
      {
        if transfers[idx].id == id && transfers[idx].connId == connId {
          transfers := transfers[idx := transfers[idx].(ulSize := ulSize, dlSize := dlSize)];
          return;
        }
      }
    }
  }

  function Resized(t: Transfer, ulSize: int, dlSize: int, id: int, connId: string): Transfer
  {
    if t.id == id && t.connId == connId then t.(ulSize := ulSize, dlSize := dlSize) else t
  }

  datatype TransferId = TransferId(id: int, connId: string)

  function IdOf(t: Transfer): TransferId
  {
    TransferId(t.id, t.connId)
  }

  ghost predicate HasUniqueIds(ts: seq<Transfer>)
  {
    AreDistinct(ts, IdOf)
  }

  // ---------------------------------------------------------------- grouping by user

  ghost predicate IsByUser(ts: seq<Transfer>, aggregations: map<string, seq<Transfer>>)
  {
    && (forall u :: u in aggregations <==> OfUser(ts, u) != [])
    && (forall u :: u in aggregations ==> aggregations[u] == OfUser(ts, u))
  }

  /** The users with two or more transfers; true if two of them upload to the same folder. */
  ghost predicate IsFetchPlan(ts: seq<Transfer>, users: map<string, bool>)
  {
    && (forall u :: u in users <==> |OfUser(ts, u)| > 1)
    && (forall u :: u in users ==>
          (users[u] <==> SharesFolder(ts, u)))
  }

  /** Two active uploads of the user go to the same folder. */
  ghost predicate SharesFolder(ts: seq<Transfer>, username: string)
  {
    exists k: Key :: k.username == username && k.folder != "" && Crowded(Uploads(ts), k)
  }

  ghost predicate IsPlanSoFar(ts: seq<Transfer>, initial: map<string, bool>, users: map<string, bool>)
  {
    && (forall u :: u in users <==> u in initial || |OfUser(ts, u)| > 1)
    && (forall u :: u in users ==> users[u] == (u in initial && initial[u]))
  }

  lemma NobodyYet(initial: map<string, bool>)
    ensures IsByUser([], map[]) && IsPlanSoFar([], initial, initial)
  {
  }

  lemma OfUserAppend(ts: seq<Transfer>, t: Transfer, u: string)
    ensures OfUser(ts + [t], u) == if t.username == u then OfUser(ts, u) + [t] else OfUser(ts, u)
  {
    assert (ts + [t])[..|ts|] == ts;
  }

  lemma ByUserStep(ts: seq<Transfer>, aggregations: map<string, seq<Transfer>>, t: Transfer)
    requires IsByUser(ts, aggregations)
    ensures var group := (if t.username in aggregations then aggregations[t.username] else []) + [t];
            IsByUser(ts + [t], aggregations[t.username := group]) && group == OfUser(ts + [t], t.username)
  {
    hide OfUser;
    forall u
      ensures OfUser(ts + [t], u) == if t.username == u then OfUser(ts, u) + [t] else OfUser(ts, u)
    {
      OfUserAppend(ts, t, u);
    }
    hide OfUser;
  }

  lemma PlanStep(ts: seq<Transfer>, initial: map<string, bool>, users: map<string, bool>, t: Transfer)
    requires IsPlanSoFar(ts, initial, users)
    ensures var users' := if |OfUser(ts + [t], t.username)| > 1 && t.username !in users
                          then users[t.username := false] else users;
            IsPlanSoFar(ts + [t], initial, users')
  {
    forall u
      ensures OfUser(ts + [t], u) == if t.username == u then OfUser(ts, u) + [t] else OfUser(ts, u)
    {
      OfUserAppend(ts, t, u);
    }
    hide OfUser;
  }

  lemma PlanComplete(ts: seq<Transfer>, initial: map<string, bool>, users: map<string, bool>)
    requires AreUsersToFetch(Uploads(ts), initial) && IsPlanSoFar(ts, initial, users)
    ensures IsFetchPlan(ts, users)
  {
    forall u | u in initial
      ensures |OfUser(ts, u)| > 1
    {
      var k: Key :| k.username == u && Crowded(Uploads(ts), k);
      GroupIsPartOfUser(ts, k);
    }
    hide OfUser, Uploads, Crowded;
    forall u | exists k: Key :: k.username == u && k.folder != "" && Crowded(Uploads(ts), k)
      ensures u in initial
    {
    }
  }

  // ---------------------------------------------------------------- flagging

  function Lookup(users: map<string, User>, username: string): User
  {
    if username in users then users[username] else NO_USER
  }

  /** The rules select t among all the active transfers. */
  ghost predicate IsFlagged(ts: seq<Transfer>, users: map<string, User>, t: Transfer)
  {
    var u := Lookup(users, t.username);
    (t.kind.Upload? && DiskFlags(u, Grouped(Uploads(ts), KeyOf(t)), t)) || DataFlags(u, OfUser(ts, t.username), t)
  }

  /** Where users are fetched from: without the folders, Bolt has their quotas but no usage, and SQL has neither. */
  datatype Provider = Bolt | Sql

  function WithoutUsage(folders: seq<FolderQuota>): seq<FolderQuota>
  {
    if folders == [] then [] else [folders[0].(usedQuotaSize := 0)] + WithoutUsage(folders[1..])
  }

  function Fetched(u: User, withFolders: bool, provider: Provider): User
  {
    if withFolders then u
    else u.(folders := match provider case Bolt => WithoutUsage(u.folders) case Sql => [])
  }

  /** The users that are fetched: those with at least two active transfers. */
  ghost function Planned(ts: seq<Transfer>, stored: map<string, User>, provider: Provider): map<string, User>
  {
    map u | u in stored && |OfUser(ts, u)| > 1 :: Fetched(stored[u], SharesFolder(ts, u), provider)
  }

  lemma FetchedAsPlanned(ts: seq<Transfer>, stored: map<string, User>, provider: Provider, users: map<string, bool>,
                         fetched: map<string, User>)
    requires IsFetchPlan(ts, users)
    requires fetched == map u | u in users && u in stored :: Fetched(stored[u], users[u], provider)
    ensures fetched == Planned(ts, stored, provider)
  {
    hide SharesFolder, OfUser, Fetched;
  }

  /** A user that is not fetched has no limits, so none of its transfers is selected. */
  lemma FlaggedIsPlanned(ts: seq<Transfer>, stored: map<string, User>, provider: Provider, t: Transfer)
    requires IsFlagged(ts, Planned(ts, stored, provider), t)
    ensures |OfUser(ts, t.username)| > 1
  {
  }

  /** What decides about an upload that is alone in its folder when no folder is shared: the quota as if unused. */
  predicate IsLoneFlag(u: User, provider: Provider, t: Transfer)
  {
    provider.Bolt? &&
    var remaining := FolderRemaining(WithoutUsage(u.folders), t.folder);
    remaining.Some? && t.ulSize - t.truncatedSize > remaining.value && t.ulSize > t.truncatedSize
  }

  /**
   * What fetching only what is planned changes: a transfer of a user with at least two is selected as with the full
   * data, except for uploads to folders when no two of them share one.
   */
  lemma PlannedFlags(ts: seq<Transfer>, stored: map<string, User>, provider: Provider, t: Transfer)
    requires t in ts && t.username in stored
    ensures IsFlagged(ts, Planned(ts, stored, provider), t) <==>
            |OfUser(ts, t.username)| > 1 &&
            if t.kind.Upload? && t.folder != "" && !SharesFolder(ts, t.username)
            then IsLoneFlag(stored[t.username], provider, t) ||
                 DataFlags(stored[t.username], OfUser(ts, t.username), t)
            else IsFlagged(ts, stored, t)
  {
    var u := stored[t.username];
    if |OfUser(ts, t.username)| > 1 {
      FetchedDataFlags(u, SharesFolder(ts, t.username), provider, OfUser(ts, t.username), t);
      if t.kind.Upload? && t.folder != "" && !SharesFolder(ts, t.username) {
        LoneGroup(ts, t);
        LoneDiskFlags(u, provider, t);
      } else if t.kind.Upload? {
        FetchedDiskFlags(u, SharesFolder(ts, t.username), provider, ts, t);
      }
      hide Uploads, Grouped, OfUser, DataFlags, DiskFlags, SharesFolder, Fetched, IsLoneFlag;
    }
  }

  lemma LoneDiskFlags(u: User, provider: Provider, t: Transfer)
    requires t.folder != ""
    ensures DiskFlags(Fetched(u, false, provider), [t], t) <==> IsLoneFlag(u, provider, t)
  {
    assert [t][..0] == [];
    assert NetGrowth([t]) == t.ulSize - t.truncatedSize;
    hide WithoutUsage, NetGrowth;
  }

  lemma FetchedDiskFlags(u: User, withFolders: bool, provider: Provider, ts: seq<Transfer>, t: Transfer)
    requires t.folder == "" || withFolders
    ensures var group := Grouped(Uploads(ts), KeyOf(t));
            DiskFlags(Fetched(u, withFolders, provider), group, t) <==> DiskFlags(u, group, t)
  {
    var group := Grouped(Uploads(ts), KeyOf(t));
    GroupedMembers(Uploads(ts), KeyOf(t));
    hide Uploads, Grouped, NetGrowth, WithoutUsage;
    assert group != [] ==> group[0] in group;
  }

  lemma FetchedDataFlags(u: User, withFolders: bool, provider: Provider, ts: seq<Transfer>, t: Transfer)
    ensures DataFlags(Fetched(u, withFolders, provider), ts, t) <==> DataFlags(u, ts, t)
  {
  }

  /** An upload to a folder is alone in its group when no folder is shared. */
  lemma LoneGroup(ts: seq<Transfer>, t: Transfer)
    requires t in ts && t.kind.Upload? && t.folder != "" && !SharesFolder(ts, t.username)
    ensures Grouped(Uploads(ts), KeyOf(t)) == [t]
  {
    var group := Grouped(Uploads(ts), KeyOf(t));
    UploadMembers(ts);
    GroupedMembers(Uploads(ts), KeyOf(t));
    hide Uploads, Grouped;
    assert t in group;
    assert !Crowded(Uploads(ts), KeyOf(t));
  }

  ghost predicate IsDiskFlag(u: User, group: seq<Transfer>, f: Overquota)
  {
    exists t <- group :: f == FlagOf(t) && DiskFlags(u, group, t)
  }

  ghost predicate IsDataFlag(u: User, ts: seq<Transfer>, f: Overquota)
  {
    exists t <- ts :: f == FlagOf(t) && DataFlags(u, ts, t)
  }

  method FlagDisk(u: User, group: seq<Transfer>) returns (flags: seq<Overquota>)
    requires group != []
    ensures forall f :: f in flags <==> IsDiskFlag(u, group, f)
  {
    flags := [];
    var remaining := RemainingDiskQuota(u, group[0].folder);
    if remaining.None? {
      return;
    }
    var used := 0;
    for i := 0 to |group|
      invariant used == NetGrowth(group[..i])
    {
      assert group[..i + 1][..i] == group[..i];
      used := used + group[i].ulSize - group[i].truncatedSize;
    }
    assert group[..|group|] == group;
    if used > remaining.value {
      for i := 0 to |group|
        invariant forall f :: f in flags <==>
                  exists j :: 0 <= j < i && f == FlagOf(group[j]) && DiskFlags(u, group, group[j])
      {
        if group[i].ulSize > group[i].truncatedSize {
          flags := flags + [FlagOf(group[i])];
        }
      }
    }
  }

  method FlagData(u: User, ts: seq<Transfer>) returns (flags: seq<Overquota>)
    ensures forall f :: f in flags <==> IsDataFlag(u, ts, f)
  {
    flags := [];
    var ul, dl := 0, 0;
    for i := 0 to |ts|
      invariant ul == Uploaded(ts[..i]) && dl == Downloaded(ts[..i])
    {
      assert ts[..i + 1][..i] == ts[..i];
      ul, dl := ul + ts[i].ulSize, dl + ts[i].dlSize;
    }
    assert ts[..|ts|] == ts;
    hide IsDataTransferExceeded;
    for i := 0 to |ts|
      invariant forall f :: f in flags <==> exists j :: 0 <= j < i && f == FlagOf(ts[j]) && DataFlags(u, ts, ts[j])
    {
      if IsDataTransferExceeded(u, ts[i], ul, dl) {
        flags := flags + [FlagOf(ts[i])];
      }
    }
  }

  lemma SomeIndex(rest: set<int>)
    ensures rest == {} || exists i :: i in rest
  {
    if forall i :: i !in rest {
      assert rest == {};
    }
  }

  lemma GroupsAreNotEmpty(ups: seq<Transfer>, uploads: map<int, seq<Transfer>>)
    requires IsAggregated(ups, uploads)
    ensures forall i :: i in uploads ==> uploads[i] != [] && KeyOf(uploads[i][0]) == KeyOf(ups[i])
  {
    forall i | i in uploads
      ensures uploads[i] != [] && KeyOf(uploads[i][0]) == KeyOf(ups[i])
    {
      GroupedMembers(ups, KeyOf(ups[i]));
      assert ups[i] in Grouped(ups, KeyOf(ups[i]));
      assert uploads[i][0] in uploads[i];
    }
  }

  /** Going group by group flags exactly what the rules select transfer by transfer. */
  lemma FlagsMeaning(ts: seq<Transfer>, users: map<string, User>, uploads: map<int, seq<Transfer>>,
                     byUser: map<string, seq<Transfer>>, f: Overquota)
    requires IsAggregated(Uploads(ts), uploads) && IsByUser(ts, byUser)
    requires forall i :: i in uploads ==> uploads[i] != []
    ensures (exists i :: i in uploads && IsDiskFlag(Lookup(users, uploads[i][0].username), uploads[i], f)) ||
            (exists u :: u in byUser && IsDataFlag(Lookup(users, u), byUser[u], f)) <==>
            exists t <- ts :: f == FlagOf(t) && IsFlagged(ts, users, t)
  {
    hide DiskFlags, DataFlags;
    var ups := Uploads(ts);
    GroupsAreNotEmpty(ups, uploads);
    UploadMembers(ts);
    if i :| i in uploads && IsDiskFlag(Lookup(users, uploads[i][0].username), uploads[i], f) {
      var t :| t in uploads[i] && f == FlagOf(t) && DiskFlags(Lookup(users, uploads[i][0].username), uploads[i], t);
      GroupedMembers(ups, KeyOf(ups[i]));
      assert t in ts && IsFlagged(ts, users, t);
    }
    if u :| u in byUser && IsDataFlag(Lookup(users, u), byUser[u], f) {
      var t :| t in byUser[u] && f == FlagOf(t) && DataFlags(Lookup(users, u), byUser[u], t);
      OfUserMembers(ts, u);
      assert t in ts && IsFlagged(ts, users, t);
    }
    if t :| t in ts && f == FlagOf(t) && IsFlagged(ts, users, t) {
      FlaggedIsFound(ts, users, uploads, byUser, t);
    }
  }

  /** Closing what the check selects relieves every shared group, and every user with two transfers. */
  lemma ClosingPlannedIsEnough(ts: seq<Transfer>, stored: map<string, User>, provider: Provider, closed: set<Transfer>,
                               k: Key)
    requires HasSizes(ts) && k.username in stored && |OfUser(ts, k.username)| > 1
    requires forall t <- ts :: IsFlagged(ts, Planned(ts, stored, provider), t) ==> t in closed
    ensures var group := Grouped(Uploads(ts), k);
            k.folder == "" || Crowded(Uploads(ts), k) ==>
              (IsOverDisk(stored[k.username], group) ==> NetGrowth(Left(group, closed)) <= 0)
    ensures IsRelieved(stored[k.username], OfUser(ts, k.username), closed)
  {
    var u, shares := stored[k.username], SharesFolder(ts, k.username);
    var group, own := Grouped(Uploads(ts), k), OfUser(ts, k.username);
    ClosingFlaggedIsEnough(ts, Planned(ts, stored, provider), closed, k);
    GroupedMembers(Uploads(ts), k);
    assert Lookup(Planned(ts, stored, provider), k.username) == Fetched(u, shares, provider);
    hide Uploads, Grouped, OfUser, NetGrowth, Left, SharesFolder, Uploaded, Downloaded, WithoutUsage;
    assert group != [] ==> group[0] in group;
    if k.folder != "" && Crowded(Uploads(ts), k) {
      assert shares by {
        hide *;
        SharedGroup(ts, k);
      }
    }
  }

  lemma SharedGroup(ts: seq<Transfer>, k: Key)
    requires k.folder != "" && Crowded(Uploads(ts), k)
    ensures SharesFolder(ts, k.username)
  {
    hide Crowded, Uploads;
  }

  /** An upload that alone fills a folder is not selected while the user downloads something else. */
  lemma LoneUploadIsNotSelected(provider: Provider)
    returns (ts: seq<Transfer>, stored: map<string, User>, t: Transfer)
    ensures t in ts && |OfUser(ts, t.username)| == 2 && HasSizes(ts)
    ensures IsFlagged(ts, stored, t) && forall x <- ts :: !IsFlagged(ts, Planned(ts, stored, provider), x)
  {
    t := Transfer(1, Upload, "c", "u", "f", 20, 0, 0);
    var other := Transfer(2, Download, "c", "u", "", 0, 5, 0);
    var u := User(0, 0, [FolderQuota("f", 100, 90)], 0, 0, 0, 0, 0);
    ts, stored := [t, other], map["u" := u];
    TwoTransfers(ts, t, other);
    assert [t][..0] == [];
    assert NetGrowth([t]) == 20 && RemainingDiskQuota(u, "f") == Some(10);
    assert DiskFlags(u, [t], t);
    assert !DataFlags(u, ts, t) && !DataFlags(u, ts, other);
    PlannedFlags(ts, stored, provider, t);
    PlannedFlags(ts, stored, provider, other);
    assert WithoutUsage(u.folders) == [FolderQuota("f", 100, 0)];
  }

  lemma TwoTransfers(ts: seq<Transfer>, t: Transfer, other: Transfer)
    requires ts == [t, other] && t.kind.Upload? && other.kind.Download? && t.username == other.username
    ensures Uploads(ts) == [t] && OfUser(ts, t.username) == ts && !SharesFolder(ts, t.username)
    ensures Grouped(Uploads(ts), KeyOf(t)) == [t]
  {
    assert ts[..1] == [t] && [t][..0] == [];
    assert Uploads([t]) == [t] by {
      assert Uploads([t][..0]) == [];
    }
    assert OfUser([t], t.username) == [t] by {
      assert OfUser([t][..0], t.username) == [];
    }
    forall k: Key
      ensures !Crowded([t], k)
    {
      assert Grouped([t], k) == if KeyOf(t) == k then [t] else [];
    }
  }

  /** After closing all the selected transfers nothing is left to count against what was exceeded. */
  ghost predicate IsRelieved(u: User, ts: seq<Transfer>, closed: set<Transfer>)
  {
    var ul, dl := Uploaded(ts), Downloaded(ts);
    if ExceedsTotal(u, ul, dl) then Uploaded(Left(ts, closed)) + Downloaded(Left(ts, closed)) == 0
    else if ExceedsDownload(u, dl) then Downloaded(Left(ts, closed)) == 0
    else ExceedsUpload(u, ul) ==> Uploaded(Left(ts, closed)) == 0
  }

  /** Closing every selected transfer is enough for every group of uploads and for every user. */
  lemma ClosingFlaggedIsEnough(ts: seq<Transfer>, users: map<string, User>, closed: set<Transfer>, k: Key)
    requires HasSizes(ts) && forall t <- ts :: IsFlagged(ts, users, t) ==> t in closed
    ensures var group := Grouped(Uploads(ts), k);
            IsOverDisk(Lookup(users, k.username), group) ==> NetGrowth(Left(group, closed)) <= 0
    ensures IsRelieved(Lookup(users, k.username), OfUser(ts, k.username), closed)
  {
    var u, group, own := Lookup(users, k.username), Grouped(Uploads(ts), k), OfUser(ts, k.username);
    UploadMembers(ts);
    GroupedMembers(Uploads(ts), k);
    OfUserMembers(ts, k.username);
    hide Uploads, Grouped, OfUser, DataFlags, NetGrowth, Uploaded, Downloaded, Left;
    assert forall t <- group :: DiskFlags(u, group, t) ==> IsFlagged(ts, users, t);
    if IsOverDisk(u, group) {
      DiskSelection(u, group, closed);
    }
    assert forall t <- own :: DataFlags(u, own, t) ==> IsFlagged(ts, users, t);
    DataSelection(u, own, closed);
  }

  lemma FlaggedIsFound(ts: seq<Transfer>, users: map<string, User>, uploads: map<int, seq<Transfer>>,
                       byUser: map<string, seq<Transfer>>, t: Transfer)
    requires IsAggregated(Uploads(ts), uploads) && IsByUser(ts, byUser)
    requires forall i :: i in uploads ==> uploads[i] != []
    requires t in ts && IsFlagged(ts, users, t)
    ensures (exists i :: i in uploads && IsDiskFlag(Lookup(users, uploads[i][0].username), uploads[i], FlagOf(t))) ||
            (exists u :: u in byUser && IsDataFlag(Lookup(users, u), byUser[u], FlagOf(t)))
  {
    hide DiskFlags, DataFlags;
    var u, ups := Lookup(users, t.username), Uploads(ts);
    if t.kind.Upload? && DiskFlags(u, Grouped(ups, KeyOf(t)), t) {
      UploadMembers(ts);
      GroupedMembers(ups, KeyOf(t));
      GroupsAreNotEmpty(ups, uploads);
      var i := FirstPosition(ups, t);
      assert i in uploads && uploads[i] == Grouped(ups, KeyOf(t)) && t in uploads[i];
      assert IsDiskFlag(u, uploads[i], FlagOf(t));
      assert uploads[i][0].username == t.username;
    } else {
      OfUserMembers(ts, t.username);
      assert t in OfUser(ts, t.username);
      assert IsDataFlag(u, byUser[t.username], FlagOf(t));
    }
  }

  lemma FirstPosition(ups: seq<Transfer>, t: Transfer) returns (i: int)
    requires t in ups
    ensures IsFirst(ups, i) && KeyOf(ups[i]) == KeyOf(t)
  {
    i := 0;
    while KeyOf(ups[i]) != KeyOf(t)
      invariant 0 <= i < |ups|
      invariant forall j :: 0 <= j < i ==> KeyOf(ups[j]) != KeyOf(t)
      invariant exists j :: i <= j < |ups| && ups[j] == t
      decreases |ups| - i
    {
      i := i + 1;
    }
  }

  /** The position of the first equal key, or the position the new key is going to have. */
  method FindKey(keys: seq<Key>, transfer: Transfer) returns (key: int)
    ensures 0 <= key <= |keys| && forall i :: 0 <= i < key ==> keys[i] != KeyOf(transfer)
    ensures key < |keys| ==> keys[key] == KeyOf(transfer)
  {
    key := -1;
    for idx := 0 to |keys|
      invariant key == -1 && forall i :: 0 <= i < idx ==> keys[i] != KeyOf(transfer)
    {
      if keys[idx].username == transfer.username && keys[idx].folder == transfer.folder {
        key := idx;
        break;
      }
    }
    if key == -1 {
      key := |keys|;
    }
  }

  lemma NothingAggregated()
    ensures IsAggregated([], map[]) && AreUsersToFetch([], map[])
  {
  }

  lemma UploadsOfNone()
    ensures Uploads([]) == []
  {
  }

  /** Groups are keyed by the position of their first upload and hold exactly the uploads with its key, in order. */
  ghost predicate IsAggregated(ups: seq<Transfer>, aggregations: map<int, seq<Transfer>>)
  {
    && (forall i :: i in aggregations <==> IsFirst(ups, i))
    && (forall i :: i in aggregations ==> aggregations[i] == Grouped(ups, KeyOf(ups[i])))
  }

  /** Users with some group of two or more uploads; true if such a group is in a folder. */
  ghost predicate AreUsersToFetch(ups: seq<Transfer>, users: map<string, bool>)
  {
    && (forall u :: u in users <==> exists k: Key :: k.username == u && Crowded(ups, k))
    && (forall u :: u in users ==>
        (users[u] <==> exists k: Key :: k.username == u && k.folder != "" && Crowded(ups, k)))
  }

  lemma UploadsAppend(ts: seq<Transfer>, t: Transfer)
    ensures Uploads(ts + [t]) == if t.kind.Upload? then Uploads(ts) + [t] else Uploads(ts)
  {
    assert (ts + [t])[..|ts|] == ts;
  }

  lemma CrowdedGroup(ups: seq<Transfer>, k: Key)
    ensures Crowded(ups, k) <==> |Grouped(ups, k)| > 1
  {
  }

  lemma GroupedAppend(ups: seq<Transfer>, t: Transfer, k: Key)
    ensures Grouped(ups + [t], k) == if KeyOf(t) == k then Grouped(ups, k) + [t] else Grouped(ups, k)
  {
    assert (ups + [t])[..|ups|] == ups;
  }

  /** Where a new upload goes: to the first upload with its key, or to a position of its own. */
  ghost predicate IsPlaceFor(ups: seq<Transfer>, t: Transfer, key: int)
  {
    && 0 <= key <= |ups| && (forall i :: 0 <= i < key ==> KeyOf(ups[i]) != KeyOf(t))
    && (key < |ups| ==> KeyOf(ups[key]) == KeyOf(t))
  }

  lemma FirstsAfter(ups: seq<Transfer>, t: Transfer, key: int)
    requires IsPlaceFor(ups, t, key)
    ensures forall i :: IsFirst(ups + [t], i) <==> IsFirst(ups, i) || i == key
    ensures key < |ups| <==> IsFirst(ups, key)
    ensures forall i :: IsFirst(ups, i) && i != key ==> KeyOf(ups[i]) != KeyOf(t) && (ups + [t])[i] == ups[i]
    ensures KeyOf((ups + [t])[key]) == KeyOf(t)
  {
    var longer := ups + [t];
    assert forall i :: 0 <= i < |ups| ==> longer[i] == ups[i];
    forall i
      ensures IsFirst(longer, i) <==> IsFirst(ups, i) || i == key
    {
      if i == |ups| && key < |ups| {
        assert KeyOf(longer[key]) == KeyOf(longer[i]);
      } else if 0 <= i < |ups| {
        assert forall j :: 0 <= j < i ==> KeyOf(longer[j]) == KeyOf(ups[j]);
      }
    }
  }

  lemma {:induction false} NewGroupIsEmpty(ups: seq<Transfer>, k: Key)
    requires forall i :: 0 <= i < |ups| ==> KeyOf(ups[i]) != k
    ensures Grouped(ups, k) == []
  {
    if ups != [] {
      NewGroupIsEmpty(ups[..|ups| - 1], k);
    }
  }

  lemma GroupBefore(ups: seq<Transfer>, t: Transfer, key: int)
    requires IsPlaceFor(ups, t, key)
    ensures if key < |ups| then key >= 0 && KeyOf(ups[key]) == KeyOf(t)
            else key == |ups| && Grouped(ups, KeyOf(t)) == []
  {
    if key == |ups| {
      NewGroupIsEmpty(ups, KeyOf(t));
    }
  }

  lemma AggregatedAt(ups: seq<Transfer>, aggregations: map<int, seq<Transfer>>, t: Transfer, key: int, i: int)
    requires IsAggregated(ups, aggregations) && IsPlaceFor(ups, t, key)
    ensures var group := (if key in aggregations then aggregations[key] else []) + [t];
            var longer := aggregations[key := group];
            && group == Grouped(ups + [t], KeyOf(t))
            && (i in longer <==> IsFirst(ups + [t], i))
            && (i in longer ==> 0 <= i <= |ups| && longer[i] == Grouped(ups + [t], KeyOf((ups + [t])[i])))
  {
    assert forall j :: IsFirst(ups, j) ==> 0 <= j < |ups|;
    hide Grouped, IsPlaceFor, IsFirst;
    FirstsAfter(ups, t, key);
    GroupBefore(ups, t, key);
    GroupedAppend(ups, t, KeyOf(t));
    if i != key && IsFirst(ups, i) {
      GroupedAppend(ups, t, KeyOf(ups[i]));
    }
  }

  /** A new upload joins the group of the first upload with its key, or starts a group of its own. */
  lemma AggregatedStep(ups: seq<Transfer>, aggregations: map<int, seq<Transfer>>, t: Transfer, key: int)
    requires IsAggregated(ups, aggregations) && IsPlaceFor(ups, t, key)
    ensures var group := (if key in aggregations then aggregations[key] else []) + [t];
            IsAggregated(ups + [t], aggregations[key := group]) && group == Grouped(ups + [t], KeyOf(t))
  {
    hide Grouped, IsPlaceFor, IsFirst, KeyOf;
    AggregatedAt(ups, aggregations, t, key, key);
    ghost var group := (if key in aggregations then aggregations[key] else []) + [t];
    forall i
      ensures i in aggregations[key := group] <==> IsFirst(ups + [t], i)
      ensures i in aggregations[key := group] ==>
                0 <= i <= |ups| && aggregations[key := group][i] == Grouped(ups + [t], KeyOf((ups + [t])[i]))
    {
      AggregatedAt(ups, aggregations, t, key, i);
    }
  }

  lemma CrowdedAfter(ups: seq<Transfer>, t: Transfer)
    ensures forall k :: Crowded(ups + [t], k) <==> Crowded(ups, k) || (k == KeyOf(t) && Crowded(ups + [t], KeyOf(t)))
  {
    forall k
      ensures Crowded(ups + [t], k) <==> Crowded(ups, k) || (k == KeyOf(t) && Crowded(ups + [t], KeyOf(t)))
    {
      GroupedAppend(ups, t, k);
    }
  }

  lemma FetchStep(ups: seq<Transfer>, users: map<string, bool>, t: Transfer)
    requires AreUsersToFetch(ups, users)
    ensures var users' := if !Crowded(ups + [t], KeyOf(t)) then users
                          else if t.folder != "" then users[t.username := true]
                          else if t.username !in users then users[t.username := false]
                          else users;
            AreUsersToFetch(ups + [t], users')
  {
    CrowdedAfter(ups, t);
    hide Crowded;
  }
}
