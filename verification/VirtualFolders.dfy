/** Users, the virtual folders mounted in their tree, and the folder that owns a path. */
module VirtualFolders {
  import opened Options
  import opened Paths

  datatype VirtualFolder = VirtualFolder(name: string, mount: Path, quotaSize: int, quotaFiles: int)
  {
    predicate IsIncludedInUserQuota()
    {
      quotaFiles == -1 && quotaSize == -1
    }

    predicate HasNoQuotaRestrictions(checkFiles: bool)
    {
      quotaSize == 0 && (!checkFiles || quotaFiles == 0)
    }
  }

  datatype User = User(folders: seq<VirtualFolder>, quotaSize: int, quotaFiles: int, maxUploadFileSize: int)
  {
    /** What validation guarantees: no folder is mapped twice and no mount point is used twice. */
    predicate Valid()
    {
      forall i, j :: 0 <= i < j < |folders| ==>
        folders[i].name != folders[j].name && folders[i].mount != folders[j].mount
    }

    predicate HasNoQuotaRestrictions(checkFiles: bool)
    {
      quotaSize == 0 && (!checkFiles || quotaFiles == 0)
    }

    predicate IsVirtualFolder(p: Path)
    {
      exists f <- folders :: f.mount == p
    }

    predicate HasVirtualFoldersInside(p: Path)
    {
      (p == [] && |folders| > 0) || exists f <- folders :: p < f.mount
    }
  }

  /** A folder is inside if its mount point is longer and starts with the path; every folder is inside the root. */
  lemma FoldersInsideMeans(user: User, p: Path)
    ensures user.HasVirtualFoldersInside(p) <==>
            if p == [] then user.folders != []
            else exists f <- user.folders :: |p| < |f.mount| && f.mount[..|p|] == p
  {
  }

  /** The first folder mounted exactly at p, if any. */
  function MountedAt(folders: seq<VirtualFolder>, p: Path): Option<VirtualFolder>
  {
    if folders == [] then None
    else if folders[0].mount == p then Some(folders[0])
    else MountedAt(folders[1..], p)
  }

  lemma {:induction false} MountedAtFinds(folders: seq<VirtualFolder>, p: Path)
    ensures var r := MountedAt(folders, p);
            if r.Some? then r.value in folders && r.value.mount == p
            else forall f <- folders :: f.mount != p
  {
    if folders != [] && folders[0].mount != p {
      MountedAtFinds(folders[1..], p);
      assert folders == [folders[0]] + folders[1..];
    }
  }

  /** The folder mounted at p or at its closest ancestor. */
  function FolderForPath(user: User, p: Path): Option<VirtualFolder>
    decreases |p|
  {
    var here := MountedAt(user.folders, p);
    if here.Some? || p == [] then here else FolderForPath(user, Dir(p))
  }

  /** Of all the folders mounted at or above p, the one found has the deepest mount point. */
  lemma {:induction false} FolderForPathIsNearest(user: User, p: Path)
    ensures var r := FolderForPath(user, p);
            if r.Some? then
              && r.value in user.folders && r.value.mount <= p
              && forall f <- user.folders :: f.mount <= p ==> f.mount <= r.value.mount
            else
              forall f <- user.folders :: !(f.mount <= p)
    decreases |p|
  {
    MountedAtFinds(user.folders, p);
    if MountedAt(user.folders, p).None? && p != [] {
      forall f <- user.folders | f.mount <= p
        ensures f.mount <= Dir(p)
      {
        PrefixOfDir(f.mount, p);
      }
      FolderForPathIsNearest(user, Dir(p));
    }
  }

  /** The deepest-first scan over the ancestor directories finds the nearest folder. */
  method GetVirtualFolderForPath(user: User, p: Path) returns (r: Option<VirtualFolder>)
    ensures r == FolderForPath(user, p)
    ensures r.Some? ==> r.value in user.folders
  {
    FolderForPathIsNearest(user, p);
    var dirs := GetDirsForVirtualPath(p);
    assert dirs[0] == p;
    for index := 0 to |dirs|
      invariant forall k :: 0 <= k < index ==> MountedAt(user.folders, dirs[k]).None?
      invariant index < |dirs| ==> FolderForPath(user, p) == FolderForPath(user, dirs[index])
      invariant index == |dirs| ==> FolderForPath(user, p).None?
    {
      for idx := 0 to |user.folders|
        invariant forall k :: 0 <= k < idx ==> user.folders[k].mount != dirs[index]
      {
        if user.folders[idx].mount == dirs[index] {
          FirstMount(user.folders, idx);
          return Some(user.folders[idx]);
        }
      }
      NotMounted(user.folders, dirs[index]);
      if index + 1 < |dirs| {
        assert dirs[index + 1] == Dir(dirs[index]);
      }
    }
    return None;
  }

  lemma {:induction false} FirstMount(folders: seq<VirtualFolder>, i: nat)
    requires i < |folders|
    requires forall k :: 0 <= k < i ==> folders[k].mount != folders[i].mount
    ensures MountedAt(folders, folders[i].mount) == Some(folders[i])
  {
    if i > 0 {
      assert folders[0].mount != folders[i].mount;
      FirstMount(folders[1..], i - 1);
    }
  }

  lemma NotMounted(folders: seq<VirtualFolder>, p: Path)
    requires forall k :: 0 <= k < |folders| ==> folders[k].mount != p
    ensures MountedAt(folders, p).None?
  {
    MountedAtFinds(folders, p);
  }

  /** Descending from d to p without crossing a mount point stays in the same folder. */
  lemma {:induction false} SameFolder(user: User, d: Path, p: Path)
    requires d <= p
    requires forall f <- user.folders :: !(d < f.mount && f.mount <= p)
    ensures FolderForPath(user, p) == FolderForPath(user, d)
    decreases |p|
  {
    if d < p {
      PrefixOfDir(d, p);
      MountedAtFinds(user.folders, p);
      SameFolder(user, d, Dir(p));
    } else {
      assert d == p;
    }
  }
}
