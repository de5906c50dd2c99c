/** Uploads to a local storage: from opening the file, over writes and truncates, to Close. */
module Transfer {
  import opened Options
  import Accounting
  import Quota

  /** The files of a local storage. Every operation can fail; apart from a short write it then changes nothing. */
  class LocalFs {
    var files: map<string, nat>

    constructor ()
      ensures files == map[]
    {
      files := map[];
    }

    method Remove(p: string, fails: bool) returns (ok: bool)
      modifies this
      ensures ok <==> !fails && p in old(files)
      ensures files == if ok then old(files) - {p} else old(files)
    {
      ok := !fails && p in files;
      if ok {
        files := files - {p};
      }
    }

    method Rename(source: string, target: string, fails: bool) returns (ok: bool)
      requires source != target
      modifies this
      ensures ok <==> !fails && source in old(files)
      ensures files == if ok then (old(files) - {source})[target := old(files)[source]] else old(files)
    {
      ok := !fails && source in files;
      if ok {
        files := (files - {source})[target := files[source]];
      }
    }

    method Truncate(p: string, size: nat, fails: bool) returns (ok: bool)
      modifies this
      ensures ok <==> !fails && p in old(files)
      ensures files == if ok then old(files)[p := size] else old(files)
    {
      ok := !fails && p in files;
      if ok {
        files := files[p := size];
      }
    }

    /** Opens p for writing, creating it if needed. */
    method Create(p: string, truncate: bool, fails: bool) returns (ok: bool)
      modifies this
      ensures ok <==> !fails
      ensures files == if ok then old(files)[p := if truncate || p !in old(files) then 0 else old(files)[p]]
              else old(files)
    {
      ok := !fails;
      if ok {
        files := files[p := if truncate || p !in files then 0 else files[p]];
      }
    }

    /** Writes len bytes at off, or fails after some of them. */
    method WriteAt(p: string, off: nat, len: nat, short: Option<nat>) returns (n: nat, ok: bool)
      requires p in files
      modifies this
      ensures n == Written(len, short) && (ok <==> short.None?)
      ensures files == old(files)[p := if n > 0 && off + n > old(files)[p] then off + n else old(files)[p]]
    {
      n, ok := Written(len, short), short.None?;
      if n > 0 && off + n > files[p] {
        files := files[p := off + n];
      }
    }
  }

  /** How many of len bytes are written before a failure, if there is one. */
  function Written(len: nat, short: Option<nat>): (n: nat)
    ensures n <= len && (short.None? ==> n == len)
  {
    if short.Some? && short.value < len then short.value else len
  }

  /** The counters of the account charged for the uploaded file. */
  class Account {
    var files: int
    var size: int

    constructor (files: int, size: int)
      ensures this.files == files && this.size == size
    {
      this.files, this.size := files, size;
    }

    method Update(filesAdd: int, sizeAdd: int)
      modifies this
      ensures files == old(files) + filesAdd && size == old(size) + sizeAdd
    {
      files, size := files + filesAdd, size + sizeAdd;
    }
  }

  function CountAt(files: map<string, nat>, p: string): nat
  {
    if p in files then 1 else 0
  }

  function SizeAt(files: map<string, nat>, p: string): nat
  {
    if p in files then files[p] else 0
  }

  datatype TransferError = QuotaExceeded | Other

  datatype Truncation = Truncated(initialSize: int) | Mismatch | Failed

  /** The part of the server configuration Close depends on. */
  datatype Config = Config(atomicWithResume: bool, hasTempPath: bool)

  /** What fails while an upload is closed: moving the file, removing it at three places, and the hook. */
  datatype Outcomes = Outcomes(renameFails: bool, removeFails: bool, cryptRemoveFails: bool, hookFails: bool,
                               hookRemoveFails: bool)

  const NO_FAILURE := Outcomes(false, false, false, false, false)

  /** Transfer quotas left when the upload was opened; 0 means no limit. */
  datatype TransferQuota = TransferQuota(allowedULSize: int, allowedTotalSize: int)

  // ---------------------------------------------------------------- what writes and truncates do to an upload

  /** The state of an open upload: the length of the file, the fields the limit is computed from, the first error. */
  datatype Progress = Progress(length: nat, minWriteOffset: int, initialSize: int, maxWriteSize: int,
                               bytesReceived: int, error: Option<TransferError>)

  /** A request of the client, with its outcome: a write may fail after some bytes, a truncate may fail. */
  datatype Step = Write(off: nat, len: nat, short: Option<nat>) | SetSize(path: string, size: nat, fails: bool)

  /** The bytes received so far respect the size limit and the transfer quotas. */
  predicate IsWithinLimits(quota: TransferQuota, maxWriteSize: int, bytesReceived: int)
  {
    if maxWriteSize > 0 && bytesReceived > maxWriteSize then false
    else if quota.allowedULSize == 0 && quota.allowedTotalSize == 0 then true
    else if quota.allowedTotalSize > 0 then bytesReceived <= quota.allowedTotalSize
    else quota.allowedULSize > 0 ==> bytesReceived <= quota.allowedULSize
  }

  function FirstError(error: Option<TransferError>, next: TransferError): Option<TransferError>
  {
    if error.Some? then error else Some(next)
  }

  function Wrote(u: Progress, quota: TransferQuota, off: nat, len: nat, short: Option<nat>): Progress
  {
    if off < u.minWriteOffset then u.(error := FirstError(u.error, Other))
    else
      var n := Written(len, short);
      u.(length := if n > 0 && off + n > u.length then off + n else u.length, bytesReceived := u.bytesReceived + n,
         error := if short.Some? then FirstError(u.error, Other)
                  else if !IsWithinLimits(quota, u.maxWriteSize, u.bytesReceived + n)
                  then FirstError(u.error, QuotaExceeded)
                  else u.error)
  }

  function Resized(u: Progress, size: nat): Progress
  {
    u.(length := size, initialSize := size,
       maxWriteSize := if u.maxWriteSize > 0 then u.maxWriteSize + u.initialSize - size else u.maxWriteSize,
       bytesReceived := if u.maxWriteSize > 0 then 0 else u.bytesReceived)
  }

  function Next(u: Progress, quota: TransferQuota, fsPath: string, step: Step): Progress
  {
    match step
    case Write(off, len, short) => Wrote(u, quota, off, len, short)
    case SetSize(path, size, fails) => if path == fsPath && !fails then Resized(u, size) else u
  }

  function After(u: Progress, quota: TransferQuota, fsPath: string, steps: seq<Step>): Progress
  {
    if steps == [] then u else Next(After(u, quota, fsPath, steps[..|steps| - 1]), quota, fsPath, steps[|steps| - 1])
  }

  /** The largest size the limit is meant to allow. */
  function Ceiling(u: Progress): int
  {
    u.initialSize + u.maxWriteSize
  }

  /** How many bytes may be received without a quota error: the size limit or the transfer quota, if that is less. */
  function Allowance(u: Progress, quota: TransferQuota): int
  {
    if 0 < quota.allowedTotalSize then Min(quota.allowedTotalSize, u.maxWriteSize)
    else if 0 < quota.allowedULSize && quota.allowedTotalSize <= 0 then Min(quota.allowedULSize, u.maxWriteSize)
    else u.maxWriteSize
  }

  function Min(a: int, b: int): int
  {
    if a < b then a else b
  }

  /** As far as the file may reach for the bytes received: what a transfer quota forbids anyway is spare. */
  function Reach(u: Progress, quota: TransferQuota): int
  {
    u.initialSize + u.bytesReceived + u.maxWriteSize - Allowance(u, quota)
  }

  /** The step keeps the limit in force: a write starts within reach, and a truncate stays below the ceiling. */
  predicate Keeps(u: Progress, quota: TransferQuota, fsPath: string, step: Step)
  {
    match step
    case Write(off, len, short) => off < u.minWriteOffset || Written(len, short) == 0 || off <= Reach(u, quota)
    case SetSize(path, size, fails) => path != fsPath || fails || size < Ceiling(u)
  }

  predicate AllKeep(u: Progress, quota: TransferQuota, fsPath: string, steps: seq<Step>)
  {
    steps == [] ||
    (AllKeep(u, quota, fsPath, steps[..|steps| - 1]) &&
     Keeps(After(u, quota, fsPath, steps[..|steps| - 1]), quota, fsPath, steps[|steps| - 1]))
  }

  /** The limit is in force: the file is within reach, and without an error no more than the allowance was received. */
  predicate IsBounded(u: Progress, quota: TransferQuota)
  {
    && u.maxWriteSize > 0 && u.initialSize >= 0 && u.bytesReceived >= 0
    && u.length <= Reach(u, quota) && u.minWriteOffset <= Ceiling(u)
    && (u.error.None? ==> u.bytesReceived <= Allowance(u, quota))
  }

  /** A step leaves the limit in force if and only if it keeps it; the ceiling never moves while it is in force. */
  lemma StepLaw(u: Progress, quota: TransferQuota, fsPath: string, step: Step)
    requires IsBounded(u, quota)
    ensures IsBounded(Next(u, quota, fsPath, step), quota) <==> Keeps(u, quota, fsPath, step)
    ensures Ceiling(Next(u, quota, fsPath, step)) == Ceiling(u)
  {
  }

  /** As long as every step keeps the limit, only an upload that received more than it allows is above the ceiling. */
  lemma {:induction false} KeepingStaysBelow(u: Progress, quota: TransferQuota, fsPath: string, steps: seq<Step>)
    requires IsBounded(u, quota) && AllKeep(u, quota, fsPath, steps)
    ensures var end := After(u, quota, fsPath, steps);
            && IsBounded(end, quota) && Ceiling(end) == Ceiling(u)
            && (end.length > Ceiling(u) ==> end.bytesReceived > Allowance(end, quota) && end.error.Some?)
  {
    if steps != [] {
      var init := steps[..|steps| - 1];
      KeepingStaysBelow(u, quota, fsPath, init);
      StepLaw(After(u, quota, fsPath, init), quota, fsPath, steps[|steps| - 1]);
    }
  }

  // ---------------------------------------------------------------- uploads in order

  /** Every write starts at the end of the file, or writes nothing. */
  predicate AllInOrder(u: Progress, quota: TransferQuota, fsPath: string, steps: seq<Step>)
  {
    steps == [] ||
    (AllInOrder(u, quota, fsPath, steps[..|steps| - 1]) &&
     IsInOrder(After(u, quota, fsPath, steps[..|steps| - 1]), steps[|steps| - 1]))
  }

  predicate IsInOrder(u: Progress, step: Step)
  {
    step.Write? ==> step.off < u.minWriteOffset || Written(step.len, step.short) == 0 || step.off == u.length
  }

  /** In order, the file is above the ceiling if and only if more than the limit was received. */
  lemma {:induction false} AboveIffReceived(u: Progress, quota: TransferQuota, fsPath: string, steps: seq<Step>)
    requires IsBounded(u, quota) && u.length == u.initialSize + u.bytesReceived
    requires AllKeep(u, quota, fsPath, steps) && AllInOrder(u, quota, fsPath, steps)
    ensures var end := After(u, quota, fsPath, steps);
            && end.length == end.initialSize + end.bytesReceived
            && (end.length > Ceiling(u) <==> end.bytesReceived > end.maxWriteSize)
  {
    KeepingStaysBelow(u, quota, fsPath, steps);
    if steps != [] {
      var init := steps[..|steps| - 1];
      AboveIffReceived(u, quota, fsPath, init);
      KeepingStaysBelow(u, quota, fsPath, init);
    }
  }

  // ---------------------------------------------------------------- how much may be received

  /** The upload has a size limit, a total transfer quota, or an upload quota that counts without a total one. */
  predicate IsAllowed(quota: TransferQuota, maxWriteSize: int, bytesReceived: int)
  {
    && (0 < maxWriteSize ==> bytesReceived <= maxWriteSize)
    && (0 < quota.allowedTotalSize ==> bytesReceived <= quota.allowedTotalSize)
    && (quota.allowedTotalSize <= 0 < quota.allowedULSize ==> bytesReceived <= quota.allowedULSize)
  }

  /** Only writes, each accepted and without a failure. */
  predicate AreWrites(u: Progress, steps: seq<Step>)
  {
    forall step <- steps :: step.Write? && step.off >= u.minWriteOffset && step.short.None?
  }

  function Sent(steps: seq<Step>): nat
  {
    if steps == [] then 0
    else Sent(steps[..|steps| - 1]) + (if steps[|steps| - 1].Write? then steps[|steps| - 1].len else 0)
  }

  /** Whether there is a size limit or not: writes meet the quota error exactly if more is sent than is allowed. */
  lemma {:induction false} WritesFailIff(u: Progress, quota: TransferQuota, fsPath: string, steps: seq<Step>)
    requires u.error.None? && IsAllowed(quota, u.maxWriteSize, u.bytesReceived) && AreWrites(u, steps)
    ensures var end := After(u, quota, fsPath, steps);
            && end.bytesReceived == u.bytesReceived + Sent(steps)
            && end.maxWriteSize == u.maxWriteSize && end.minWriteOffset == u.minWriteOffset
            && end.error == if IsAllowed(quota, u.maxWriteSize, u.bytesReceived + Sent(steps)) then None
                            else Some(QuotaExceeded)
  {
    if steps != [] {
      var init, last := steps[..|steps| - 1], steps[|steps| - 1];
      assert AreWrites(u, init);
      WritesFailIff(u, quota, fsPath, init);
      assert last in steps;
    }
  }

  /** Any errors, no truncates: what was received without an error is allowed. */
  lemma {:induction false} NoErrorIsAllowed(u: Progress, quota: TransferQuota, fsPath: string, steps: seq<Step>)
    requires IsAllowed(quota, u.maxWriteSize, u.bytesReceived) && forall step <- steps :: step.Write?
    ensures var end := After(u, quota, fsPath, steps);
            && end.maxWriteSize == u.maxWriteSize
            && (end.error.None? ==> IsAllowed(quota, end.maxWriteSize, end.bytesReceived))
  {
    if steps != [] {
      var init, last := steps[..|steps| - 1], steps[|steps| - 1];
      NoErrorIsAllowed(u, quota, fsPath, init);
      assert last in steps;
    }
  }

  // ---------------------------------------------------------------- what becomes of the file

  /** Closing the upload leaves the file at the path, rather than removing it or leaving it at a temporary path. */
  predicate Stays(error: Option<TransferError>, isAtomic: bool, isCryptFs: bool, config: Config, o: Outcomes)
  {
    && IsPlaced(error, isAtomic, config, o)
    && !(error.Some? && isCryptFs && !o.cryptRemoveFails)
    && !(o.hookFails && !o.hookRemoveFails)
  }

  /** The bytes are at the path before a partial encrypted file is removed and the hook is executed. */
  predicate IsPlaced(error: Option<TransferError>, isAtomic: bool, config: Config, o: Outcomes)
  {
    if error == Some(QuotaExceeded) then !isAtomic && o.removeFails
    else isAtomic ==> (error.None? || config.atomicWithResume) && !o.renameFails
  }

  predicate Succeeds(error: Option<TransferError>, isAtomic: bool, o: Outcomes)
  {
    error.None? && !(isAtomic && o.renameFails) && !o.hookFails
  }

  /** The size at the path after the upload was closed. */
  function ClosedSize(u: Progress, isAtomic: bool, isCryptFs: bool, config: Config, o: Outcomes): nat
  {
    if Stays(u.error, isAtomic, isCryptFs, config, o) then u.length else 0
  }

  /**
   * Over all uploads whose steps keep the limit: the path ends above the ceiling only if more than the limit was
   * received and nothing removed the file, which takes an earlier error of another kind or a failing removal.
   */
  lemma EndsAboveOnlyIf(u: Progress, quota: TransferQuota, fsPath: string, steps: seq<Step>, isAtomic: bool,
                        isCryptFs: bool, config: Config, o: Outcomes)
    requires IsBounded(u, quota) && AllKeep(u, quota, fsPath, steps)
    requires ClosedSize(After(u, quota, fsPath, steps), isAtomic, isCryptFs, config, o) > Ceiling(u)
    ensures var end := After(u, quota, fsPath, steps);
            && end.bytesReceived > Allowance(end, quota)
            && (end.error == Some(Other) || (end.error == Some(QuotaExceeded) && !isAtomic && o.removeFails))
  {
    KeepingStaysBelow(u, quota, fsPath, steps);
    var end := After(u, quota, fsPath, steps);
    assert end.error.value.Other? || end.error.value.QuotaExceeded?;
  }

  // ---------------------------------------------------------------- the exact condition

  /** The client appends len bytes to the file, and closes it. */
  function Appended(u: Progress, quota: TransferQuota, len: nat): Progress
  {
    Wrote(u, quota, u.length, len, None)
  }

  /** The size at the path, if the client appends len bytes to a plain upload and closes it without any failure. */
  function AppendedSize(u: Progress, quota: TransferQuota, len: nat, config: Config): nat
  {
    ClosedSize(Appended(u, quota, len), false, false, config, NO_FAILURE)
  }

  /**
   * The step leaves the upload in one of three states: the quota error, so that closing removes the file; no error and
   * the limit in force; or another error while the file ends before the offset it may be written from.
   */
  predicate IsCarefulStep(u: Progress, quota: TransferQuota, fsPath: string, step: Step)
  {
    var v := Next(u, quota, fsPath, step);
    match v.error
    case Some(QuotaExceeded) => true
    case Some(Other) => v.length < v.minWriteOffset
    case None => Keeps(u, quota, fsPath, step)
  }

  predicate IsCareful(u: Progress, quota: TransferQuota, fsPath: string, steps: seq<Step>)
  {
    steps == [] ||
    (IsCareful(u, quota, fsPath, steps[..|steps| - 1]) &&
     IsCarefulStep(After(u, quota, fsPath, steps[..|steps| - 1]), quota, fsPath, steps[|steps| - 1]))
  }

  /** After a step that is not careful there is an append that ends above the ceiling. */
  lemma BreakingExceeds(u: Progress, quota: TransferQuota, fsPath: string, step: Step, config: Config)
    returns (len: nat)
    requires u.error.None? ==> IsBounded(u, quota)
    requires !IsCarefulStep(u, quota, fsPath, step)
    ensures AppendedSize(Next(u, quota, fsPath, step), quota, len, config) > Ceiling(u)
  {
    var v := Next(u, quota, fsPath, step);
    if v.error == Some(Other) {
      len := if Ceiling(u) < 0 then 1 else Ceiling(u) + 1;
    } else {
      len := if step.Write? then Allowance(v, quota) - v.bytesReceived else 1;
    }
  }

  /**
   * The exact condition for plain uploads, with or without a transfer quota and with any errors: at no point can the
   * client append and close so that the path ends above the ceiling, if and only if every step was careful.
   */
  lemma BelowIffCareful(u: Progress, quota: TransferQuota, fsPath: string, steps: seq<Step>, config: Config)
    requires IsBounded(u, quota) && u.error.None?
    ensures IsCareful(u, quota, fsPath, steps) <==>
            forall i, len: nat | 0 <= i <= |steps| ::
              AppendedSize(After(u, quota, fsPath, steps[..i]), quota, len, config) <= Ceiling(u)
  {
    if IsCareful(u, quota, fsPath, steps) {
      forall i, len: nat | 0 <= i <= |steps|
        ensures AppendedSize(After(u, quota, fsPath, steps[..i]), quota, len, config) <= Ceiling(u)
      {
        CarefulPrefix(u, quota, fsPath, steps, i);
        CarefulIsSafe(u, quota, fsPath, steps[..i]);
      }
    } else {
      var i, len := FirstBreak(u, quota, fsPath, steps, config);
    }
  }

  /** What careful steps keep: no matter what is appended, the path does not end above the ceiling. */
  predicate IsSafe(u: Progress, quota: TransferQuota, ceiling: int)
  {
    match u.error
    case Some(QuotaExceeded) => true
    case Some(Other) => u.length < u.minWriteOffset <= ceiling
    case None => IsBounded(u, quota) && Ceiling(u) == ceiling
  }

  lemma {:induction false} CarefulIsSafe(u: Progress, quota: TransferQuota, fsPath: string, steps: seq<Step>)
    requires IsBounded(u, quota) && u.error.None? && IsCareful(u, quota, fsPath, steps)
    ensures IsSafe(After(u, quota, fsPath, steps), quota, Ceiling(u))
  {
    if steps != [] {
      var init := steps[..|steps| - 1];
      CarefulIsSafe(u, quota, fsPath, init);
      if After(u, quota, fsPath, init).error.None? {
        StepLaw(After(u, quota, fsPath, init), quota, fsPath, steps[|steps| - 1]);
      }
    }
  }

  lemma {:induction false} CarefulPrefix(u: Progress, quota: TransferQuota, fsPath: string, steps: seq<Step>, i: nat)
    requires IsCareful(u, quota, fsPath, steps) && i <= |steps|
    ensures IsCareful(u, quota, fsPath, steps[..i])
  {
    if i == |steps| {
      assert steps[..i] == steps;
    } else {
      CarefulPrefix(u, quota, fsPath, steps[..|steps| - 1], i);
      assert steps[..|steps| - 1][..i] == steps[..i];
    }
  }

  /** The first careless step, and an append after it that ends above the ceiling. */
  lemma {:induction false} FirstBreak(u: Progress, quota: TransferQuota, fsPath: string, steps: seq<Step>,
                                      config: Config)
    returns (i: nat, len: nat)
    requires IsBounded(u, quota) && u.error.None? && !IsCareful(u, quota, fsPath, steps)
    ensures i <= |steps| && AppendedSize(After(u, quota, fsPath, steps[..i]), quota, len, config) > Ceiling(u)
  {
    var init, last := steps[..|steps| - 1], steps[|steps| - 1];
    if IsCareful(u, quota, fsPath, init) {
      CarefulIsSafe(u, quota, fsPath, init);
      i := |steps|;
      assert steps[..i] == steps;
      var before := After(u, quota, fsPath, init);
      if before.error.None? {
        len := BreakingExceeds(before, quota, fsPath, last, config);
      } else {
        len := Ceiling(u) + 1;
      }
    } else {
      i, len := FirstBreak(u, quota, fsPath, init, config);
      assert init[..i] == steps[..i];
    }
  }

  // ---------------------------------------------------------------- uploads that end above the ceiling

  const ROOM_FOR_100 := Progress(0, 0, 0, 100, 0, None)
  const UNLIMITED := TransferQuota(0, 0)

  /** Two uploads with room for 100 bytes that end above it without any error. */
  lemma TruncateSwitchesLimitOff(fsPath: string)
    ensures After(ROOM_FOR_100, UNLIMITED, fsPath, [SetSize(fsPath, 100, false), Write(100, 1, None)]) ==
            Progress(101, 0, 100, 0, 1, None)
  {
    TwoSteps(ROOM_FOR_100, UNLIMITED, fsPath, SetSize(fsPath, 100, false), Write(100, 1, None));
  }

  lemma TwoSteps(u: Progress, quota: TransferQuota, fsPath: string, first: Step, second: Step)
    ensures After(u, quota, fsPath, [first, second]) == Next(Next(u, quota, fsPath, first), quota, fsPath, second)
    ensures AllKeep(u, quota, fsPath, [first, second]) <==>
            Keeps(u, quota, fsPath, first) && Keeps(Next(u, quota, fsPath, first), quota, fsPath, second)
  {
    hide Next, Keeps;
    assert [first, second][..1] == [first] && [first][..0] == [];
    assert After(u, quota, fsPath, [first]) == Next(u, quota, fsPath, first);
    assert AllKeep(u, quota, fsPath, [first]) <==> Keeps(u, quota, fsPath, first);
  }

  lemma HoleIsNotCounted(fsPath: string)
    ensures After(ROOM_FOR_100, UNLIMITED, fsPath, [Write(1_000_000, 1, None)]) ==
            Progress(1_000_001, 0, 0, 100, 1, None)
  {
    var steps := [Write(1_000_000, 1, None)];
    assert steps[..0] == [];
  }

  class BaseTransfer {
    const fs: LocalFs
    const account: Account
    const fsPath: string
    const effectiveFsPath: string
    const isNewFile: bool
    const isCryptFs: bool
    const transferQuota: TransferQuota
    var minWriteOffset: int
    var initialSize: int
    var maxWriteSize: int
    var bytesReceived: int
    var errTransfer: Option<TransferError>

    /** What the account counts apart from the file at fsPath. */
    ghost const otherFiles: int
    ghost const otherSize: int

    /** Between operations the account counts the original file, if any, at initialSize. */
    ghost predicate Valid()
      reads this, fs, account
    {
      && initialSize >= 0
      && effectiveFsPath in fs.files
      && (effectiveFsPath != fsPath ==> fsPath !in fs.files)
      && account.files == otherFiles + (if isNewFile then 0 else 1)
      && account.size == otherSize + initialSize
    }

    ghost function Now(): Progress
      requires effectiveFsPath in fs.files
      reads this, fs
    {
      Progress(fs.files[effectiveFsPath], minWriteOffset, initialSize, maxWriteSize, bytesReceived, errTransfer)
    }

    constructor (fs: LocalFs, account: Account, fsPath: string, effectiveFsPath: string, minWriteOffset: int,
                 initialSize: int, maxWriteSize: int, isNewFile: bool, isCryptFs: bool, transferQuota: TransferQuota)
      requires initialSize >= 0 && effectiveFsPath in fs.files
      requires effectiveFsPath != fsPath ==> fsPath !in fs.files
      ensures Valid() && fresh(this)
      ensures this.fs == fs && this.account == account && this.fsPath == fsPath && this.transferQuota == transferQuota
      ensures this.effectiveFsPath == effectiveFsPath && this.isCryptFs == isCryptFs
      ensures otherFiles == account.files - (if isNewFile then 0 else 1) && otherSize == account.size - initialSize
      ensures Now() == Progress(fs.files[effectiveFsPath], minWriteOffset, initialSize, maxWriteSize, 0, None)
    {
      this.fs, this.account, this.fsPath, this.effectiveFsPath := fs, account, fsPath, effectiveFsPath;
      this.isNewFile, this.isCryptFs, this.transferQuota := isNewFile, isCryptFs, transferQuota;
      this.minWriteOffset, this.initialSize, this.maxWriteSize := minWriteOffset, initialSize, maxWriteSize;
      this.bytesReceived, this.errTransfer := 0, None;
      otherFiles := account.files - (if isNewFile then 0 else 1);
      otherSize := account.size - initialSize;
    }

    /** Only the first error is recorded. */
    method TransferError(err: TransferError)
      modifies `errTransfer
      ensures errTransfer == if old(errTransfer).Some? then old(errTransfer) else Some(err)
    {
      if errTransfer.Some? {
        return;
      }
      errTransfer := Some(err);
    }

    predicate CheckWrite()
      reads this
    {
      IsWithinLimits(transferQuota, maxWriteSize, bytesReceived)
    }

    /** Writing leaves the account and the other files alone. */
    method WriteAt(off: nat, len: nat, short: Option<nat>)
      requires Valid()
      modifies this, fs
      ensures Valid() && Now() == Wrote(old(Now()), transferQuota, off, len, short)
      ensures fs.files == old(fs.files)[effectiveFsPath := Now().length]
    {
      if off < minWriteOffset {
        TransferError(Other);
        assert fs.files == fs.files[effectiveFsPath := fs.files[effectiveFsPath]];
        return;
      }
      var n, ok := fs.WriteAt(effectiveFsPath, off, len, short);
      bytesReceived := bytesReceived + n;
      if !ok {
        TransferError(Other);
      } else if !CheckWrite() {
        TransferError(QuotaExceeded);
      }
    }

    /**
     * Truncates the open file. The write limit moves the other way by as much, and stays on
     * exactly when the new size is below the old size plus the old limit.
     */
    method Truncate(path: string, size: nat, fails: bool) returns (r: Truncation)
      requires Valid()
      modifies this, fs
      ensures effectiveFsPath in fs.files
              && Now() == Next(old(Now()), transferQuota, fsPath, SetSize(path, size, fails))
      ensures r == if path != fsPath then Mismatch else if fails then Failed else Truncated(old(initialSize))
      ensures old(maxWriteSize) > 0 && r.Truncated? ==>
                && initialSize + maxWriteSize == old(initialSize) + old(maxWriteSize) && bytesReceived == 0
                && (maxWriteSize > 0 <==> size < old(initialSize) + old(maxWriteSize))
      ensures fs.files == if r.Truncated? then old(fs.files)[effectiveFsPath := size] else old(fs.files)
      ensures errTransfer == old(errTransfer)
    {
      if path != fsPath {
        return Mismatch;
      }
      var ok := fs.Truncate(effectiveFsPath, size, fails);
      if !ok {
        return Failed;
      }
      r := Truncated(initialSize);
      var sizeDiff := initialSize - size;
      initialSize := size;
      if maxWriteSize > 0 {
        maxWriteSize := maxWriteSize + sizeDiff;
        bytesReceived := 0;
      }
    }

    /** Truncating through the connection also charges the difference, so the account stays in step. */
    method TruncateFile(path: string, size: nat, fails: bool) returns (r: Truncation)
      requires Valid()
      modifies this, fs, account
      ensures Valid() && Now() == Next(old(Now()), transferQuota, fsPath, SetSize(path, size, fails))
      ensures r == if path != fsPath then Mismatch else if fails then Failed else Truncated(old(initialSize))
      ensures account.size == old(account.size) + (if r.Truncated? then size - old(initialSize) else 0)
      ensures fs.files == if r.Truncated? then old(fs.files)[effectiveFsPath := size] else old(fs.files)
    {
      r := Truncate(path, size, fails);
      if r.Truncated? {
        var sizeDiff := r.initialSize - size;
        account.Update(0, -sizeDiff);
      }
    }

    /** The size found at fsPath; a partial encrypted file is removed and counted as deleted. */
    method GetUploadFileSize(removeFails: bool) returns (fileSize: int, deletedFiles: int, exists_: bool)
      modifies this, fs
      ensures exists_ <==> fsPath in old(fs.files)
      ensures fs.files == if errTransfer.Some? && isCryptFs && !removeFails then old(fs.files) - {fsPath}
                          else old(fs.files)
      ensures deletedFiles == CountAt(old(fs.files), fsPath) - CountAt(fs.files, fsPath)
      ensures fileSize == SizeAt(fs.files, fsPath)
      ensures initialSize == old(initialSize) && errTransfer == old(errTransfer)
      ensures if fsPath in old(fs.files) && fsPath !in fs.files then bytesReceived == minWriteOffset == 0
              else bytesReceived == old(bytesReceived) && minWriteOffset == old(minWriteOffset)
    {
      fileSize, deletedFiles := 0, 0;
      exists_ := fsPath in fs.files;
      if exists_ {
        fileSize := fs.files[fsPath];
      }
      if errTransfer.Some? && isCryptFs {
        var removed := fs.Remove(fsPath, removeFails);
        if removed {
          fileSize, deletedFiles := 0, 1;
          bytesReceived, minWriteOffset := 0, 0;
        }
      }
    }

    method CheckUploadOutsideHomeDir(failed: bool, config: Config, removeFails: bool)
      requires fsPath != effectiveFsPath
      modifies this, fs
      ensures initialSize == old(initialSize)
      ensures fs.files == if failed && config.hasTempPath && !removeFails then old(fs.files) - {effectiveFsPath}
                          else old(fs.files)
      ensures errTransfer == if failed then FirstError(old(errTransfer), Other) else old(errTransfer)
      ensures if failed && config.hasTempPath then bytesReceived == minWriteOffset == 0
              else bytesReceived == old(bytesReceived) && minWriteOffset == old(minWriteOffset)
    {
      if !failed {
        return;
      }
      TransferError(Other);
      if !config.hasTempPath {
        return;
      }
      var removed := fs.Remove(effectiveFsPath, removeFails);
      bytesReceived, minWriteOffset := 0, 0;
    }

    method ExecuteUploadHook(numFiles: int, fileSize: int, hookFails: bool, removeFails: bool)
      returns (numFiles': int, fileSize': int)
      requires fileSize == SizeAt(fs.files, fsPath)
      modifies this, fs
      ensures numFiles' - numFiles == CountAt(fs.files, fsPath) - CountAt(old(fs.files), fsPath)
      ensures fileSize' == SizeAt(fs.files, fsPath)
      ensures initialSize == old(initialSize)
      ensures fs.files == if hookFails && !removeFails then old(fs.files) - {fsPath} else old(fs.files)
      ensures errTransfer == if hookFails then FirstError(old(errTransfer), Other) else old(errTransfer)
      ensures if fsPath in old(fs.files) && fsPath !in fs.files then bytesReceived == minWriteOffset == 0
              else bytesReceived == old(bytesReceived) && minWriteOffset == old(minWriteOffset)
    {
      numFiles', fileSize' := numFiles, fileSize;
      if hookFails {
        TransferError(Other);
        var removed := fs.Remove(fsPath, removeFails);
        if removed {
          numFiles', fileSize' := numFiles' - 1, 0;
          bytesReceived, minWriteOffset := 0, 0;
        }
      }
    }

    method UpdateQuota(numFiles: int, fileSize: int) returns (updated: bool)
      modifies account
      ensures account.files == old(account.files) + numFiles
      ensures account.size == old(account.size) + fileSize - initialSize
      ensures updated <==> numFiles != 0 || fileSize != initialSize
    {
      var sizeDiff := fileSize - initialSize;
      if numFiles != 0 || sizeDiff != 0 {
        account.Update(numFiles, sizeDiff);
        return true;
      }
      return false;
    }

    predicate IsAtomicUpload()
    {
      effectiveFsPath != fsPath
    }

    /** Settles where the uploaded bytes end up: removed, renamed into place, or left where they are. */
    method FinishFile(config: Config, o: Outcomes) returns (ok: bool)
      requires Valid()
      modifies this, fs
      ensures initialSize == old(initialSize)
      ensures fsPath in fs.files <==> IsPlaced(old(errTransfer), IsAtomicUpload(), config, o)
      ensures fsPath in fs.files ==> fs.files[fsPath] == old(Now()).length
      ensures fs.files - {fsPath, effectiveFsPath} == old(fs.files) - {fsPath, effectiveFsPath}
      ensures errTransfer == if IsPlaced(old(errTransfer), IsAtomicUpload(), config, o) then old(errTransfer)
                             else FirstError(old(errTransfer), Other)
      ensures errTransfer.None? ==> ok
      ensures IsAtomicUpload() ==>
                (effectiveFsPath in fs.files <==>
                   if old(errTransfer) != Some(QuotaExceeded) && (old(errTransfer).None? || config.atomicWithResume)
                   then o.renameFails && (config.hasTempPath ==> o.removeFails)
                   else o.removeFails)
      ensures if (IsAtomicUpload() && old(errTransfer) != Some(QuotaExceeded) && o.renameFails && config.hasTempPath &&
                  (old(errTransfer).None? || config.atomicWithResume)) ||
                 (!o.removeFails && (old(errTransfer) == Some(QuotaExceeded) ||
                                     (IsAtomicUpload() && old(errTransfer).Some? && !config.atomicWithResume)))
              then bytesReceived == minWriteOffset == 0
              else bytesReceived == old(bytesReceived) && minWriteOffset == old(minWriteOffset)
    {
      ok := true;
      if errTransfer == Some(QuotaExceeded) {
        ok := fs.Remove(effectiveFsPath, o.removeFails);
        if ok {
          bytesReceived, minWriteOffset := 0, 0;
        }
      } else if IsAtomicUpload() {
        if errTransfer.None? || config.atomicWithResume {
          ok := fs.Rename(effectiveFsPath, fsPath, o.renameFails);
          CheckUploadOutsideHomeDir(!ok, config, o.removeFails);
        } else {
          ok := fs.Remove(effectiveFsPath, o.removeFails);
          if ok {
            bytesReceived, minWriteOffset := 0, 0;
          }
        }
      }
    }

    /**
     * Closes the upload. Whatever happened, the account ends with exactly the file found at fsPath: the whole upload
     * if it stays, and no file otherwise. It succeeds exactly if there was no error and none is met.
     */
    method Close(config: Config, o: Outcomes) returns (ok: bool)
      requires Valid()
      modifies this, fs, account
      ensures account.files == otherFiles + CountAt(fs.files, fsPath)
      ensures account.size == otherSize + SizeAt(fs.files, fsPath)
      ensures fsPath in fs.files <==> Stays(old(errTransfer), IsAtomicUpload(), isCryptFs, config, o)
      ensures SizeAt(fs.files, fsPath) == ClosedSize(old(Now()), IsAtomicUpload(), isCryptFs, config, o)
      ensures ok <==> Succeeds(old(errTransfer), IsAtomicUpload(), o)
      ensures fs.files - {fsPath, effectiveFsPath} == old(fs.files) - {fsPath, effectiveFsPath}
    {
      var numFiles := if isNewFile then 1 else 0;
      ok := FinishFile(config, o);
      var uploadFileSize: int;
      var statSize, deletedFiles, exists_ := GetUploadFileSize(o.cryptRemoveFails);
      if exists_ {
        uploadFileSize := statSize;
      } else {
        uploadFileSize := bytesReceived + minWriteOffset;
        uploadFileSize, numFiles := 0, numFiles - 1;
      }
      numFiles := numFiles - deletedFiles;
      numFiles, uploadFileSize := ExecuteUploadHook(numFiles, uploadFileSize, o.hookFails, o.hookRemoveFails);
      var _ := UpdateQuota(numFiles, uploadFileSize);
      ok := ok && errTransfer.None?;
    }
  }

  // ---------------------------------------------------------------- opening uploads

  /** What the client asks for and what the storage answers when a file is opened. */
  datatype Request = Request(resolvedPath: string, filePath: string, isTruncate: bool, append: bool, renameFails: bool,
                             createFails: bool)
  {
    predicate IsAtomic() { filePath != resolvedPath }
  }

  /** The file is moved to the temporary path of an atomic upload before it is opened. */
  predicate IsRenamed(r: Request, files: map<string, nat>)
  {
    r.resolvedPath in files && r.filePath != r.resolvedPath && !r.renameFails
  }

  predicate IsOpened(r: Request, files: map<string, nat>)
  {
    !r.createFails && (r.resolvedPath in files && r.filePath != r.resolvedPath ==> !r.renameFails)
  }

  /** The progress of a transfer that was just opened. */
  function Opened(r: Request, files: map<string, nat>, maxWriteSize: int): Progress
  {
    if r.resolvedPath in files && !r.isTruncate then
      var fileSize := files[r.resolvedPath];
      Progress(fileSize, if r.append then fileSize else 0, fileSize, maxWriteSize, 0, None)
    else
      Progress(0, 0, 0, maxWriteSize, 0, None)
  }

  /** A limit that applies is in force from the start. */
  lemma OpenedIsBounded(r: Request, files: map<string, nat>, maxWriteSize: int, quota: TransferQuota)
    requires maxWriteSize > 0
    ensures IsBounded(Opened(r, files, maxWriteSize), quota)
  {
  }

  /** Opens an upload to a new file: the account counts nothing for it yet. */
  method HandleUploadToNewFile(fs: LocalFs, account: Account, r: Request, maxWriteSize: int, isCryptFs: bool,
                               transferQuota: TransferQuota)
    returns (t: BaseTransfer?)
    requires r.resolvedPath !in fs.files && r.filePath !in fs.files
    modifies fs
    ensures t != null <==> IsOpened(r, old(fs.files))
    ensures t == null ==> fs.files == old(fs.files)
    ensures t != null ==> fresh(t) && t.Valid() && IsTransferOf(t, fs, account, r, isCryptFs, transferQuota)
    ensures t != null ==> t.otherFiles == account.files && t.otherSize == account.size
    ensures t != null ==> t.Now() == Opened(r, old(fs.files), maxWriteSize)
    ensures fs.files - {r.resolvedPath, r.filePath} == old(fs.files) - {r.resolvedPath, r.filePath}
  {
    var ok := fs.Create(r.filePath, true, r.createFails);
    if !ok {
      return null;
    }
    t := new BaseTransfer(fs, account, r.resolvedPath, r.filePath, 0, 0, maxWriteSize, true, isCryptFs, transferQuota);
  }

  ghost predicate IsTransferOf(t: BaseTransfer, fs: LocalFs, account: Account, r: Request, isCryptFs: bool,
                               quota: TransferQuota)
  {
    && t.fs == fs && t.account == account && t.fsPath == r.resolvedPath && t.effectiveFsPath == r.filePath
    && t.isCryptFs == isCryptFs && t.transferQuota == quota
  }

  /**
   * Opens an upload to an existing file, truncating it or resuming it; an atomic upload works on a
   * temporary path. A truncated file is given back to the account at once. If opening fails after the file was
   * moved, it stays at the temporary path.
   */
  method HandleUploadToExistingFile(fs: LocalFs, account: Account, r: Request, maxWriteSize: int, isCryptFs: bool,
                                    transferQuota: TransferQuota)
    returns (t: BaseTransfer?)
    requires r.resolvedPath in fs.files && (r.filePath != r.resolvedPath ==> r.filePath !in fs.files)
    modifies fs, account
    ensures t != null <==> IsOpened(r, old(fs.files))
    ensures account.files == old(account.files)
    ensures t == null ==> account.size == old(account.size) && fs.files == Abandoned(r, old(fs.files))
    ensures t != null ==> fresh(t) && t.Valid() && IsTransferOf(t, fs, account, r, isCryptFs, transferQuota)
    ensures t != null ==> t.otherFiles == old(account.files) - 1
    ensures t != null ==> t.otherSize == old(account.size) - old(fs.files)[r.resolvedPath]
    ensures t != null ==> t.Now() == Opened(r, old(fs.files), maxWriteSize)
    ensures fs.files - {r.resolvedPath, r.filePath} == old(fs.files) - {r.resolvedPath, r.filePath}
  {
    t := null;
    var fileSize: int := fs.files[r.resolvedPath];
    if r.filePath != r.resolvedPath {
      var renamed := fs.Rename(r.resolvedPath, r.filePath, r.renameFails);
      if !renamed {
        return;
      }
    }
    var ok := fs.Create(r.filePath, r.isTruncate, r.createFails);
    if !ok {
      return;
    }
    var minWriteOffset, initialSize: int := 0, 0;
    if !r.isTruncate {
      if r.append {
        minWriteOffset := fileSize;
      }
      initialSize := fileSize;
    } else {
      account.Update(0, -fileSize);
    }
    t := new BaseTransfer(fs, account, r.resolvedPath, r.filePath, minWriteOffset, initialSize, maxWriteSize, false,
                          isCryptFs, transferQuota);
  }

  /** The files after an upload that could not be opened. */
  function Abandoned(r: Request, files: map<string, nat>): map<string, nat>
  {
    if IsRenamed(r, files) then (files - {r.resolvedPath})[r.filePath := files[r.resolvedPath]] else files
  }

  /** An upload that could not be opened leaves account and path in agreement if and only if the file was not moved. */
  lemma AbandonedAgreesIffNotRenamed(r: Request, files: map<string, nat>)
    requires r.filePath !in files || r.filePath == r.resolvedPath
    ensures (CountAt(Abandoned(r, files), r.resolvedPath) == CountAt(files, r.resolvedPath) &&
             SizeAt(Abandoned(r, files), r.resolvedPath) == SizeAt(files, r.resolvedPath)) <==> !IsRenamed(r, files)
  {
  }

  /** An atomic upload of an existing file that cannot be opened: the path has no file, the account still counts it. */
  method AbandonedFileIsCounted() returns (fs: LocalFs, account: Account)
    ensures "a" !in fs.files && fs.files == map["a.tmp" := 10] && account.files == 1 && account.size == 10
  {
    fs := new LocalFs();
    var _ := fs.Create("a", true, false);
    var _, _ := fs.WriteAt("a", 0, 10, None);
    account := new Account(1, 10);
    var r := Request("a", "a.tmp", true, false, false, true);
    var t := HandleUploadToExistingFile(fs, account, r, 0, false, TransferQuota(0, 0));
  }

  // ---------------------------------------------------------------- whole uploads

  /** The progress of an upload when it is closed. */
  function Uploaded(r: Request, files: map<string, nat>, maxWriteSize: int, quota: TransferQuota, steps: seq<Step>)
    : Progress
  {
    After(Opened(r, files, maxWriteSize), quota, r.resolvedPath, steps)
  }

  /**
   * A whole upload to a new or to an existing file: any writes and truncates, then Close. Once started, the account
   * changes by exactly what the file at the path counts for afterwards, minus what it counted for before, in every
   * outcome; the file is there exactly if it stays, and as long as the steps make it.
   */
  method Upload(fs: LocalFs, account: Account, r: Request, maxWriteSize: int, isCryptFs: bool,
                transferQuota: TransferQuota, steps: seq<Step>, config: Config, o: Outcomes)
    returns (started: bool, ok: bool)
    requires r.filePath !in fs.files || r.filePath == r.resolvedPath
    modifies fs, account
    ensures started <==> IsOpened(r, old(fs.files))
    ensures started ==>
              && account.files ==
                 old(account.files) + CountAt(fs.files, r.resolvedPath) - CountAt(old(fs.files), r.resolvedPath)
              && account.size ==
                 old(account.size) + SizeAt(fs.files, r.resolvedPath) - SizeAt(old(fs.files), r.resolvedPath)
    ensures started ==>
              var end := Uploaded(r, old(fs.files), maxWriteSize, transferQuota, steps);
              && (r.resolvedPath in fs.files <==> Stays(end.error, r.IsAtomic(), isCryptFs, config, o))
              && SizeAt(fs.files, r.resolvedPath) == ClosedSize(end, r.IsAtomic(), isCryptFs, config, o)
              && (ok <==> Succeeds(end.error, r.IsAtomic(), o))
    ensures started && ok && (forall step <- steps :: step.Write?) ==>
              IsAllowed(transferQuota, maxWriteSize,
                        Uploaded(r, old(fs.files), maxWriteSize, transferQuota, steps).bytesReceived)
    ensures started && AreWrites(Opened(r, old(fs.files), maxWriteSize), steps) && o == NO_FAILURE ==>
              (ok <==> IsAllowed(transferQuota, maxWriteSize, Sent(steps))) && (ok <==> r.resolvedPath in fs.files)
    ensures !started ==> !ok && account.files == old(account.files) && account.size == old(account.size)
    ensures !started ==> fs.files == Abandoned(r, old(fs.files))
    ensures !started ==>
              (CountAt(fs.files, r.resolvedPath) == CountAt(old(fs.files), r.resolvedPath) &&
               SizeAt(fs.files, r.resolvedPath) == SizeAt(old(fs.files), r.resolvedPath) <==>
               !IsRenamed(r, old(fs.files)))
    ensures fs.files - {r.resolvedPath, r.filePath} == old(fs.files) - {r.resolvedPath, r.filePath}
  {
    hide Wrote, Resized, Stays, Succeeds, ClosedSize, Keeps, IsBounded, IsWithinLimits;
    started, ok := false, false;
    ghost var start := Opened(r, fs.files, maxWriteSize);
    SentIsAllowed(start, transferQuota, r, isCryptFs, steps, config, o);
    hide Opened, AreWrites, IsAllowed, Sent;
    var t: BaseTransfer?;
    if r.resolvedPath in fs.files {
      t := HandleUploadToExistingFile(fs, account, r, maxWriteSize, isCryptFs, transferQuota);
    } else {
      t := HandleUploadToNewFile(fs, account, r, maxWriteSize, isCryptFs, transferQuota);
    }
    if t == null {
      return;
    }
    started := true;
    ghost var initial := fs.files;
    Serve(t, steps);
    hide After;
    OthersStay(initial, fs.files, r.filePath, {r.resolvedPath, r.filePath});
    ok := t.Close(config, o);
  }

  lemma OthersStay(was: map<string, nat>, now: map<string, nat>, p: string, paths: set<string>)
    requires now - {p} == was - {p} && p in paths
    ensures now - paths == was - paths
  {
    assert forall q :: q in now && q !in paths ==> q in now - {p};
    assert forall q :: q in was && q !in paths ==> q in was - {p};
  }

  /** The requests of the client, one after the other. */
  method Serve(t: BaseTransfer, steps: seq<Step>)
    requires t.Valid()
    modifies t, t.fs, t.account
    ensures t.Valid() && t.Now() == After(old(t.Now()), t.transferQuota, t.fsPath, steps)
    ensures t.fs.files - {t.effectiveFsPath} == old(t.fs.files) - {t.effectiveFsPath}
  {
    hide Wrote, Resized;
    for i := 0 to |steps|
      invariant t.Valid() && t.Now() == After(old(t.Now()), t.transferQuota, t.fsPath, steps[..i])
      invariant t.fs.files - {t.effectiveFsPath} == old(t.fs.files) - {t.effectiveFsPath}
    {
      assert steps[..i + 1][..i] == steps[..i];
      match steps[i] {
        case Write(off, len, short) => t.WriteAt(off, len, short);
        case SetSize(path, size, fails) => var _ := t.TruncateFile(path, size, fails);
      }
    }
    assert steps[..|steps|] == steps;
  }

  lemma SentIsAllowed(start: Progress, quota: TransferQuota, r: Request, isCryptFs: bool, steps: seq<Step>,
                      config: Config, o: Outcomes)
    requires start.error.None? && start.bytesReceived == 0
    ensures var end := After(start, quota, r.resolvedPath, steps);
            && (Succeeds(end.error, r.IsAtomic(), o) && (forall step <- steps :: step.Write?) ==>
                  IsAllowed(quota, start.maxWriteSize, end.bytesReceived))
            && (AreWrites(start, steps) && o == NO_FAILURE ==>
                  && (Succeeds(end.error, r.IsAtomic(), o) <==> IsAllowed(quota, start.maxWriteSize, Sent(steps)))
                  && (Succeeds(end.error, r.IsAtomic(), o) <==> Stays(end.error, r.IsAtomic(), isCryptFs, config, o)))
  {
    if forall step <- steps :: step.Write? {
      NoErrorIsAllowed(start, quota, r.resolvedPath, steps);
    }
    if AreWrites(start, steps) {
      WritesFailIff(start, quota, r.resolvedPath, steps);
    }
  }

  /** A transfer quota of ten bytes without a size limit: an upload of 1000 bytes fails, and nothing stays. */
  method TransferQuotaIsEnough() returns (fs: LocalFs, account: Account, ok: bool)
    ensures !ok && fs.files == map[] && account.files == 0 && account.size == 0
  {
    fs := new LocalFs();
    account := new Account(0, 0);
    var r := Request("a", "a", false, false, false, false);
    var steps := [Write(0, 1000, None)];
    assert steps[..0] == [] && Sent(steps) == 1000;
    var started;
    started, ok := Upload(fs, account, r, 0, false, TransferQuota(10, 0), steps, Config(false, false), NO_FAILURE);
    assert {r.resolvedPath, r.filePath} == {"a"};
    assert "a" !in fs.files && fs.files == fs.files - {"a"};
  }

  // ---------------------------------------------------------------- uploads under a quota

  datatype Result = Started(ok: bool, maxWriteSize: int) | Refused

  /** What the checks before an upload depend on: account quotas, upload limit, transfer space, pre-upload hook. */
  datatype Checks = Checks(limit: Quota.Limit, usageFails: bool, maxUploadFileSize: int, hasUploadSpace: bool,
                           isAllowed: bool)

  /**
   * The checks let the upload through: some byte is left of the size quota, one more file fits the file quota if the
   * path is new, and a resumed file is not too large yet. Without the usage only unlimited accounts pass.
   */
  predicate IsAdmitted(c: Checks, used: Accounting.Usage, r: Request, files: map<string, nat>)
  {
    && c.hasUploadSpace && c.isAllowed
    && (0 < c.limit.size ==> used.size + 1 <= c.limit.size)
    && (0 < c.limit.files && r.resolvedPath !in files ==> used.files + 1 <= c.limit.files)
    && (c.usageFails ==> c.limit.size == 0 && (r.resolvedPath !in files ==> c.limit.files == 0))
    && !(r.resolvedPath in files && !r.isTruncate && 0 < c.maxUploadFileSize <= files[r.resolvedPath])
  }

  /** With a file of the given size at the path, the account and the file are within their limits. */
  predicate IsAllowedSize(c: Checks, otherSize: int, size: int)
  {
    (c.limit.size > 0 ==> otherSize + size <= c.limit.size) && (c.maxUploadFileSize > 0 ==> size <= c.maxUploadFileSize)
  }

  /**
   * An upload from the space check to Close. Account and file end within their limits if and only if the file that
   * stays is not above the ceiling. That holds if every step keeps the limit and no more than the allowance was
   * received, and in order if and only if the file does not stay or no more than the limit was received.
   */
  method UploadWithinQuota(fs: LocalFs, account: Account, c: Checks, r: Request, isCryptFs: bool,
                           transferQuota: TransferQuota, steps: seq<Step>, config: Config, o: Outcomes)
    returns (result: Result)
    requires r.filePath !in fs.files || r.filePath == r.resolvedPath
    requires account.size >= SizeAt(fs.files, r.resolvedPath)
    modifies fs, account
    ensures result.Started? <==>
              IsAdmitted(c, Accounting.Usage(old(account.files), old(account.size)), r, old(fs.files)) &&
              IsOpened(r, old(fs.files))
    ensures result.Refused? ==> account.files == old(account.files) && account.size == old(account.size)
    ensures result.Refused? ==>
              fs.files == if IsAdmitted(c, Accounting.Usage(old(account.files), old(account.size)), r, old(fs.files))
                          then Abandoned(r, old(fs.files)) else old(fs.files)
    ensures result.Started? ==>
              && account.files ==
                 old(account.files) + CountAt(fs.files, r.resolvedPath) - CountAt(old(fs.files), r.resolvedPath)
              && account.size ==
                 old(account.size) + SizeAt(fs.files, r.resolvedPath) - SizeAt(old(fs.files), r.resolvedPath)
    ensures result.Started? ==>
              var end := Uploaded(r, old(fs.files), result.maxWriteSize, transferQuota, steps);
              && SizeAt(fs.files, r.resolvedPath) == ClosedSize(end, r.IsAtomic(), isCryptFs, config, o)
              && (result.ok <==> Succeeds(end.error, r.IsAtomic(), o))
    ensures fs.files - {r.resolvedPath, r.filePath} == old(fs.files) - {r.resolvedPath, r.filePath}
    ensures result.Started? && 0 < c.limit.files && old(account.files) <= c.limit.files ==>
              account.files <= c.limit.files
    ensures result.Started? ==> (result.maxWriteSize == 0 <==> c.limit.size <= 0 && c.maxUploadFileSize <= 0)
    ensures result.Started? && result.maxWriteSize != 0 ==>
              var start := Opened(r, old(fs.files), result.maxWriteSize);
              var end := After(start, transferQuota, r.resolvedPath, steps);
              var allowed := IsAllowedSize(c, old(account.size) - SizeAt(old(fs.files), r.resolvedPath),
                                           SizeAt(fs.files, r.resolvedPath));
              && IsBounded(start, transferQuota)
              && (allowed <==> SizeAt(fs.files, r.resolvedPath) <= Ceiling(start))
              && (AllKeep(start, transferQuota, r.resolvedPath, steps) ==>
                    (result.ok || end.bytesReceived <= Allowance(end, transferQuota) ==> allowed) &&
                    (AllInOrder(start, transferQuota, r.resolvedPath, steps) ==>
                       (allowed <==> !(Stays(end.error, r.IsAtomic(), isCryptFs, config, o) &&
                                       end.bytesReceived > end.maxWriteSize))))
  {
    hide Next, After, Stays, ClosedSize, Keeps, AllKeep, AllInOrder, Allowance, Reach, Abandoned, IsRenamed;
    var exists_ := r.resolvedPath in fs.files;
    var fileSize := SizeAt(fs.files, r.resolvedPath);
    var usage := Accounting.Usage(account.files, account.size);
    var diskQuota := Quota.CheckQuota(c.limit, usage, !exists_, false, c.usageFails);
    if !diskQuota.hasSpace || !c.hasUploadSpace {
      return Refused;
    }
    var isResume := exists_ && !r.isTruncate;
    var limit := Quota.GetMaxWriteSize(c.maxUploadFileSize, diskQuota, isResume, fileSize, true);
    if !limit.Allowed? || !c.isAllowed {
      return Refused;
    }
    ghost var start := Opened(r, fs.files, limit.max);
    ghost var otherSize := account.size - fileSize;
    forall size | size >= start.initialSize && limit.max > 0
      ensures size <= Ceiling(start) <==> IsAllowedSize(c, otherSize, size)
    {
      var w: nat := size - start.initialSize;
      assert w <= limit.max <==> Quota.WriteFits(diskQuota, c.maxUploadFileSize, isResume, fileSize, w);
    }
    var started, ok := Upload(fs, account, r, limit.max, isCryptFs, transferQuota, steps, config, o);
    if !started {
      return Refused;
    }
    if limit.max > 0 {
      OpenedIsBounded(r, old(fs.files), limit.max, transferQuota);
      SmallerIsAllowed(c, otherSize, start.initialSize, SizeAt(fs.files, r.resolvedPath));
      KeptIsWithin(start, transferQuota, r, steps, isCryptFs, config, o);
    }
    return Started(ok, limit.max);
  }

  /** At a file quota of ten with ten files a new upload is refused, and overwriting one of them is not. */
  method FileQuotaIsKept() returns (refused: Result, started: Result)
    ensures refused.Refused? && started.Started?
  {
    var fs, account := FullOfFiles();
    var c := Checks(Quota.Limit(0, 10), false, 0, true, true);
    refused := UploadWithinQuota(fs, account, c, Request("b", "b", true, false, false, false), false, UNLIMITED, [],
                                 Config(false, false), NO_FAILURE);
    fs, account := FullOfFiles();
    started := UploadWithinQuota(fs, account, c, Request("a", "a", true, false, false, false), false, UNLIMITED, [],
                                 Config(false, false), NO_FAILURE);
  }

  method FullOfFiles() returns (fs: LocalFs, account: Account)
    ensures fresh(fs) && fresh(account) && fs.files == map["a" := 5] && account.files == 10 && account.size == 50
  {
    fs := new LocalFs();
    var _ := fs.Create("a", true, false);
    var _, _ := fs.WriteAt("a", 0, 5, None);
    account := new Account(10, 50);
  }

  lemma SmallerIsAllowed(c: Checks, otherSize: int, size: int, smaller: int)
    ensures IsAllowedSize(c, otherSize, size) && smaller <= size ==> IsAllowedSize(c, otherSize, smaller)
  {
  }

  /** When the size at the path is within the ceiling, for an upload whose steps keep the limit. */
  lemma KeptIsWithin(start: Progress, quota: TransferQuota, r: Request, steps: seq<Step>, isCryptFs: bool,
                     config: Config, o: Outcomes)
    requires IsBounded(start, quota) && start.length == start.initialSize + start.bytesReceived
    ensures AllKeep(start, quota, r.resolvedPath, steps) ==>
              var end := After(start, quota, r.resolvedPath, steps);
              var within := ClosedSize(end, r.IsAtomic(), isCryptFs, config, o) <= Ceiling(start);
              && (end.error.None? || end.bytesReceived <= Allowance(end, quota) ==> within)
              && (AllInOrder(start, quota, r.resolvedPath, steps) ==>
                    (within <==> !(Stays(end.error, r.IsAtomic(), isCryptFs, config, o) &&
                                   end.bytesReceived > end.maxWriteSize)))
  {
    if AllKeep(start, quota, r.resolvedPath, steps) {
      KeepingStaysBelow(start, quota, r.resolvedPath, steps);
      if AllInOrder(start, quota, r.resolvedPath, steps) {
        AboveIffReceived(start, quota, r.resolvedPath, steps);
      }
    }
  }

  /**
   * An earlier error of another kind hides the quota error. A client resumes a file of 10 bytes under a quota of 100,
   * writes before the end, which is an error, and then 1000 bytes: they stay, and are counted.
   */
  method EarlierErrorExceeds() returns (fs: LocalFs, account: Account)
    ensures fs.files == map["a" := 1010] && account.files == 1 && account.size == 1010
  {
    fs := new LocalFs();
    var _ := fs.Create("a", true, false);
    var _, _ := fs.WriteAt("a", 0, 10, None);
    account := new Account(1, 10);
    var c := Checks(Quota.Limit(100, 0), false, 0, true, true);
    var r := Request("a", "a", false, true, false, false);
    var steps := [Write(0, 1, None), Write(10, 1000, None)];
    var result := UploadWithinQuota(fs, account, c, r, false, UNLIMITED, steps, Config(false, false), NO_FAILURE);
    EarlierErrorIsKept(result.maxWriteSize);
    assert {r.resolvedPath, r.filePath} == {"a"};
    assert map["a" := 10] - {"a"} == map[];
    assert fs.files - {"a"} == map[] && fs.files["a"] == 1010;
  }

  lemma EarlierErrorIsKept(maxWriteSize: int)
    requires maxWriteSize >= 0
    ensures var steps := [Write(0, 1, None), Write(10, 1000, None)];
            && After(Progress(10, 10, 10, maxWriteSize, 0, None), UNLIMITED, "a", steps) ==
               Progress(1010, 10, 10, maxWriteSize, 1000, Some(Other))
            && (maxWriteSize > 0 ==> AllKeep(Progress(10, 10, 10, maxWriteSize, 0, None), UNLIMITED, "a", steps))
  {
    var u := Progress(10, 10, 10, maxWriteSize, 0, None);
    TwoSteps(u, UNLIMITED, "a", Write(0, 1, None), Write(10, 1000, None));
    hide After, AllKeep;
  }
}
