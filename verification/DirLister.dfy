/** Streams the content of a directory into the buffers of a client. */
module DirLister {

  datatype Error = NoError | Eof | Failure | InvalidLimit | InvalidSize

  /** The entries the permissions of the user leave visible, in order. */
  function Filtered<Entry>(isVisible: Entry -> bool, entries: seq<Entry>): seq<Entry>
  {
    if entries == [] then []
    else if isVisible(entries[|entries| - 1]) then
      Filtered(isVisible, entries[..|entries| - 1]) + [entries[|entries| - 1]]
    else Filtered(isVisible, entries[..|entries| - 1])
  }

  lemma {:induction false} FilteredConcat<Entry>(isVisible: Entry -> bool, a: seq<Entry>, b: seq<Entry>)
    ensures Filtered(isVisible, a + b) == Filtered(isVisible, a) + Filtered(isVisible, b)
  {
    if b == [] {
      assert a + b == a;
    } else {
      var init := b[..|b| - 1];
      assert (a + b)[..|a + b| - 1] == a + init;
      FilteredConcat(isVisible, a, init);
    }
  }

  /** Exactly the visible entries are there, each as often as before; with FilteredConcat, also in the same order. */
  lemma {:induction false} FilteredCounts<Entry>(isVisible: Entry -> bool, entries: seq<Entry>, e: Entry)
    ensures multiset(Filtered(isVisible, entries))[e] == if isVisible(e) then multiset(entries)[e] else 0
  {
    if entries != [] {
      FilteredCounts(isVisible, entries[..|entries| - 1], e);
      assert entries == entries[..|entries| - 1] + [entries[|entries| - 1]];
    }
  }

  lemma {:induction false} FilteredIsShorter<Entry>(isVisible: Entry -> bool, entries: seq<Entry>)
    ensures |Filtered(isVisible, entries)| <= |entries|
  {
    if entries != [] {
      FilteredIsShorter(isVisible, entries[..|entries| - 1]);
    }
  }

  lemma NothingVisible<Entry>(isVisible: Entry -> bool)
    ensures Filtered(isVisible, []) == []
  {
  }

  lemma Joined<Entry>(info: seq<Entry>, read: seq<Entry>, rest: seq<Entry>)
    ensures (info + read) + ([] + rest) == info + (read + rest)
    ensures info == [] ==> info + read == read
  {
  }

  /**
   * The lister of a storage backend: it answers with any number of entries up to the limit, may answer
   * nothing some finite number of times, may report the end with the last entries or after them, and may fail.
   */
  class Lister<Entry> {
    var pending: seq<Entry>
    var stalls: nat
    const mayFail: bool

    constructor (pending: seq<Entry>, stalls: nat, mayFail: bool)
      ensures this.pending == pending && this.stalls == stalls && this.mayFail == mayFail
    {
      this.pending, this.stalls, this.mayFail := pending, stalls, mayFail;
    }

    method Next(limit: int) returns (files: seq<Entry>, err: Error)
      modifies this
      ensures err == InvalidLimit <==> limit <= 0
      ensures err in {NoError, Eof} ==> |files| <= limit && old(pending) == files + pending
      ensures err == Eof ==> pending == []
      ensures err == NoError ==> stalls < old(stalls) || (stalls == old(stalls) && files != [])
      ensures err == Failure ==> mayFail && |files| <= limit
      ensures err != InvalidSize && (err == InvalidLimit ==> files == [] && pending == old(pending))
    {
      if limit <= 0 {
        return [], InvalidLimit;
      }
      var n :| 0 <= n <= limit && n <= |pending|;
      files, pending := pending[..n], pending[n..];
      var fails: bool := *;
      if mayFail && fails {
        return files, Failure;
      }
      var early: bool := *;
      if pending == [] && (n == 0 || early) {
        return files, Eof;
      }
      if n == 0 {
        if stalls == 0 {
          files, pending := pending[..1], pending[1..];
        } else {
          stalls := stalls - 1;
        }
      }
      return files, NoError;
    }
  }

  class DirListerAt<Entry> {
    var info: seq<Entry>
    const lister: Lister<Entry>
    const isVisible: Entry -> bool

    constructor (lister: Lister<Entry>, isVisible: Entry -> bool)
      ensures this.lister == lister && this.isVisible == isVisible && Remaining() == Filtered(isVisible, lister.pending)
    {
      this.lister, this.isVisible, this.info := lister, isVisible, [];
    }

    /** What the client still has to see. */
    ghost function Remaining(): seq<Entry>
      reads this, lister
    {
      info + Filtered(isVisible, lister.pending)
    }

    method Prepend(fi: Entry)
      modifies this
      ensures Remaining() == [fi] + old(Remaining())
    {
      info := [fi] + info;
    }

    /** Reads until there is something visible to return, the end is reached or the backend fails. */
    method Next(limit: int) returns (files: seq<Entry>, err: Error)
      modifies this, lister
      ensures err in {NoError, Eof} ==> files + Remaining() == old(Remaining()) && info == []
      ensures err in {NoError, Eof} ==> |files| <= |old(info)| + limit
      ensures err == Eof ==> Remaining() == []
      ensures err == NoError ==> files != []
      ensures err == InvalidLimit <==> limit <= 0
      ensures err == Failure ==> lister.mayFail && info == old(info) && |files| <= limit
      ensures err == InvalidLimit ==> Remaining() == old(Remaining()) && files == []
      ensures err != InvalidSize
    {
      hide Filtered;
      ghost var visible := Filtered(isVisible, lister.pending);
      while true
        invariant info == old(info) && Filtered(isVisible, lister.pending) == visible
        decreases lister.stalls, |lister.pending|
      {
        files, err := lister.Next(limit);
        if err != NoError && err != Eof {
          return files, err;
        }
        NothingVisible(isVisible);
        FilteredConcat(isVisible, files, lister.pending);
        FilteredIsShorter(isVisible, files);
        files := FilterListDir(files);
        ghost var rest := Filtered(isVisible, lister.pending);
        ghost var read := files;
        if |info| > 0 {
          files := info + files;
          info := [];
        }
        Joined(old(info), read, rest);
        if err != NoError || |files| > 0 {
          return files, err;
        }
      }
    }

    method FilterListDir(files: seq<Entry>) returns (visible: seq<Entry>)
      ensures visible == Filtered(isVisible, files)
    {
      visible := [];
      for i := 0 to |files|
        invariant visible == Filtered(isVisible, files[..i])
      {
        assert files[..i + 1][..i] == files[..i];
        if isVisible(files[i]) {
          visible := visible + [files[i]];
        }
      }
      assert files[..|files|] == files;
    }

    /**
     * Fills a buffer: first with the entries in the cache, then from the backend. Nothing is lost, repeated or
     * reordered, and nothing that is read is left out because it does not fit.
     */
    method ListAt(f: array<Entry>) returns (n: nat, err: Error)
      modifies this, lister, f
      ensures n <= f.Length && f[n..] == old(f[n..])
      ensures err in {NoError, Eof} ==> f[..n] + Remaining() == old(Remaining())
      ensures err == Eof ==> Remaining() == []
      ensures err == NoError ==> n > 0
      ensures err == InvalidSize <==> f.Length == 0
      ensures err == InvalidSize ==> n == 0 && Remaining() == old(Remaining())
      ensures err == Failure ==> lister.mayFail && info == old(info)
      ensures err != InvalidLimit
    {
      if f.Length == 0 {
        return 0, InvalidSize;
      }
      if f.Length <= |info| {
        var files := [];
        for idx := 0 to |info|
          invariant files == info[..idx] && idx < f.Length
          invariant info == old(info) && lister.pending == old(lister.pending) && f[..] == old(f[..])
        {
          files := files + [info[idx]];
          if |files| == f.Length {
            info := info[idx + 1..];
            n := Copy(f, files);
            return n, NoError;
          }
        }
      }
      var limit := f.Length - |info|;
      var files;
      files, err := Next(limit);
      n := Copy(f, files);
      assert err in {NoError, Eof} ==> files[..n] == files;
    }

    /** As many elements as fit, from the start. */
    static method Copy(f: array<Entry>, files: seq<Entry>) returns (n: nat)
      modifies f
      ensures n == if |files| <= f.Length then |files| else f.Length
      ensures f[..n] == files[..n] && f[n..] == old(f[n..])
    {
      n := if |files| <= f.Length then |files| else f.Length;
      for i := 0 to n
        invariant f[..i] == files[..i] && forall j :: i <= j < f.Length ==> f[j] == old(f[j])
      {
        f[i] := files[i];
      }
    }

    static lemma FoundMore(all: seq<Entry>, found: seq<Entry>, rest: seq<Entry>, before: seq<Entry>)
      requires found + rest == before
      ensures all + found + rest == all + before && all + found <= all + before
      ensures rest == [] ==> all + found == all + before
    {
      assert all + found + rest == all + (found + rest);
    }

    /**
     * A client that keeps asking, with buffers of any sizes: it sees a prefix of what there was to see, and all
     * of it once the end is reported, which takes at most one call more than there are entries.
     */
    method ListAll(buffers: seq<array<Entry>>) returns (all: seq<Entry>, err: Error)
      requires forall i :: 0 <= i < |buffers| ==> buffers[i].Length > 0
      modifies this, lister, set i | 0 <= i < |buffers| :: buffers[i]
      ensures err in {NoError, Eof} ==> all + Remaining() == old(Remaining())
      ensures err == Eof ==> all == old(Remaining())
      ensures all <= old(Remaining())
      ensures err in {NoError, Eof, Failure} && (err == NoError ==> |buffers| <= |all|)
      ensures err == Failure ==> lister.mayFail
      ensures !lister.mayFail && |buffers| > |old(Remaining())| ==> err == Eof
    {
      hide Filtered, Remaining;
      all, err := [], NoError;
      for i := 0 to |buffers|
        invariant err == NoError && all + Remaining() == old(Remaining()) && i <= |all|
      {
        ghost var before := Remaining();
        var n;
        n, err := ListAt(buffers[i]);
        if err != NoError && err != Eof {
          return;
        }
        var found := buffers[i][..n];
        FoundMore(all, found, Remaining(), before);
        all := all + found;
        if err == Eof {
          return;
        }
      }
    }
  }
}
