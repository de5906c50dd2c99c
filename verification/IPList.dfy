/**
 * IP lists: longest-prefix match over networks, answered from an in-memory index or by a range query
 * on the database. Addresses are big-endian bit strings, so comparing bytes is comparing bits.
 */
module IPList {
  import opened Options

  type Bits = seq<bool>

  datatype Family = V4 | V6
  {
    function Width(): nat { if V4? then 32 else 128 }
  }

  datatype Address = Address(family: Family, bits: Bits)
  {
    predicate Valid() { |bits| == family.Width() }
  }

  /** A network as written: an address, not necessarily masked, and a prefix length. It is the database key. */
  datatype Cidr = Cidr(family: Family, bits: Bits, ones: nat)
  {
    predicate Valid() { |bits| == family.Width() && ones <= |bits| }

    function Masked(): Network
      requires Valid()
    {
      Network(family, bits[..ones])
    }
  }

  /** A masked network: all the addresses of a family that start with the prefix. */
  datatype Network = Network(family: Family, prefix: Bits)
  {
    predicate Contains(ip: Address) { family == ip.family && prefix <= ip.bits }
  }

  datatype Protocol = SSH | FTP | WebDAV | HTTP

  const VALID_PROTOCOLS := [SSH, FTP, WebDAV, HTTP]

  datatype ListType = AllowList | Defender | RateLimiterSafeList

  const MODE_ALLOW := 1
  const MODE_DENY := 2
  const MEMORY_LIMIT := 15000

  datatype Entry = Entry(mode: int, protocols: int, first: Bits, last: Bits)

  /** The prefix length of a network goes from none to all the bits of its family. */
  lemma ValidLengths(family: Family, bits: Bits, ones: nat)
    ensures Cidr(family, bits, ones).Valid() <==> ones <= |bits| == if family == V4 then 32 else 128
    ensures Cidr(family, bits, ones).Valid() ==> Address(family, bits).Valid()
  {
  }

  // ---------------------------------------------------------------- protocols

  predicate HasFlag(protocols: int, flag: int)
    requires flag > 0
  {
    (protocols / flag) % 2 == 1
  }

  predicate HasProtocol(protocols: int, p: Protocol)
  {
    match p
    case SSH => HasFlag(protocols, 1)
    case FTP => HasFlag(protocols, 2)
    case WebDAV => HasFlag(protocols, 4)
    case HTTP => HasFlag(protocols, 8)
  }

  /** 0 stands for all the protocols. */
  predicate Applies(protocols: int, p: Protocol)
  {
    protocols == 0 || HasProtocol(protocols, p)
  }

  /** The flags: 1 is SSH, 2 is FTP, 4 is WebDAV and 8 is HTTP; none of them stands for all. */
  lemma ProtocolFlags(ssh: bool, ftp: bool, webDAV: bool, http: bool)
    ensures var protocols := Flag(ssh, 1) + Flag(ftp, 2) + Flag(webDAV, 4) + Flag(http, 8);
            var all := !ssh && !ftp && !webDAV && !http;
            && (Applies(protocols, SSH) <==> ssh || all) && (Applies(protocols, FTP) <==> ftp || all)
            && (Applies(protocols, WebDAV) <==> webDAV || all) && (Applies(protocols, HTTP) <==> http || all)
  {
  }

  function Flag(isSet: bool, value: int): int
  {
    if isSet then value else 0
  }

  /** Listing every protocol is stored as 0: entries keep applying to the same protocols. */
  method CheckProtocols(protocols: int) returns (r: int)
    ensures forall p: Protocol :: Applies(r, p) == Applies(protocols, p)
    ensures r == 0 <==> forall p: Protocol :: Applies(protocols, p)
    ensures protocols == 15 ==> r == 0
  {
    for i := 0 to |VALID_PROTOCOLS|
      invariant forall j :: 0 <= j < i ==> HasProtocol(protocols, VALID_PROTOCOLS[j])
    {
      if !HasProtocol(protocols, VALID_PROTOCOLS[i]) {
        assert protocols != 0 ==> !Applies(protocols, VALID_PROTOCOLS[i]);
        return protocols;
      }
    }
    assert HasProtocol(protocols, VALID_PROTOCOLS[0]) && HasProtocol(protocols, VALID_PROTOCOLS[1]);
    assert HasProtocol(protocols, VALID_PROTOCOLS[2]) && HasProtocol(protocols, VALID_PROTOCOLS[3]);
    return 0;
  }

  // ---------------------------------------------------------------- ranges

  /** Big-endian order of addresses of the same width. */
  predicate AtMost(a: Bits, b: Bits)
    requires |a| == |b|
  {
    a == [] || (if a[0] == b[0] then AtMost(a[1..], b[1..]) else b[0])
  }

  function Fill(n: nat, bit: bool): (r: Bits)
    ensures |r| == n && forall i :: 0 <= i < n ==> r[i] == bit
  {
    seq(n, _ => bit)
  }

  function FirstOf(c: Cidr): (r: Bits)
    requires c.Valid()
    ensures |r| == |c.bits|
  {
    c.bits[..c.ones] + Fill(|c.bits| - c.ones, false)
  }

  function LastOf(c: Cidr): (r: Bits)
    requires c.Valid()
    ensures |r| == |c.bits|
  {
    c.bits[..c.ones] + Fill(|c.bits| - c.ones, true)
  }

  /** Sets every bit after the prefix. */
  method GetLastIPForPrefix(c: Cidr) returns (r: Bits)
    requires c.Valid()
    ensures r == LastOf(c) && |r| == if c.family == V4 then 32 else 128
  {
    r := c.bits;
    for b := c.ones to |c.bits|
      invariant |r| == |c.bits|
      invariant forall i :: 0 <= i < c.ones ==> r[i] == c.bits[i]
      invariant forall i :: c.ones <= i < b ==> r[i]
    {
      r := r[b := true];
    }
  }

  lemma {:induction false} LeastAndGreatest(a: Bits)
    ensures AtMost(Fill(|a|, false), a) && AtMost(a, Fill(|a|, true))
  {
    if a != [] {
      LeastAndGreatest(a[1..]);
      assert Fill(|a|, false)[1..] == Fill(|a| - 1, false);
      assert Fill(|a|, true)[1..] == Fill(|a| - 1, true);
    }
  }

  /** An address lies between the first and the last address of a network exactly when it has its prefix. */
  lemma {:induction false} RangeIsPrefix(prefix: Bits, ip: Bits, rest: nat)
    requires |ip| == |prefix| + rest
    ensures AtMost(prefix + Fill(rest, false), ip) && AtMost(ip, prefix + Fill(rest, true)) <==> prefix <= ip
  {
    var low, high := prefix + Fill(rest, false), prefix + Fill(rest, true);
    if prefix == [] {
      assert low == Fill(|ip|, false) && high == Fill(|ip|, true);
      LeastAndGreatest(ip);
    } else {
      RangeIsPrefix(prefix[1..], ip[1..], rest);
      assert low[1..] == prefix[1..] + Fill(rest, false);
      assert high[1..] == prefix[1..] + Fill(rest, true);
      assert prefix == [prefix[0]] + prefix[1..] && ip == [ip[0]] + ip[1..];
      assert prefix <= ip <==> prefix[0] == ip[0] && prefix[1..] <= ip[1..];
    }
  }

  lemma InRangeIsContained(c: Cidr, ip: Address)
    requires c.Valid() && ip.Valid() && c.family == ip.family
    ensures AtMost(FirstOf(c), ip.bits) && AtMost(ip.bits, LastOf(c)) <==> c.Masked().Contains(ip)
  {
    RangeIsPrefix(c.bits[..c.ones], ip.bits, |c.bits| - c.ones);
  }

  /** Two networks with the same prefix length that contain the same address are the same. */
  lemma SamePrefixLength(n: Network, m: Network, ip: Address)
    requires n.Contains(ip) && m.Contains(ip) && |n.prefix| == |m.prefix|
    ensures n == m
  {
    assert n.prefix == ip.bits[..|n.prefix|] == m.prefix;
  }

  // ---------------------------------------------------------------- the database

  type Table = map<Cidr, Entry>

  ghost predicate ValidTable(table: Table)
  {
    forall c :: c in table ==> c.Valid() && table[c].first == FirstOf(c) && table[c].last == LastOf(c)
  }

  /** No two entries stand for the same network. */
  ghost predicate DistinctNetworks(table: Table)
    requires ValidTable(table)
  {
    forall c, d :: c in table && d in table && c.Masked() == d.Masked() ==> c == d
  }

  /** Entries that stand for the same network are equal. */
  ghost predicate EqualWhereShared(table: Table)
    requires ValidTable(table)
  {
    forall c, d :: c in table && d in table && c.Masked() == d.Masked() ==> table[c] == table[d]
  }

  ghost predicate Matches(table: Table, c: Cidr, ip: Address, p: Protocol)
    requires ValidTable(table)
  {
    c in table && c.Masked().Contains(ip) && Applies(table[c].protocols, p)
  }

  /** The answer is the mode of a matching entry with the longest prefix, if any entry matches. */
  ghost predicate IsLongestMatch(table: Table, ip: Address, p: Protocol, matched: bool, mode: int)
    requires ValidTable(table)
  {
    if matched then
      exists c :: Matches(table, c, ip, p) && table[c].mode == mode &&
                  forall d :: Matches(table, d, ip, p) ==> d.ones <= c.ones
    else
      mode == 0 && forall c :: !Matches(table, c, ip, p)
  }

  /** There is only one longest match, in whatever order entries are visited, if no network has different entries. */
  lemma LongestMatchIsUnique(table: Table, ip: Address, p: Protocol, matched: bool, mode: int, matched': bool,
                             mode': int)
    requires ValidTable(table) && EqualWhereShared(table)
    requires IsLongestMatch(table, ip, p, matched, mode) && IsLongestMatch(table, ip, p, matched', mode')
    ensures matched == matched' && mode == mode'
  {
    if matched && matched' {
      var c :| Matches(table, c, ip, p) && table[c].mode == mode
                && forall d :: Matches(table, d, ip, p) ==> d.ones <= c.ones;
      var c' :| Matches(table, c', ip, p) && table[c'].mode == mode'
                && forall d :: Matches(table, d, ip, p) ==> d.ones <= c'.ones;
      SamePrefixLength(c.Masked(), c'.Masked(), ip);
    }
  }

  // ---------------------------------------------------------------- the in-memory index

  /** The index keeps one entry for each masked network. */
  type Index = map<Network, Entry>

  ghost predicate IndexMatches(index: Index, n: Network, ip: Address, p: Protocol)
  {
    n in index && n.Contains(ip) && Applies(index[n].protocols, p)
  }

  /** The answer of the index: the mode of its longest matching network, if any matches. */
  ghost predicate IsIndexAnswer(index: Index, ip: Address, p: Protocol, matched: bool, mode: int)
  {
    if matched then
      exists n :: IndexMatches(index, n, ip, p) && index[n].mode == mode &&
                  forall m :: IndexMatches(index, m, ip, p) ==> |m.prefix| <= |n.prefix|
    else
      mode == 0 && forall n :: !IndexMatches(index, n, ip, p)
  }

  lemma IndexAnswerIsUnique(index: Index, ip: Address, p: Protocol, matched: bool, mode: int, matched': bool,
                            mode': int)
    requires IsIndexAnswer(index, ip, p, matched, mode) && IsIndexAnswer(index, ip, p, matched', mode')
    ensures matched == matched' && mode == mode'
  {
    if matched && matched' {
      var n :| IndexMatches(index, n, ip, p) && index[n].mode == mode &&
               forall m :: IndexMatches(index, m, ip, p) ==> |m.prefix| <= |n.prefix|;
      var n' :| IndexMatches(index, n', ip, p) && index[n'].mode == mode' &&
                forall m :: IndexMatches(index, m, ip, p) ==> |m.prefix| <= |n'.prefix|;
      SamePrefixLength(n, n', ip);
    }
  }

  /** The index has exactly the networks of the database, each with the entry of one of its keys. */
  ghost predicate Picks(table: Table, index: Index)
    requires ValidTable(table)
  {
    && (forall c :: c in table ==> c.Masked() in index)
    && (forall n :: n in index ==> exists c :: c in table && c.Masked() == n && index[n] == table[c])
  }

  /** The index has exactly the networks of the database, and every key agrees with the entry of its network. */
  ghost predicate InSync(table: Table, index: Index)
    requires ValidTable(table)
  {
    && (forall c :: c in table ==> c.Masked() in index && index[c.Masked()] == table[c])
    && (forall n :: n in index ==> exists c :: c in table && c.Masked() == n)
  }

  /** An index loaded from the database, in any order, is in step if and only if no network has different entries. */
  lemma LoadedInSyncIff(table: Table, index: Index)
    requires ValidTable(table) && Picks(table, index)
    ensures InSync(table, index) <==> EqualWhereShared(table)
  {
  }

  /** Index and database give the same answers for every address and protocol. */
  ghost predicate SameAnswers(table: Table, index: Index)
    requires ValidTable(table)
  {
    forall ip: Address, p, matched, mode ::
      ip.Valid() ==> (IsLongestMatch(table, ip, p, matched, mode) <==> IsIndexAnswer(index, ip, p, matched, mode))
  }

  lemma MatchesAlike(table: Table, index: Index, ip: Address, p: Protocol)
    requires ValidTable(table) && InSync(table, index)
    ensures forall c :: Matches(table, c, ip, p) ==>
              IndexMatches(index, c.Masked(), ip, p) && index[c.Masked()].mode == table[c].mode
    ensures forall n :: IndexMatches(index, n, ip, p) ==>
              exists c :: Matches(table, c, ip, p) && c.Masked() == n && table[c].mode == index[n].mode
  {
    forall n | IndexMatches(index, n, ip, p)
      ensures exists c :: Matches(table, c, ip, p) && c.Masked() == n && table[c].mode == index[n].mode
    {
      var c :| c in table && c.Masked() == n;
      assert Matches(table, c, ip, p);
    }
  }

  lemma InSyncAnswers(table: Table, index: Index)
    requires ValidTable(table) && InSync(table, index)
    ensures SameAnswers(table, index)
  {
    forall ip: Address, p, matched, mode | ip.Valid()
      ensures IsLongestMatch(table, ip, p, matched, mode) <==> IsIndexAnswer(index, ip, p, matched, mode)
    {
      MatchesAlike(table, index, ip, p);
      hide InSync, Matches, IndexMatches, ValidTable;
      if IsLongestMatch(table, ip, p, matched, mode) {
        AnswerInIndex(table, index, ip, p, matched, mode);
      }
      if IsIndexAnswer(index, ip, p, matched, mode) {
        AnswerInTable(table, index, ip, p, matched, mode);
      }
    }
  }

  lemma AnswerInIndex(table: Table, index: Index, ip: Address, p: Protocol, matched: bool, mode: int)
    requires ValidTable(table) && IsLongestMatch(table, ip, p, matched, mode)
    requires forall c :: Matches(table, c, ip, p) ==>
               IndexMatches(index, c.Masked(), ip, p) && index[c.Masked()].mode == table[c].mode
    requires forall n :: IndexMatches(index, n, ip, p) ==>
               exists c :: Matches(table, c, ip, p) && c.Masked() == n && table[c].mode == index[n].mode
    ensures IsIndexAnswer(index, ip, p, matched, mode)
  {
    if matched {
      var c :| Matches(table, c, ip, p) && table[c].mode == mode
                && forall d :: Matches(table, d, ip, p) ==> d.ones <= c.ones;
      forall m | IndexMatches(index, m, ip, p)
        ensures |m.prefix| <= |c.Masked().prefix|
      {
        var d :| Matches(table, d, ip, p) && d.Masked() == m;
      }
    }
  }

  lemma AnswerInTable(table: Table, index: Index, ip: Address, p: Protocol, matched: bool, mode: int)
    requires ValidTable(table) && IsIndexAnswer(index, ip, p, matched, mode)
    requires forall c :: Matches(table, c, ip, p) ==>
               IndexMatches(index, c.Masked(), ip, p) && index[c.Masked()].mode == table[c].mode
    requires forall n :: IndexMatches(index, n, ip, p) ==>
               exists c :: Matches(table, c, ip, p) && c.Masked() == n && table[c].mode == index[n].mode
    ensures IsLongestMatch(table, ip, p, matched, mode)
  {
    if matched {
      var n :| IndexMatches(index, n, ip, p) && index[n].mode == mode &&
               forall m :: IndexMatches(index, m, ip, p) ==> |m.prefix| <= |n.prefix|;
      var c :| Matches(table, c, ip, p) && c.Masked() == n && table[c].mode == index[n].mode;
      forall d | Matches(table, d, ip, p)
        ensures d.ones <= c.ones
      {
        assert IndexMatches(index, d.Masked(), ip, p);
      }
    }
  }

  // ---------------------------------------------------------------- what one change does

  /** No entry but the one under the same key stands for the network of c. */
  ghost predicate IsFree(table: Table, c: Cidr)
    requires ValidTable(table) && c.Valid()
  {
    forall d :: d in table && d.Masked() == c.Masked() ==> d == c
  }

  /** The other entries for the network of c, if any, are equal to e. */
  ghost predicate SharesEntry(table: Table, c: Cidr, e: Entry)
    requires ValidTable(table) && c.Valid()
  {
    forall d :: d in table && d.Masked() == c.Masked() && d != c ==> table[d] == e
  }

  predicate IsEntryOf(c: Cidr, e: Entry)
  {
    c.Valid() && e.first == FirstOf(c) && e.last == LastOf(c)
  }

  /** Storing an entry in both places keeps them in step if and only if the other entries for its network are equal. */
  lemma InsertLaw(table: Table, index: Index, c: Cidr, e: Entry)
    requires ValidTable(table) && InSync(table, index) && IsEntryOf(c, e)
    ensures ValidTable(table[c := e])
    ensures InSync(table[c := e], index[c.Masked() := e]) <==> SharesEntry(table, c, e)
  {
    hide FirstOf, LastOf;
    var table', index' := table[c := e], index[c.Masked() := e];
    forall n | n in index'
      ensures exists d :: d in table' && d.Masked() == n
    {
      if n == c.Masked() {
        assert c in table';
      } else {
        var d :| d in table && d.Masked() == n;
        assert d in table';
      }
    }
    if !SharesEntry(table, c, e) {
      var d :| d in table && d.Masked() == c.Masked() && d != c && table[d] != e;
      assert d in table' && table'[d] != index'[d.Masked()];
    }
  }

  /** Removing an entry from both places keeps them in step if and only if no other key stands for its network. */
  lemma RemoveLaw(table: Table, index: Index, c: Cidr)
    requires ValidTable(table) && InSync(table, index) && c in table
    ensures ValidTable(table - {c})
    ensures InSync(table - {c}, index - {c.Masked()}) <==> IsFree(table, c)
  {
    hide FirstOf, LastOf;
    var table', index' := table - {c}, index - {c.Masked()};
    if IsFree(table, c) {
      forall n | n in index'
        ensures exists d :: d in table' && d.Masked() == n
      {
        var d :| d in table && d.Masked() == n;
        assert d in table';
      }
    } else {
      var d :| d in table && d.Masked() == c.Masked() && d != c;
      assert d in table' && d.Masked() !in index';
    }
  }

  // ---------------------------------------------------------------- when answers stay the same

  /** An entry for the network of c, other than the one under c, decides the answer for an address. */
  ghost predicate IsDecidedBy(table: Table, d: Cidr, c: Cidr, ip: Address, p: Protocol)
    requires ValidTable(table) && c.Valid()
  {
    && d != c && Matches(table, d, ip, p) && d.Masked() == c.Masked()
    && forall k :: Matches(table, k, ip, p) ==> k.ones <= d.ones
  }

  /** Where an entry that loses its place in the index decides the answer, the index still gives it. */
  ghost predicate DisplacedAnswersStay(table: Table, index: Index, c: Cidr)
    requires ValidTable(table) && c.Valid()
  {
    forall ip: Address, p, d ::
      ip.Valid() && IsDecidedBy(table, d, c, ip, p) ==> IsIndexAnswer(index, ip, p, true, table[d].mode)
  }

  /** After an insertion the answers are the same everywhere if and only if they stay where they are displaced. */
  lemma InsertAnswersLaw(table: Table, index: Index, c: Cidr, e: Entry)
    requires ValidTable(table) && InSync(table, index) && IsEntryOf(c, e)
    ensures ValidTable(table[c := e])
    ensures SameAnswers(table[c := e], index[c.Masked() := e]) <==>
            DisplacedAnswersStay(table, index[c.Masked() := e], c)
  {
    hide FirstOf, LastOf;
    InsertLaw(table, index, c, e);
    hide InSync, SharesEntry;
    var table', index' := table[c := e], index[c.Masked() := e];
    if SameAnswers(table', index') {
      forall ip: Address, p, d | ip.Valid() && IsDecidedBy(table, d, c, ip, p)
        ensures IsIndexAnswer(index', ip, p, true, table[d].mode)
      {
        StillDecided(table, c, e, ip, p, d);
      }
    }
    if DisplacedAnswersStay(table, index', c) {
      forall ip: Address, p, matched, mode | ip.Valid()
        ensures IsLongestMatch(table', ip, p, matched, mode) <==> IsIndexAnswer(index', ip, p, matched, mode)
      {
        if d :| IsDecidedBy(table, d, c, ip, p) {
          DecidedAnswers(table, index, c, e, ip, p, d, matched, mode);
        } else {
          UndecidedAnswers(table, index, c, e, ip, p, matched, mode);
        }
      }
    }
  }

  lemma StillDecided(table: Table, c: Cidr, e: Entry, ip: Address, p: Protocol, d: Cidr)
    requires ValidTable(table) && IsEntryOf(c, e) && IsDecidedBy(table, d, c, ip, p)
    ensures ValidTable(table[c := e]) && IsLongestMatch(table[c := e], ip, p, true, table[d].mode)
  {
    hide FirstOf, LastOf;
    var table' := table[c := e];
    assert Matches(table', d, ip, p);
    forall k | Matches(table', k, ip, p)
      ensures k.ones <= d.ones
    {
      if k != c {
        assert Matches(table, k, ip, p);
      } else {
        assert |k.Masked().prefix| == |d.Masked().prefix|;
      }
    }
  }

  /** Where a displaced entry decides, and the index still gives its answer, no other answer is possible. */
  lemma DecidedAnswers(table: Table, index: Index, c: Cidr, e: Entry, ip: Address, p: Protocol, d: Cidr,
                       matched: bool, mode: int)
    requires ValidTable(table) && InSync(table, index) && IsEntryOf(c, e) && IsDecidedBy(table, d, c, ip, p)
    requires IsIndexAnswer(index[c.Masked() := e], ip, p, true, table[d].mode)
    ensures ValidTable(table[c := e])
    ensures IsLongestMatch(table[c := e], ip, p, matched, mode) <==>
            IsIndexAnswer(index[c.Masked() := e], ip, p, matched, mode)
  {
    hide FirstOf, LastOf;
    var table', index' := table[c := e], index[c.Masked() := e];
    StillDecided(table, c, e, ip, p, d);
    if IsIndexAnswer(index', ip, p, matched, mode) {
      IndexAnswerIsUnique(index', ip, p, matched, mode, true, table[d].mode);
    }
    if IsLongestMatch(table', ip, p, matched, mode) {
      assert Matches(table', d, ip, p);
      var k :| Matches(table', k, ip, p) && table'[k].mode == mode
                && forall j :: Matches(table', j, ip, p) ==> j.ones <= k.ones;
      DecidedMode(table, index, c, e, ip, p, d, k);
    }
  }

  lemma DecidedMode(table: Table, index: Index, c: Cidr, e: Entry, ip: Address, p: Protocol, d: Cidr, k: Cidr)
    requires ValidTable(table) && InSync(table, index) && IsEntryOf(c, e) && IsDecidedBy(table, d, c, ip, p)
    requires ValidTable(table[c := e]) && Matches(table[c := e], k, ip, p) && k.ones >= d.ones
    requires IsIndexAnswer(index[c.Masked() := e], ip, p, true, table[d].mode)
    ensures table[c := e][k].mode == table[d].mode
  {
    hide FirstOf, LastOf;
    var index' := index[c.Masked() := e];
    if k != c {
      assert Matches(table, k, ip, p);
      SamePrefixLength(k.Masked(), d.Masked(), ip);
    } else {
      var n :| IndexMatches(index', n, ip, p) && index'[n].mode == table[d].mode &&
               forall m :: IndexMatches(index', m, ip, p) ==> |m.prefix| <= |n.prefix|;
      assert IndexMatches(index', c.Masked(), ip, p);
      NoLongerNetwork(table, index, c, e, ip, p, d, n);
      SamePrefixLength(n, c.Masked(), ip);
    }
  }

  lemma NoLongerNetwork(table: Table, index: Index, c: Cidr, e: Entry, ip: Address, p: Protocol, d: Cidr, n: Network)
    requires ValidTable(table) && InSync(table, index) && c.Valid() && IsDecidedBy(table, d, c, ip, p)
    requires IndexMatches(index[c.Masked() := e], n, ip, p)
    ensures |n.prefix| <= |c.Masked().prefix|
  {
    assert |d.Masked().prefix| == d.ones;
    if n != c.Masked() {
      var j :| j in table && j.Masked() == n;
      assert Matches(table, j, ip, p);
    }
  }

  /** Where no displaced entry decides, index and database still agree. */
  lemma UndecidedAnswers(table: Table, index: Index, c: Cidr, e: Entry, ip: Address, p: Protocol, matched: bool,
                         mode: int)
    requires ValidTable(table) && InSync(table, index) && IsEntryOf(c, e)
    requires forall d :: !IsDecidedBy(table, d, c, ip, p)
    ensures ValidTable(table[c := e])
    ensures IsLongestMatch(table[c := e], ip, p, matched, mode) <==>
            IsIndexAnswer(index[c.Masked() := e], ip, p, matched, mode)
  {
    hide FirstOf, LastOf;
    var table', index' := table[c := e], index[c.Masked() := e];
    if IsLongestMatch(table', ip, p, matched, mode) {
      UndecidedInIndex(table, index, c, e, ip, p, matched, mode);
    }
    if IsIndexAnswer(index', ip, p, matched, mode) {
      UndecidedInTable(table, index, c, e, ip, p, matched, mode);
    }
  }

  /** Every match of the index after the insertion is a match of the database with the same mode. */
  lemma IndexMatchStored(table: Table, index: Index, c: Cidr, e: Entry, ip: Address, p: Protocol, n: Network)
                         returns (k: Cidr)
    requires ValidTable(table) && InSync(table, index) && IsEntryOf(c, e) && ValidTable(table[c := e])
    requires IndexMatches(index[c.Masked() := e], n, ip, p)
    ensures Matches(table[c := e], k, ip, p) && k.Masked() == n
    ensures table[c := e][k].mode == index[c.Masked() := e][n].mode
  {
    hide FirstOf, LastOf;
    if n == c.Masked() {
      k := c;
    } else {
      k :| k in table && k.Masked() == n;
    }
  }

  /** Every match of the database after the insertion is a match of the index, or it is displaced. */
  lemma StoredMatchIndexed(table: Table, index: Index, c: Cidr, e: Entry, ip: Address, p: Protocol, k: Cidr)
    requires ValidTable(table) && InSync(table, index) && IsEntryOf(c, e) && ValidTable(table[c := e])
    requires Matches(table[c := e], k, ip, p) && (k == c || k.Masked() != c.Masked())
    ensures IndexMatches(index[c.Masked() := e], k.Masked(), ip, p)
    ensures table[c := e][k].mode == index[c.Masked() := e][k.Masked()].mode
  {
    hide FirstOf, LastOf;
  }

  /** A displaced match that does not decide is shorter than some match of another network. */
  lemma Overruled(table: Table, c: Cidr, e: Entry, ip: Address, p: Protocol, d: Cidr) returns (k: Cidr)
    requires ValidTable(table) && IsEntryOf(c, e) && ValidTable(table[c := e])
    requires Matches(table[c := e], d, ip, p) && d != c && d.Masked() == c.Masked()
    requires !IsDecidedBy(table, d, c, ip, p)
    ensures Matches(table[c := e], k, ip, p) && k.Masked() != c.Masked() && k.ones > d.ones
  {
    hide FirstOf, LastOf;
    assert Matches(table, d, ip, p);
    k :| Matches(table, k, ip, p) && k.ones > d.ones;
    assert |k.Masked().prefix| > |d.Masked().prefix|;
  }

  lemma UndecidedInIndex(table: Table, index: Index, c: Cidr, e: Entry, ip: Address, p: Protocol, matched: bool,
                         mode: int)
    requires ValidTable(table) && InSync(table, index) && IsEntryOf(c, e) && ValidTable(table[c := e])
    requires forall d :: !IsDecidedBy(table, d, c, ip, p)
    requires IsLongestMatch(table[c := e], ip, p, matched, mode)
    ensures IsIndexAnswer(index[c.Masked() := e], ip, p, matched, mode)
  {
    hide InSync, IsDecidedBy, ValidTable, FirstOf, LastOf, Applies;
    var table', index' := table[c := e], index[c.Masked() := e];
    if matched {
      var k :| Matches(table', k, ip, p) && table'[k].mode == mode
                && forall j :: Matches(table', j, ip, p) ==> j.ones <= k.ones;
      MatchIsValid(table', k, ip, p);
      if k != c && k.Masked() == c.Masked() {
        var _ := Overruled(table, c, e, ip, p, k);
      }
      StoredMatchIndexed(table, index, c, e, ip, p, k);
      forall m | IndexMatches(index', m, ip, p)
        ensures |m.prefix| <= |k.Masked().prefix|
      {
        var j := IndexMatchStored(table, index, c, e, ip, p, m);
        MatchIsValid(table', j, ip, p);
      }
    } else {
      forall m
        ensures !IndexMatches(index', m, ip, p)
      {
        if IndexMatches(index', m, ip, p) {
          var j := IndexMatchStored(table, index, c, e, ip, p, m);
        }
      }
    }
  }

  lemma MatchIsValid(table: Table, k: Cidr, ip: Address, p: Protocol)
    requires ValidTable(table) && Matches(table, k, ip, p)
    ensures k.Valid() && |k.Masked().prefix| == k.ones && k in table
  {
  }

  lemma UndecidedInTable(table: Table, index: Index, c: Cidr, e: Entry, ip: Address, p: Protocol, matched: bool,
                         mode: int)
    requires ValidTable(table) && InSync(table, index) && IsEntryOf(c, e) && ValidTable(table[c := e])
    requires forall d :: !IsDecidedBy(table, d, c, ip, p)
    requires IsIndexAnswer(index[c.Masked() := e], ip, p, matched, mode)
    ensures IsLongestMatch(table[c := e], ip, p, matched, mode)
  {
    hide InSync, IsDecidedBy, ValidTable, FirstOf, LastOf, Applies;
    var table', index' := table[c := e], index[c.Masked() := e];
    forall k | Matches(table', k, ip, p)
      ensures exists m :: IndexMatches(index', m, ip, p) && k.ones <= |m.prefix|
    {
      MatchIsValid(table', k, ip, p);
      var j := k;
      if k != c && k.Masked() == c.Masked() {
        j := Overruled(table, c, e, ip, p, k);
        MatchIsValid(table', j, ip, p);
      }
      StoredMatchIndexed(table, index, c, e, ip, p, j);
    }
    if matched {
      var n :| IndexMatches(index', n, ip, p) && index'[n].mode == mode &&
               forall m :: IndexMatches(index', m, ip, p) ==> |m.prefix| <= |n.prefix|;
      var k := IndexMatchStored(table, index, c, e, ip, p, n);
      MatchIsValid(table', k, ip, p);
    }
  }

  // ---------------------------------------------------------------- agreement over later changes

  /** A later change: storing an entry under a key that exists or has its network for itself, or removing a key. */
  datatype Change = Store(c: Cidr, e: Entry) | Delete(c: Cidr)

  ghost predicate IsPossible(table: Table, change: Change)
    requires ValidTable(table)
  {
    match change
    case Store(c, e) => IsEntryOf(c, e) && (c in table || IsFree(table, c))
    case Delete(c) => c in table
  }

  function Changed(table: Table, change: Change): Table
  {
    match change
    case Store(c, e) => table[c := e]
    case Delete(c) => table - {c}
  }

  function Reindexed(index: Index, change: Change): Index
    requires change.c.Valid()
  {
    match change
    case Store(c, e) => index[c.Masked() := e]
    case Delete(c) => index - {c.Masked()}
  }

  ghost predicate IsRun(table: Table, changes: seq<Change>)
    requires ValidTable(table)
    decreases |changes|
  {
    changes == [] ||
    (IsPossible(table, changes[0]) && ValidTable(Changed(table, changes[0])) &&
     IsRun(Changed(table, changes[0]), changes[1..]))
  }

  /** The answers are the same after the last change of a run. */
  ghost predicate EndsTheSame(table: Table, index: Index, changes: seq<Change>)
    requires ValidTable(table) && IsRun(table, changes)
    decreases |changes|
  {
    if changes == [] then SameAnswers(table, index)
    else EndsTheSame(Changed(table, changes[0]), Reindexed(index, changes[0]), changes[1..])
  }

  /** The answers are the same whatever changes follow. */
  ghost predicate SameForever(table: Table, index: Index)
    requires ValidTable(table)
  {
    forall changes :: IsRun(table, changes) ==> EndsTheSame(table, index, changes)
  }

  lemma {:induction false} DistinctEndsTheSame(table: Table, index: Index, changes: seq<Change>)
    requires ValidTable(table) && DistinctNetworks(table) && InSync(table, index) && IsRun(table, changes)
    ensures EndsTheSame(table, index, changes)
    decreases |changes|
  {
    hide InSync, DistinctNetworks, FirstOf, LastOf, SameAnswers, IsFree;
    if changes == [] {
      InSyncAnswers(table, index);
    } else {
      ChangeKeepsSync(table, index, changes[0]);
      DistinctEndsTheSame(Changed(table, changes[0]), Reindexed(index, changes[0]), changes[1..]);
    }
  }

  lemma ChangeKeepsSync(table: Table, index: Index, change: Change)
    requires ValidTable(table) && DistinctNetworks(table) && InSync(table, index) && IsPossible(table, change)
    ensures ValidTable(Changed(table, change)) && DistinctNetworks(Changed(table, change))
    ensures InSync(Changed(table, change), Reindexed(index, change))
  {
    hide FirstOf, LastOf;
    assert IsFree(table, change.c);
    match change {
      case Store(c, e) => InsertLaw(table, index, c, e);
      case Delete(c) => RemoveLaw(table, index, c);
    }
  }

  /** Removing everything but two keys of one network leaves at most that network in the index. */
  lemma {:induction false} RemoveOthers(table: Table, index: Index, c: Cidr, d: Cidr, others: set<Cidr>,
                                        last: seq<Change>)
    returns (changes: seq<Change>)
    requires ValidTable(table) && c in table && d in table && c != d && c.Masked() == d.Masked()
    requires table.Keys == {c, d} + others && others !! {c, d}
    requires forall n :: n in index ==> exists k :: k in table && k.Masked() == n
    requires IsRun(map[c := table[c], d := table[d]], last)
    requires forall index': Index :: index'.Keys <= {c.Masked()} ==>
               !EndsTheSame(map[c := table[c], d := table[d]], index', last)
    ensures IsRun(table, changes) && !EndsTheSame(table, index, changes)
    decreases others
  {
    hide FirstOf, LastOf, SameAnswers;
    if others == {} {
      assert table == map[c := table[c], d := table[d]];
      changes := last;
    } else {
      var k :| k in others;
      var table', index' := Changed(table, Delete(k)), Reindexed(index, Delete(k));
      forall n | n in index'
        ensures exists j :: j in table' && j.Masked() == n
      {
        var j :| j in table && j.Masked() == n;
        assert j in table';
      }
      var rest := RemoveOthers(table', index', c, d, others - {k}, last);
      changes := [Delete(k)] + rest;
      assert changes[1..] == rest;
    }
  }

  /** With two keys for one network left: store one again, remove the other, and the index has lost the first. */
  lemma LastTwoDisagree(c: Cidr, d: Cidr, e: Entry, f: Entry, index: Index) returns (changes: seq<Change>)
    requires IsEntryOf(c, e) && IsEntryOf(d, f) && c != d && c.Masked() == d.Masked()
    requires index.Keys <= {c.Masked()}
    ensures var table := map[c := e, d := f];
            changes == [Store(d, f.(protocols := 0)), Delete(c)] &&
            ValidTable(table) && IsRun(table, changes) && !EndsTheSame(table, index, changes)
  {
    hide FirstOf, LastOf;
    var table := map[c := e, d := f];
    var stored := Store(d, f.(protocols := 0));
    changes := [stored, Delete(c)];
    var table1, index1 := Changed(table, stored), Reindexed(index, stored);
    var table2, index2 := Changed(table1, Delete(c)), Reindexed(index1, Delete(c));
    assert changes[1..] == [Delete(c)];
    assert index2 == map[];
    assert table2 == map[d := f.(protocols := 0)];
    NoAnswer(table2, d);
    OneChange(table1, index1, Delete(c));
  }

  lemma OneChange(table: Table, index: Index, change: Change)
    requires ValidTable(table) && IsPossible(table, change) && ValidTable(Changed(table, change))
    ensures IsRun(table, [change])
    ensures EndsTheSame(table, index, [change]) <==> SameAnswers(Changed(table, change), Reindexed(index, change))
  {
    hide FirstOf, LastOf, SameAnswers, ValidTable, IsPossible, Changed;
    assert [change][1..] == [];
    assert IsRun(Changed(table, change), []);
  }

  lemma NoAnswer(table: Table, d: Cidr)
    requires ValidTable(table) && table.Keys == {d} && table[d].protocols == 0
    ensures !SameAnswers(table, map[])
  {
    var ip := Address(d.family, d.bits);
    assert Matches(table, d, ip, SSH);
    assert IsLongestMatch(table, ip, SSH, true, table[d].mode);
    assert !IsIndexAnswer(map[], ip, SSH, true, table[d].mode);
  }

  /**
   * Over all later changes: starting from distinct networks, storing a new entry in both places leaves them giving
   * the same answers after every later run if and only if no other key stands for its network.
   */
  lemma SameForeverIffFree(table: Table, index: Index, c: Cidr, e: Entry)
    requires ValidTable(table) && DistinctNetworks(table) && InSync(table, index) && IsEntryOf(c, e)
    ensures ValidTable(table[c := e])
    ensures SameForever(table[c := e], index[c.Masked() := e]) <==> IsFree(table, c)
  {
    hide FirstOf, LastOf, SameAnswers;
    InsertLaw(table, index, c, e);
    var table', index' := table[c := e], index[c.Masked() := e];
    if IsFree(table, c) {
      assert DistinctNetworks(table');
      forall changes | IsRun(table', changes)
        ensures EndsTheSame(table', index', changes)
      {
        DistinctEndsTheSame(table', index', changes);
      }
    } else {
      var changes := SharedEndsDifferent(table, index, c, e);
    }
  }

  lemma SharedEndsDifferent(table: Table, index: Index, c: Cidr, e: Entry) returns (changes: seq<Change>)
    requires ValidTable(table) && InSync(table, index) && IsEntryOf(c, e) && !IsFree(table, c)
    ensures ValidTable(table[c := e]) && IsRun(table[c := e], changes)
    ensures !EndsTheSame(table[c := e], index[c.Masked() := e], changes)
  {
    hide FirstOf, LastOf, SameAnswers, EndsTheSame, IsRun;
    var table', index' := table[c := e], index[c.Masked() := e];
    var d :| d in table && d.Masked() == c.Masked() && d != c;
    assert c in table' && d in table';
    forall n | n in index'
      ensures exists k :: k in table' && k.Masked() == n
    {
      if n in index {
        var k :| k in table && k.Masked() == n;
        assert k in table';
      }
    }
    var last := [Store(d, table[d].(protocols := 0)), Delete(c)];
    forall index'': Index | index''.Keys <= {c.Masked()}
      ensures IsRun(map[c := e, d := table[d]], last) && !EndsTheSame(map[c := e, d := table[d]], index'', last)
    {
      var changes := LastTwoDisagree(c, d, e, table[d], index'');
    }
    assert IsRun(map[c := e, d := table[d]], last) by {
      var changes := LastTwoDisagree(c, d, e, table[d], map[]);
    }
    changes := RemoveOthers(table', index', c, d, table'.Keys - {c, d}, last);
  }

  /** Two keys for one network: the index keeps only the entry stored last, and answers differently. */
  lemma SharedNetworkCanDisagree() returns (table: Table, index: Index, c: Cidr, d: Cidr, ip: Address)
    ensures ValidTable(table) && table.Keys == {c, d} && c != d && c.Masked() == d.Masked() && ip.Valid()
    ensures index == map[c.Masked() := table[c]][d.Masked() := table[d]]
    ensures IsLongestMatch(table, ip, SSH, true, MODE_ALLOW) && IsIndexAnswer(index, ip, SSH, true, MODE_DENY)
    ensures !SameAnswers(table, index)
  {
    var a, b := Fill(32, false), Fill(32, true);
    c, d := Cidr(V4, a, 0), Cidr(V4, b, 0);
    assert a[0] != b[0];
    table := map[c := Entry(MODE_ALLOW, 0, FirstOf(c), LastOf(c)), d := Entry(MODE_DENY, 0, FirstOf(d), LastOf(d))];
    ip := Address(V4, a);
    assert c.Masked() == d.Masked() == Network(V4, []);
    assert Matches(table, c, ip, SSH);
    index := map[c.Masked() := table[c]][d.Masked() := table[d]];
    assert IndexMatches(index, d.Masked(), ip, SSH);
    if IsIndexAnswer(index, ip, SSH, true, MODE_ALLOW) {
      IndexAnswerIsUnique(index, ip, SSH, true, MODE_ALLOW, true, MODE_DENY);
    }
  }

  /** Two equal entries for one network agree, until one of them is removed. */
  lemma EqualEntriesAgreeUntilRemoval() returns (table: Table, index: Index, c: Cidr, d: Cidr)
    ensures ValidTable(table) && table.Keys == {c, d} && c != d && c.Masked() == d.Masked()
    ensures InSync(table, index) && SameAnswers(table, index)
    ensures ValidTable(table - {c}) && !SameAnswers(table - {c}, index - {c.Masked()})
  {
    var a, b := Fill(32, false), Fill(32, true);
    c, d := Cidr(V4, a, 0), Cidr(V4, b, 0);
    assert a[0] != b[0];
    assert c.Masked() == d.Masked() == Network(V4, []);
    SameRange(c, d);
    var e := Entry(MODE_ALLOW, 0, FirstOf(c), LastOf(c));
    table, index := map[c := e, d := e], map[c.Masked() := e];
    hide FirstOf, LastOf;
    InSyncAnswers(table, index);
    assert index - {c.Masked()} == map[];
    NoAnswer(table - {c}, d);
  }

  lemma SameRange(c: Cidr, d: Cidr)
    requires c.Valid() && d.Valid() && c.Masked() == d.Masked()
    ensures FirstOf(c) == FirstOf(d) && LastOf(c) == LastOf(d)
  {
    assert c.bits[..c.ones] == d.bits[..d.ones] && c.ones == |c.Masked().prefix| == |d.Masked().prefix| == d.ones;
  }

  // ---------------------------------------------------------------- provider and list

  /** The entries of one list type in the database. */
  class Provider {
    var table: Table

    constructor ()
      ensures table == map[]
    {
      table := map[];
    }

    /** Every entry whose range includes the address, once, in any order. */
    method GetListEntriesForIP(ip: Address) returns (found: seq<Cidr>)
      requires ValidTable(table) && ip.Valid()
      ensures forall c :: c in found <==> c in table && c.Masked().Contains(ip)
    {
      found := [];
      var rest := table.Keys;
      while rest != {}
        invariant rest <= table.Keys
        invariant forall c :: c in found <==> c in table && c !in rest && c.Masked().Contains(ip)
        decreases rest
      {
        var c :| c in rest;
        var entry := table[c];
        if c.family == ip.family {
          InRangeIsContained(c, ip);
          if AtMost(entry.first, ip.bits) && AtMost(ip.bits, entry.last) {
            found := found + [c];
          }
        }
        rest := rest - {c};
      }
    }
  }

  /** The entry of c, and nothing else, is stored with the mode and for the protocols given. */
  ghost predicate IsStored(before: Table, after: Table, c: Cidr, mode: int, protocols: int)
  {
    && c in after && after == before[c := after[c]] && after[c].mode == mode
    && forall p: Protocol :: Applies(after[c].protocols, p) == Applies(protocols, p)
  }

  /** Only the defender list may deny. */
  predicate IsValidMode(listType: ListType, mode: int)
  {
    if listType == Defender then 1 <= mode <= 2 else mode == 1
  }

  class List {
    const listType: ListType
    const provider: Provider
    var isInMemory: bool
    var ranges: Index

    /** A list in memory is in step with the database. */
    ghost predicate IsSynced()
      reads this, provider
    {
      ValidTable(provider.table) && (isInMemory ==> InSync(provider.table, ranges))
    }

    /** Loads the whole list in memory if it is small enough. */
    constructor (listType: ListType, provider: Provider)
      requires ValidTable(provider.table)
      ensures this.provider == provider && this.listType == listType
      ensures isInMemory <==> |provider.table| < 15_000
      ensures isInMemory ==> Picks(provider.table, ranges)
      ensures IsSynced() <==> !isInMemory || EqualWhereShared(provider.table)
    {
      this.listType, this.provider := listType, provider;
      isInMemory, ranges := false, map[];
      new;
      hide InSync, Picks, FirstOf, LastOf;
      if |provider.table| < MEMORY_LIMIT {
        ranges := LoadIndex(provider.table);
        isInMemory := true;
        LoadedInSyncIff(provider.table, ranges);
      }
    }

    /** Loads the entries in any order; of the entries for one network the last one stays. */
    static method LoadIndex(table: Table) returns (index: Index)
      requires ValidTable(table)
      ensures Picks(table, index)
    {
      index := map[];
      var rest := table.Keys;
      while rest != {}
        invariant rest <= table.Keys
        invariant forall c :: c in table && c !in rest ==> c.Masked() in index
        invariant forall n :: n in index ==> exists c :: c in table && c.Masked() == n && index[n] == table[c]
        decreases rest
      {
        hide FirstOf, LastOf;
        var c :| c in rest;
        index := index[c.Masked() := table[c]];
        rest := rest - {c};
      }
    }

    method DisableMemoryMode()
      modifies `isInMemory
      ensures !isInMemory
    {
      isInMemory := false;
    }

    /** Validates and completes an entry before it is stored. */
    method Validate(parsed: Option<Cidr>, mode: int, protocols: int) returns (r: Option<Entry>)
      requires parsed.Some? ==> parsed.value.Valid()
      ensures r.Some? <==> parsed.Some? && IsValidMode(listType, mode)
      ensures r.Some? ==>
              r.value.mode == mode && forall p: Protocol :: Applies(r.value.protocols, p) == Applies(protocols, p)
      ensures r.Some? ==> r.value.first == FirstOf(parsed.value) && r.value.last == LastOf(parsed.value)
    {
      var normalised := CheckProtocols(protocols);
      if listType == Defender {
        if mode < MODE_ALLOW || mode > MODE_DENY {
          return None;
        }
      } else if mode != MODE_ALLOW {
        return None;
      }
      if parsed.None? {
        return None;
      }
      var last := GetLastIPForPrefix(parsed.value);
      return Some(Entry(mode, normalised, FirstOf(parsed.value), last));
    }

    /** Follows an insertion in the database; a list that grows too large leaves the memory mode. */
    method InsertInIndex(c: Cidr, e: Entry)
      requires c.Valid()
      modifies `ranges, `isInMemory
      ensures ranges == if old(isInMemory) then old(ranges)[c.Masked() := e] else old(ranges)
      ensures isInMemory <==> old(isInMemory) && |ranges| < 15_000
    {
      if !isInMemory {
        return;
      }
      ranges := ranges[c.Masked() := e];
      if |ranges| >= MEMORY_LIMIT {
        isInMemory := false;
      }
    }

    /** Follows an update in the database: the network is removed and inserted again. */
    method UpdateInIndex(c: Cidr, e: Entry)
      requires c.Valid()
      modifies `ranges, `isInMemory
      ensures ranges == if old(isInMemory) then old(ranges)[c.Masked() := e] else old(ranges)
      ensures isInMemory <==> old(isInMemory) && |ranges| < 15_000
    {
      if !isInMemory {
        return;
      }
      assert (ranges - {c.Masked()})[c.Masked() := e] == ranges[c.Masked() := e];
      ranges := ranges - {c.Masked()};
      ranges := ranges[c.Masked() := e];
      if |ranges| >= MEMORY_LIMIT {
        isInMemory := false;
      }
    }

    /**
     * Adds an entry to the database, and then to the index. A list in step stays in step if and only if the other
     * entries for the network of an added one are equal to it, which is not checked.
     */
    method AddEntry(c: Cidr, mode: int, protocols: int) returns (ok: bool)
      requires ValidTable(provider.table) && c.Valid()
      modifies this, provider
      ensures ValidTable(provider.table)
      ensures ok <==> c !in old(provider.table) && IsValidMode(listType, mode)
      ensures !ok ==> provider.table == old(provider.table) && isInMemory == old(isInMemory) && ranges == old(ranges)
      ensures ok ==> IsStored(old(provider.table), provider.table, c, mode, protocols)
      ensures ok ==> ranges == if old(isInMemory) then old(ranges)[c.Masked() := provider.table[c]] else old(ranges)
      ensures ok ==> (isInMemory <==> old(isInMemory) && |ranges| < 15_000)
      ensures ok && old(IsSynced()) ==>
                (IsSynced() <==> !isInMemory || SharesEntry(old(provider.table), c, provider.table[c]))
    {
      var entry := Validate(Some(c), mode, protocols);
      if entry.None? || c in provider.table {
        return false;
      }
      StoredIsValid(provider.table, ranges, c, entry.value, isInMemory);
      hide InSync, FirstOf, LastOf, Applies, SharesEntry;
      provider.table := provider.table[c := entry.value];
      InsertInIndex(c, entry.value);
      ok := true;
    }

    /** Updates an entry in the database, and replaces it in the index; the same condition applies. */
    method UpdateEntry(c: Cidr, mode: int, protocols: int) returns (ok: bool)
      requires ValidTable(provider.table) && c.Valid()
      modifies this, provider
      ensures ValidTable(provider.table)
      ensures ok <==> c in old(provider.table) && IsValidMode(listType, mode)
      ensures !ok ==> provider.table == old(provider.table) && isInMemory == old(isInMemory) && ranges == old(ranges)
      ensures ok ==> IsStored(old(provider.table), provider.table, c, mode, protocols)
      ensures ok ==> ranges == if old(isInMemory) then old(ranges)[c.Masked() := provider.table[c]] else old(ranges)
      ensures ok ==> (isInMemory <==> old(isInMemory) && |ranges| < 15_000)
      ensures ok && old(IsSynced()) ==>
                (IsSynced() <==> !isInMemory || SharesEntry(old(provider.table), c, provider.table[c]))
    {
      var entry := Validate(Some(c), mode, protocols);
      if entry.None? || c !in provider.table {
        return false;
      }
      StoredIsValid(provider.table, ranges, c, entry.value, isInMemory);
      hide InSync, FirstOf, LastOf, Applies, SharesEntry;
      provider.table := provider.table[c := entry.value];
      UpdateInIndex(c, entry.value);
      ok := true;
    }

    lemma StoredIsValid(table: Table, index: Index, c: Cidr, e: Entry, isInMemory: bool)
      requires ValidTable(table) && IsEntryOf(c, e)
      ensures ValidTable(table[c := e])
      ensures InSync(table, index) ==> (InSync(table[c := e], index[c.Masked() := e]) <==> SharesEntry(table, c, e))
    {
      if InSync(table, index) {
        InsertLaw(table, index, c, e);
      }
    }

    /**
     * Deletes an entry from the database and from the index. A list in step stays in step if and only if no other
     * key stands for the network of the deleted entry.
     */
    method RemoveEntry(c: Cidr) returns (ok: bool)
      requires ValidTable(provider.table)
      modifies this, provider
      ensures ValidTable(provider.table) && provider.table == old(provider.table) - {c}
      ensures ok <==> c in old(provider.table)
      ensures isInMemory == old(isInMemory)
      ensures ranges == if ok && isInMemory then old(ranges) - {c.Masked()} else old(ranges)
      ensures ok && old(IsSynced()) ==> (IsSynced() <==> !isInMemory || IsFree(old(provider.table), c))
    {
      if c !in provider.table {
        return false;
      }
      if isInMemory {
        if InSync(provider.table, ranges) {
          RemoveLaw(provider.table, ranges, c);
        }
        ranges := ranges - {c.Masked()};
      }
      hide InSync, IsFree;
      provider.table := provider.table - {c};
      ok := true;
    }

    /**
     * The answer for an address and a protocol: in memory the answer of the index, otherwise the longest match in
     * the database, and the same for both if they are in step. Only for text that is not an address the empty index
     * answers where the database reports an error.
     */
    method IsListed(ip: Option<Address>, p: Protocol) returns (error: bool, matched: bool, mode: int)
      requires ValidTable(provider.table) && (ip.Some? ==> ip.value.Valid())
      ensures ip.Some? ==> !error
      ensures ip.Some? && isInMemory ==> IsIndexAnswer(ranges, ip.value, p, matched, mode)
      ensures ip.Some? && IsSynced() ==> IsLongestMatch(provider.table, ip.value, p, matched, mode)
      ensures ip.None? ==> !matched && mode == 0 && (error <==> !(isInMemory && ranges == map[]))
    {
      hide IsLongestMatch, InSync, SameAnswers;
      if isInMemory {
        if IsSynced() {
          AnswersInStep();
        }
        if |ranges| == 0 {
          return false, false, 0;
        }
        if ip.None? {
          return true, false, 0;
        }
        matched, mode := BestInIndex(ip.value, p);
        return false, matched, mode;
      }
      if ip.None? {
        return true, false, 0;
      }
      matched, mode := BestInDatabase(ip.value, p);
      error := false;
    }

    lemma AnswersInStep()
      requires isInMemory && IsSynced()
      ensures forall ip: Address, p, matched, mode :: ip.Valid() && IsIndexAnswer(ranges, ip, p, matched, mode) ==>
                IsLongestMatch(provider.table, ip, p, matched, mode)
    {
      InSyncAnswers(provider.table, ranges);
      hide InSync, IsLongestMatch, IsIndexAnswer;
    }

    /** The networks of the index that contain the address, in any order. */
    method ContainingNetworks(ip: Address) returns (found: seq<Network>)
      ensures forall n :: n in found <==> n in ranges && n.Contains(ip)
    {
      found := [];
      var rest := ranges.Keys;
      while rest != {}
        invariant rest <= ranges.Keys
        invariant forall n :: n in found <==> n in ranges && n !in rest && n.Contains(ip)
        decreases rest
      {
        var n :| n in rest;
        if n.Contains(ip) {
          found := found + [n];
        }
        rest := rest - {n};
      }
    }

    /** The loop over the networks of the index that contain the address. */
    method BestInIndex(ip: Address, p: Protocol) returns (matched: bool, mode: int)
      ensures IsIndexAnswer(ranges, ip, p, matched, mode)
    {
      hide HasProtocol;
      matched, mode := false, 0;
      var bestPrefix: int := -1;
      var networks := ContainingNetworks(ip);
      for i := 0 to |networks|
        invariant !matched ==> mode == 0 && bestPrefix == -1
        invariant matched ==>
                    exists n :: IndexMatches(ranges, n, ip, p) && ranges[n].mode == mode && |n.prefix| == bestPrefix
        invariant forall j :: 0 <= j < i && IndexMatches(ranges, networks[j], ip, p) ==>
                    matched && |networks[j].prefix| <= bestPrefix
      {
        var n := networks[i];
        if ranges[n].protocols != 0 && !HasProtocol(ranges[n].protocols, p) {
          continue;
        }
        if |n.prefix| > bestPrefix {
          assert IndexMatches(ranges, n, ip, p);
          bestPrefix, mode, matched := |n.prefix|, ranges[n].mode, true;
        }
      }
      forall n | IndexMatches(ranges, n, ip, p)
        ensures matched && |n.prefix| <= bestPrefix
      {
        var j :| 0 <= j < |networks| && networks[j] == n;
      }
    }

    /** The loop over the entries the range query returned. */
    method BestInDatabase(ip: Address, p: Protocol) returns (matched: bool, mode: int)
      requires ValidTable(provider.table) && ip.Valid()
      ensures IsLongestMatch(provider.table, ip, p, matched, mode)
    {
      matched, mode := false, 0;
      var bestPrefix: int := -1;
      var entries := provider.GetListEntriesForIP(ip);
      for i := 0 to |entries|
        invariant !matched ==> mode == 0 && bestPrefix == -1
        invariant matched ==>
                    exists c: Cidr :: c.ones == bestPrefix && Matches(provider.table, c, ip, p) &&
                                provider.table[c].mode == mode
        invariant forall j :: 0 <= j < i && Matches(provider.table, entries[j], ip, p) ==>
                    matched && entries[j].ones <= bestPrefix
      {
        hide HasProtocol, IsLongestMatch;
        var c := entries[i];
        if provider.table[c].protocols != 0 && !HasProtocol(provider.table[c].protocols, p) {
          continue;
        }
        if c.ones > bestPrefix {
          assert Matches(provider.table, c, ip, p);
          bestPrefix, mode, matched := c.ones, provider.table[c].mode, true;
        }
      }
      forall d | Matches(provider.table, d, ip, p)
        ensures matched && d.ones <= bestPrefix
      {
        var j :| 0 <= j < |entries| && entries[j] == d;
      }
    }
  }

  // ---------------------------------------------------------------- nested networks for different protocols

  const ZERO := Address(V4, Fill(32, false))
  const LARGE := Cidr(V4, ZERO.bits, 8)
  const SMALL := Cidr(V4, ZERO.bits, 16)

  /**
   * A network that is denied for FTP, and a smaller one inside that is allowed for WebDAV: an address in both is
   * denied for FTP, for which the longer prefix does not count, allowed for WebDAV, and not listed for SSH.
   */
  method NestedNetworks() returns (ftp: (bool, bool, int), webDAV: (bool, bool, int), ssh: (bool, bool, int))
    ensures ftp == (false, true, 2) && webDAV == (false, true, 1) && ssh == (false, false, 0)
  {
    hide IsLongestMatch, InSync, SharesEntry, FirstOf, LastOf;
    var provider := new Provider();
    var list := new List(Defender, provider);
    ghost var none := provider.table;
    var ok := list.AddEntry(LARGE, 2, 2);
    ghost var one := provider.table;
    NothingShares(none, LARGE, one[LARGE]);
    ok := list.AddEntry(SMALL, 1, 4);
    ghost var two := provider.table;
    LargeIsAnother(one, two[SMALL]);
    var error, matched, mode := list.IsListed(Some(ZERO), FTP);
    NestedAnswers(two, FTP, matched, mode);
    ftp := (error, matched, mode);
    error, matched, mode := list.IsListed(Some(ZERO), WebDAV);
    NestedAnswers(two, WebDAV, matched, mode);
    webDAV := (error, matched, mode);
    error, matched, mode := list.IsListed(Some(ZERO), SSH);
    NestedAnswers(two, SSH, matched, mode);
    ssh := (error, matched, mode);
  }

  lemma NothingShares(table: Table, c: Cidr, e: Entry)
    requires table == map[] && c.Valid()
    ensures SharesEntry(table, c, e) && EqualWhereShared(table)
  {
  }

  lemma LargeIsAnother(table: Table, e: Entry)
    requires ValidTable(table) && table.Keys == {LARGE}
    ensures SharesEntry(table, SMALL, e)
  {
    assert |LARGE.Masked().prefix| == 8 && |SMALL.Masked().prefix| == 16;
  }

  lemma NestedAnswers(table: Table, p: Protocol, matched: bool, mode: int)
    requires ValidTable(table) && table.Keys == {LARGE, SMALL} && IsLongestMatch(table, ZERO, p, matched, mode)
    requires table[LARGE].mode == 2 && forall q: Protocol :: Applies(table[LARGE].protocols, q) == Applies(2, q)
    requires table[SMALL].mode == 1 && forall q: Protocol :: Applies(table[SMALL].protocols, q) == Applies(4, q)
    ensures matched <==> p == FTP || p == WebDAV
    ensures mode == match p case FTP => 2 case WebDAV => 1 case _ => 0
  {
    assert Matches(table, LARGE, ZERO, p) <==> p == FTP;
    assert Matches(table, SMALL, ZERO, p) <==> p == WebDAV;
  }
}
