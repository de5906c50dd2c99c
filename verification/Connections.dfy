/** The table of the active connections: a list, an index from ids to positions and a count for each user. */
module Connections {
  import opened Maps
  import opened SwapLists

  datatype Connection = Connection(id: string, username: string, maxSessions: int)

  datatype SSHConnection = SSHConnection(id: string)

  function ConnectionId(c: Connection): string
  {
    c.id
  }

  function SSHConnectionId(c: SSHConnection): string
  {
    c.id
  }

  // ---------------------------------------------------------------- the index

  /** The mapping is a bijection between the ids and the positions. */
  ghost predicate IsIndex<T(!new)>(s: seq<T>, id: T -> string, mapping: map<string, int>)
  {
    && (forall i :: 0 <= i < |s| ==> id(s[i]) in mapping && mapping[id(s[i])] == i)
    && (forall k :: k in mapping ==> 0 <= mapping[k] < |s| && id(s[mapping[k]]) == k)
  }

  /** Appending keeps the index if and only if the id is new. */
  lemma AppendKeepsIndex<T(!new)>(s: seq<T>, id: T -> string, mapping: map<string, int>, x: T)
    requires IsIndex(s, id, mapping)
    ensures IsIndex(s + [x], id, mapping[id(x) := |s|]) <==> id(x) !in mapping
  {
    var longer, mapping' := s + [x], mapping[id(x) := |s|];
    if id(x) in mapping {
      var i := mapping[id(x)];
      assert longer[i] == s[i] && mapping'[id(longer[i])] != i;
    }
  }

  function Reindexed<T(!new)>(s: seq<T>, id: T -> string, mapping: map<string, int>, k: string): map<string, int>
    requires k in mapping && 0 <= mapping[k] < |s|
  {
    var idx := mapping[k];
    if idx == |s| - 1 then Without(mapping, {k}) else Without(mapping, {k})[id(s[|s| - 1]) := idx]
  }

  /** Moving the last element in the place of the removed one keeps the index and everything else. */
  lemma SwapWithLastKeepsIndex<T(!new)>(s: seq<T>, id: T -> string, mapping: map<string, int>, k: string)
    requires IsIndex(s, id, mapping) && k in mapping
    ensures 0 <= mapping[k] < |s|
    ensures IsIndex(Shorter(s, mapping[k]), id, Reindexed(s, id, mapping, k))
    ensures Reindexed(s, id, mapping, k).Keys == mapping.Keys - {k}
    ensures forall x :: x in Shorter(s, mapping[k]) <==> x in s && id(x) != k
  {
    ShorterMembers(s, id, mapping, k);
    hide Without;
    WithoutKeys(mapping, {k});
    WithoutValues(mapping, {k});
  }

  lemma ShorterMembers<T(!new)>(s: seq<T>, id: T -> string, mapping: map<string, int>, k: string)
    requires IsIndex(s, id, mapping) && k in mapping
    ensures forall x :: x in Shorter(s, mapping[k]) <==> x in s && id(x) != k
  {
    SwapRemoved(s, id, mapping[k]);
  }

  /** Replacing an element by one with the same id. */
  lemma ReplaceKeepsIndex<T(!new)>(s: seq<T>, id: T -> string, mapping: map<string, int>, x: T)
    requires IsIndex(s, id, mapping) && id(x) in mapping
    ensures IsIndex(s[mapping[id(x)] := x], id, mapping)
    ensures forall y :: y in s[mapping[id(x)] := x] <==> y == x || (y in s && id(y) != id(x))
  {
    var idx := mapping[id(x)];
    var after := s[idx := x];
    forall y
      ensures y in after <==> y == x || (y in s && id(y) != id(x))
    {
      if y in s && id(y) != id(x) {
        var i :| 0 <= i < |s| && s[i] == y;
        assert after[i] == y;
      }
      assert after[idx] == x;
      if y in after && y != x {
        var i :| 0 <= i < |after| && after[i] == y;
        assert y == s[i];
      }
    }
  }

  // ---------------------------------------------------------------- the counts

  function All(conns: seq<Connection>): set<Connection>
  {
    set c <- conns
  }

  /** The connections of a user. */
  function Of(conns: set<Connection>, username: string): set<Connection>
  {
    set c <- conns | c.username == username
  }

  /** Every user has the number of its connections, and no count is zero; unauthenticated connections do not count. */
  ghost predicate IsCount(conns: set<Connection>, perUser: map<string, int>)
  {
    && (forall u :: u in perUser <==> u != "" && Of(conns, u) != {})
    && (forall u :: u in perUser ==> perUser[u] == |Of(conns, u)|)
  }

  function Incremented(perUser: map<string, int>, username: string): map<string, int>
  {
    if username == "" then perUser
    else perUser[username := (if username in perUser then perUser[username] else 0) + 1]
  }

  function Decremented(perUser: map<string, int>, username: string): map<string, int>
  {
    if username == "" || username !in perUser then perUser
    else if perUser[username] > 1 then perUser[username := perUser[username] - 1]
    else Without(perUser, {username})
  }

  lemma OfAdded(conns: set<Connection>, c: Connection, u: string)
    requires c !in conns
    ensures Of(conns + {c}, u) == if u == c.username then Of(conns, u) + {c} else Of(conns, u)
    ensures |Of(conns + {c}, u)| == |Of(conns, u)| + (if u == c.username then 1 else 0)
    ensures Of(conns + {c}, c.username) != {}
  {
    assert c in Of(conns + {c}, c.username);
    if u == c.username {
      assert Of(conns + {c}, u) == Of(conns, u) + {c};
    } else {
      assert Of(conns + {c}, u) == Of(conns, u);
    }
  }

  lemma AddedIsCounted(conns: set<Connection>, perUser: map<string, int>, c: Connection)
    requires IsCount(conns, perUser) && c !in conns
    ensures IsCount(conns + {c}, Incremented(perUser, c.username))
  {
    forall u
      ensures |Of(conns + {c}, u)| == |Of(conns, u)| + (if u == c.username then 1 else 0)
      ensures Of(conns + {c}, u) != {} <==> u == c.username || Of(conns, u) != {}
    {
      OfAdded(conns, c, u);
    }
    hide Of;
    assert c.username !in perUser && c.username != "" ==> Of(conns, c.username) == {};
  }

  lemma RemovedIsCounted(conns: set<Connection>, perUser: map<string, int>, c: Connection)
    requires IsCount(conns, perUser) && c in conns
    ensures IsCount(conns - {c}, Decremented(perUser, c.username))
    ensures Incremented(Decremented(perUser, c.username), c.username) == perUser
  {
    var rest := conns - {c};
    assert rest + {c} == conns;
    forall u
      ensures |Of(conns, u)| == |Of(rest, u)| + (if u == c.username then 1 else 0)
      ensures u != c.username ==> Of(conns, u) == Of(rest, u)
      ensures Of(conns, c.username) != {}
    {
      OfAdded(rest, c, u);
    }
    hide Of;
    assert |Of(rest, c.username)| == 0 <==> Of(rest, c.username) == {};
  }

  // ---------------------------------------------------------------- the session limit

  /**
   * The connections in the order they arrived, that is, they were accepted by Add or by Swap: each one with a
   * limit found less sessions of its user than that, and those that left since only made room.
   */
  ghost predicate IsArrival(conns: set<Connection>, arrived: seq<Connection>)
  {
    && (forall c :: c in arrived <==> c in conns)
    && (forall i, j :: 0 <= i < j < |arrived| ==> arrived[i] != arrived[j])
    && (forall i :: 0 <= i < |arrived| ==> IsAllowed(All(arrived[..i]), arrived[i]))
  }

  /** The connection is below the limit of its user. */
  predicate IsAllowed(others: set<Connection>, c: Connection)
  {
    c.username != "" && c.maxSessions > 0 ==> |Of(others, c.username)| < c.maxSessions
  }

  lemma ArrivalOfOne(conns: set<Connection>, arrived: seq<Connection>, c: Connection)
    requires IsArrival(conns, arrived) && c !in conns && IsAllowed(conns, c)
    ensures IsArrival(conns + {c}, arrived + [c])
  {
    hide IsAllowed;
    var longer := arrived + [c];
    assert arrived[..|arrived|] == arrived && All(arrived) == conns;
    hide All;
    assert forall i :: 0 <= i <= |arrived| ==> longer[..i] == arrived[..i];
  }

  lemma FewerOf(some: set<Connection>, more: set<Connection>, u: string)
    requires some <= more
    ensures |Of(some, u)| <= |Of(more, u)|
  {
    assert Of(more, u) == Of(some, u) + (Of(more, u) - Of(some, u));
  }

  lemma Departure(conns: set<Connection>, arrived: seq<Connection>, p: nat)
    requires IsArrival(conns, arrived) && p < |arrived|
    ensures IsArrival(conns - {arrived[p]}, arrived[..p] + arrived[p + 1..])
  {
    hide IsAllowed, All;
    var shorter := arrived[..p] + arrived[p + 1..];
    forall x
      ensures x in shorter <==> x in conns - {arrived[p]}
    {
      if x in conns - {arrived[p]} {
        var i :| 0 <= i < |arrived| && arrived[i] == x;
        assert shorter[if i < p then i else i - 1] == x;
      }
    }
    forall i | 0 <= i < |shorter|
      ensures IsAllowed(All(shorter[..i]), shorter[i])
    {
      FewerBefore(arrived, p, i);
    }
  }

  /** A departure leaves at most the same connections before each of the others. */
  lemma FewerBefore(arrived: seq<Connection>, p: nat, i: nat)
    requires p < |arrived| && i < |arrived| - 1
    requires var k := if i < p then i else i + 1; IsAllowed(All(arrived[..k]), arrived[k])
    ensures var shorter := arrived[..p] + arrived[p + 1..]; IsAllowed(All(shorter[..i]), shorter[i])
  {
    var k, shorter := if i < p then i else i + 1, arrived[..p] + arrived[p + 1..];
    assert All(shorter[..i]) <= All(arrived[..k]) by {
      forall x | x in shorter[..i]
        ensures x in arrived[..k]
      {
        var j :| 0 <= j < i && shorter[j] == x;
        assert arrived[..k][if j < p then j else j + 1] == x;
      }
    }
    FewerOf(All(shorter[..i]), All(arrived[..k]), shorter[i].username);
  }

  lemma LastOf(arrived: seq<Connection>, u: string) returns (i: int)
    ensures -1 <= i < |arrived|
    ensures i >= 0 ==> arrived[i].username == u && Of(All(arrived), u) == Of(All(arrived[..i]), u) + {arrived[i]}
    ensures i == -1 ==> Of(All(arrived), u) == {}
  {
    i := |arrived| - 1;
    while i >= 0 && arrived[i].username != u
      invariant -1 <= i < |arrived| && forall j :: i < j < |arrived| ==> arrived[j].username != u
    {
      i := i - 1;
    }
    if i >= 0 {
      forall x
        ensures x in Of(All(arrived), u) <==> x in Of(All(arrived[..i]), u) + {arrived[i]}
      {
        if x in Of(All(arrived), u) {
          var j :| 0 <= j < |arrived| && arrived[j] == x;
          assert j < i ==> arrived[..i][j] == x;
        }
      }
    }
  }

  /** If all the connections of a user have a limit of at most m sessions, the user has at most m of them. */
  lemma SessionLimit(conns: set<Connection>, arrived: seq<Connection>, u: string, m: nat)
    requires IsArrival(conns, arrived) && u != ""
    requires forall c <- conns :: c.username == u ==> 0 < c.maxSessions <= m
    ensures |Of(conns, u)| <= m
  {
    assert All(arrived) == conns;
    var i := LastOf(arrived, u);
    if i >= 0 {
      assert arrived[i] in conns && IsAllowed(All(arrived[..i]), arrived[i]);
    }
  }

  // ---------------------------------------------------------------- the table

  lemma IsNew(connections: seq<Connection>, mapping: map<string, int>, c: Connection)
    requires IsIndex(connections, ConnectionId, mapping) && c.id !in mapping
    ensures c !in All(connections) && All(connections + [c]) == All(connections) + {c}
  {
    NoOther(connections, ConnectionId, mapping, c.id);
  }

  lemma CountOf(conns: set<Connection>, perUser: map<string, int>, u: string)
    requires IsCount(conns, perUser) && u != ""
    ensures (if u in perUser then perUser[u] else 0) == |Of(conns, u)|
  {
  }

  lemma Swapping(connections: seq<Connection>, mapping: map<string, int>, c: Connection)
    requires IsIndex(connections, ConnectionId, mapping) && c.id in mapping
    ensures 0 <= mapping[c.id] < |connections|
    ensures var conn := connections[mapping[c.id]]; var after := connections[mapping[c.id] := c];
            && conn in All(connections) && c !in All(connections) - {conn}
            && IsIndex(after, ConnectionId, mapping) && All(after) == All(connections) - {conn} + {c}
  {
    ReplaceKeepsIndex(connections, ConnectionId, mapping, c);
    SameIdSameElement(connections, ConnectionId, mapping);
  }

  /** Moves the last element in the place of the one to remove, and updates the index. */
  method SwapWithLast<T(!new)>(s: seq<T>, id: T -> string, mapping: map<string, int>, k: string)
    returns (shorter: seq<T>, less: map<string, int>)
    requires IsIndex(s, id, mapping) && k in mapping
    ensures 0 <= mapping[k] < |s| && shorter == Shorter(s, mapping[k]) && less == Reindexed(s, id, mapping, k)
  {
    var idx, lastIdx := mapping[k], |s| - 1;
    shorter := s[idx := s[lastIdx]];
    shorter := shorter[..lastIdx];
    less := Without(mapping, {k});
    if idx != lastIdx {
      less := less[id(shorter[idx]) := idx];
    }
  }

  lemma SameIdSameElement<T(!new)>(s: seq<T>, id: T -> string, mapping: map<string, int>)
    requires IsIndex(s, id, mapping)
    ensures forall x, y :: x in s && y in s && id(x) == id(y) ==> x == y
  {
  }

  lemma Removing(connections: seq<Connection>, mapping: map<string, int>, k: string)
    requires IsIndex(connections, ConnectionId, mapping) && k in mapping
    ensures 0 <= mapping[k] < |connections|
    ensures var conn := connections[mapping[k]]; var shorter := Shorter(connections, mapping[k]);
            && IsIndex(shorter, ConnectionId, Reindexed(connections, ConnectionId, mapping, k))
            && (forall x :: x in shorter <==> x in connections && x.id != k)
            && conn in All(connections) && All(shorter) == All(connections) - {conn}
            && Reindexed(connections, ConnectionId, mapping, k).Keys == mapping.Keys - {k}
  {
    SwapWithLastKeepsIndex(connections, ConnectionId, mapping, k);
    SameIdSameElement(connections, ConnectionId, mapping);
    hide Shorter, Reindexed;
  }

  lemma NoOther<T(!new)>(s: seq<T>, id: T -> string, mapping: map<string, int>, k: string)
    requires IsIndex(s, id, mapping)
    ensures k !in mapping ==> mapping.Keys == mapping.Keys - {k} && forall x :: x in s ==> id(x) != k
  {
  }

  lemma Left(conns: set<Connection>, arrived: seq<Connection>, c: Connection) returns (rest: seq<Connection>)
    requires IsArrival(conns, arrived) && c in conns
    ensures IsArrival(conns - {c}, rest)
  {
    var p :| 0 <= p < |arrived| && arrived[p] == c;
    Departure(conns, arrived, p);
    rest := arrived[..p] + arrived[p + 1..];
  }

  datatype SwapResult = Swapped | TooManySessions | NotFound

  class ActiveConnections {
    var connections: seq<Connection>
    var mapping: map<string, int>
    var sshConnections: seq<SSHConnection>
    var sshMapping: map<string, int>
    var perUserConns: map<string, int>
    /** The connections in the order they were accepted. */
    ghost var arrived: seq<Connection>

    constructor ()
      ensures Valid() && connections == [] && sshConnections == []
    {
      connections, mapping, sshConnections, sshMapping, perUserConns := [], map[], [], map[], map[];
      arrived := [];
    }

    ghost predicate Valid()
      reads this
    {
      && IsIndex(connections, ConnectionId, mapping)
      && IsIndex(sshConnections, SSHConnectionId, sshMapping)
      && IsCount(All(connections), perUserConns)
      && IsArrival(All(connections), arrived)
    }

    method AddUserConnection(username: string)
      modifies this`perUserConns
      ensures perUserConns == Incremented(old(perUserConns), username)
    {
      if username == "" {
        return;
      }
      perUserConns := perUserConns[username := (if username in perUserConns then perUserConns[username] else 0) + 1];
    }

    method RemoveUserConnection(username: string)
      modifies this`perUserConns
      ensures perUserConns == Decremented(old(perUserConns), username)
    {
      if username == "" {
        return;
      }
      if username in perUserConns {
        var val := perUserConns[username];
        perUserConns := perUserConns[username := val - 1];
        if val > 1 {
          return;
        }
        perUserConns := Without(perUserConns, {username});
      }
    }

    method GetActiveSessions(username: string) returns (n: int)
      requires Valid()
      ensures username != "" ==> n == |Of(All(connections), username)|
    {
      return if username in perUserConns then perUserConns[username] else 0;
    }

    /**
     * Adds a connection unless its user has too many sessions. The table stays sound if and only if the id of an
     * added connection is new.
     */
    method Add(c: Connection) returns (ok: bool)
      requires Valid()
      modifies this
      ensures Valid() <==> !ok || c.id !in old(mapping)
      ensures ok <==> IsAllowed(All(old(connections)), c)
      ensures connections == if ok then old(connections) + [c] else old(connections)
      ensures perUserConns == if ok then Incremented(old(perUserConns), c.username) else old(perUserConns)
      ensures !ok ==> mapping == old(mapping)
      ensures sshConnections == old(sshConnections)
    {
      hide IsIndex, IsArrival, Of, All;
      if c.username != "" {
        CountOf(All(connections), perUserConns, c.username);
        if c.maxSessions > 0 {
          var val := if c.username in perUserConns then perUserConns[c.username] else 0;
          if val >= c.maxSessions {
            return false;
          }
        }
      }
      AppendKeepsIndex(connections, ConnectionId, mapping, c);
      if c.id !in mapping {
        IsNew(connections, mapping, c);
        AddedIsCounted(All(connections), perUserConns, c);
        ArrivalOfOne(All(connections), arrived, c);
      }
      hide IsCount;
      AddUserConnection(c.username);
      mapping := mapping[c.id := |connections|];
      connections := connections + [c];
      arrived := arrived + [c];
      return true;
    }

    /**
     * Replaces a connection by another one with the same id, unless the user of the new one has too many sessions
     * without the replaced one. A refused swap changes nothing.
     */
    method Swap(c: Connection) returns (result: SwapResult)
      requires Valid()
      modifies this
      ensures Valid() && sshConnections == old(sshConnections)
      ensures result == NotFound <==> c.id !in old(mapping)
      ensures c.id in old(mapping) ==>
                (result == Swapped <==> IsAllowed(All(old(connections)) - {old(connections)[old(mapping)[c.id]]}, c))
      ensures result == Swapped ==> connections == old(connections)[old(mapping)[c.id] := c]
      ensures result != Swapped ==> connections == old(connections) && perUserConns == old(perUserConns)
      ensures mapping == old(mapping)
    {
      hide IsArrival, Of, All;
      if c.id in mapping {
        var idx := mapping[c.id];
        var conn := connections[idx];
        ghost var rest := All(connections) - {conn};
        Swapping(connections, mapping, c);
        hide IsIndex;
        RemovedIsCounted(All(connections), perUserConns, conn);
        RemoveUserConnection(conn.username);
        if c.username != "" {
          CountOf(rest, perUserConns, c.username);
          if c.maxSessions > 0 {
            if c.username in perUserConns && perUserConns[c.username] >= c.maxSessions {
              hide IsCount;
              AddUserConnection(conn.username);
              return TooManySessions;
            }
          }
        }
        AddedIsCounted(rest, perUserConns, c);
        hide IsCount;
        AddUserConnection(c.username);
        arrived := Left(All(connections), arrived, conn);
        ArrivalOfOne(rest, arrived, c);
        arrived := arrived + [c];
        connections := connections[idx := c];
        return Swapped;
      }
      return NotFound;
    }

    /** Removes a connection, if it is there, by moving the last one in its place. */
    method Remove(connectionID: string)
      requires Valid()
      modifies this
      ensures Valid() && sshConnections == old(sshConnections)
      ensures forall c :: c in connections <==> c in old(connections) && c.id != connectionID
      ensures mapping.Keys == old(mapping).Keys - {connectionID}
      ensures connectionID !in old(mapping) ==> connections == old(connections) && perUserConns == old(perUserConns)
    {
      hide IsIndex, IsArrival, Of, All, IsCount, Decremented, Shorter, Reindexed;
      NoOther(connections, ConnectionId, mapping, connectionID);
      if connectionID in mapping {
        Removing(connections, mapping, connectionID);
        var conn := connections[mapping[connectionID]];
        arrived := Left(All(connections), arrived, conn);
        RemovedIsCounted(All(connections), perUserConns, conn);
        connections, mapping := SwapWithLast(connections, ConnectionId, mapping, connectionID);
        RemoveUserConnection(conn.username);
      }
    }

    /** The table stays sound if and only if the id of the SSH connection is new. */
    method AddSSHConnection(c: SSHConnection)
      requires Valid()
      modifies this`sshConnections, this`sshMapping
      ensures Valid() <==> c.id !in old(sshMapping)
      ensures sshConnections == old(sshConnections) + [c]
    {
      hide IsArrival, IsCount;
      AppendKeepsIndex(sshConnections, SSHConnectionId, sshMapping, c);
      hide IsIndex;
      sshMapping := sshMapping[c.id := |sshConnections|];
      sshConnections := sshConnections + [c];
    }

    method RemoveSSHConnection(connectionID: string)
      requires Valid()
      modifies this`sshConnections, this`sshMapping
      ensures Valid() && sshMapping.Keys == old(sshMapping).Keys - {connectionID}
      ensures forall c :: c in sshConnections <==> c in old(sshConnections) && c.id != connectionID
    {
      hide IsIndex, IsArrival, IsCount, Shorter, Reindexed;
      NoOther(sshConnections, SSHConnectionId, sshMapping, connectionID);
      if connectionID in sshMapping {
        SwapWithLastKeepsIndex(sshConnections, SSHConnectionId, sshMapping, connectionID);
        sshConnections, sshMapping := SwapWithLast(sshConnections, SSHConnectionId, sshMapping, connectionID);
      }
    }

    /** The session limit holds in every state the table can reach. */
    lemma SessionsAreLimited(username: string, m: nat)
      requires Valid() && username != ""
      requires forall c <- connections :: c.username == username ==> 0 < c.maxSessions <= m
      ensures |Of(All(connections), username)| <= m
    {
      SessionLimit(All(connections), arrived, username, m);
    }
  }
}
