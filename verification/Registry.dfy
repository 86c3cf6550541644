/** The client list of BaseServerImpl, and the protocol that its notifications follow. */
module Registries {
  import opened Bytes

  /**
    A ClientInfo. The id is computed from the object's own address, so equal clients are the
    same object.
  */
  datatype Client = Client(id: nat, fd: int)

  datatype Notification = Connected(id: nat) | Disconnected(id: nat) | Received(id: nat, message: bytes)

  // ----- The list -----

  function FirstByFd(cs: seq<Client>, fd: int): (r: Option<Client>)
    ensures r.Some? ==> r.value in cs && r.value.fd == fd
    ensures r.None? <==> forall c :: c in cs ==> c.fd != fd
  {
    if cs == [] then None
    else if cs[0].fd == fd then Some(cs[0])
    else FirstByFd(cs[1..], fd)
  }

  function FirstById(cs: seq<Client>, id: nat): (r: Option<Client>)
    ensures r.Some? ==> r.value in cs && r.value.id == id
    ensures r.None? <==> forall c :: c in cs ==> c.id != id
  {
    if cs == [] then None
    else if cs[0].id == id then Some(cs[0])
    else FirstById(cs[1..], id)
  }

  /** list::remove: all elements equal to c go. */
  function Without(cs: seq<Client>, c: Client): (r: seq<Client>)
    ensures forall d :: d in r <==> d in cs && d != c
  {
    if cs == [] then []
    else if cs[0] == c then Without(cs[1..], c)
    else [cs[0]] + Without(cs[1..], c)
  }

  /** The list after removeClientInfo(fd), and what the call returns: zero if nobody has the descriptor. */
  function RemovedByFd(cs: seq<Client>, fd: int): (seq<Client>, nat) {
    match FirstByFd(cs, fd)
    case None => (cs, 0)
    case Some(c) => (Without(cs, c), c.id)
  }

  function RemovedById(cs: seq<Client>, id: nat): (seq<Client>, nat) {
    match FirstById(cs, id)
    case None => (cs, 0)
    case Some(c) => (Without(cs, c), id)
  }

  class Registry {
    var clientList: seq<Client>

    constructor ()
      ensures clientList == []
    {
      clientList := [];
    }

    method AddClientInfo(client: Client) returns (id: nat)
      modifies this
      ensures clientList == old(clientList) + [client] && id == client.id
    {
      clientList := clientList + [client];
      return client.id;
    }

    method FindClientInfoByFd(fd: int) returns (client: Option<Client>)
      ensures client == FirstByFd(clientList, fd)
    {
      var it := 0;
      while it != |clientList|
        invariant 0 <= it <= |clientList|
        invariant FirstByFd(clientList, fd) == FirstByFd(clientList[it..], fd)
        decreases |clientList| - it
      {
        assert clientList[it..][0] == clientList[it] && clientList[it..][1..] == clientList[it + 1..];
        if clientList[it].fd == fd { return Some(clientList[it]); }
        it := it + 1;
      }
      return None;
    }

    method FindClientInfoById(id: nat) returns (client: Option<Client>)
      ensures client == FirstById(clientList, id)
    {
      var it := 0;
      while it != |clientList|
        invariant 0 <= it <= |clientList|
        invariant FirstById(clientList, id) == FirstById(clientList[it..], id)
        decreases |clientList| - it
      {
        assert clientList[it..][0] == clientList[it] && clientList[it..][1..] == clientList[it + 1..];
        if clientList[it].id == id { return Some(clientList[it]); }
        it := it + 1;
      }
      return None;
    }

    method RemoveClientInfoByFd(fd: int) returns (id: nat)
      modifies this
      ensures (clientList, id) == RemovedByFd(old(clientList), fd)
    {
      var it := 0;
      while it != |clientList|
        invariant 0 <= it <= |clientList| && clientList == old(clientList)
        invariant FirstByFd(clientList, fd) == FirstByFd(clientList[it..], fd)
        decreases |clientList| - it
      {
        assert clientList[it..][0] == clientList[it] && clientList[it..][1..] == clientList[it + 1..];
        if clientList[it].fd == fd {
          id := clientList[it].id;
          clientList := Without(clientList, clientList[it]);
          return;
        }
        it := it + 1;
      }
      return 0;
    }

    method RemoveClientInfoById(id: nat) returns (removed: nat)
      modifies this
      ensures (clientList, removed) == RemovedById(old(clientList), id)
    {
      var it := 0;
      while it != |clientList|
        invariant 0 <= it <= |clientList| && clientList == old(clientList)
        invariant FirstById(clientList, id) == FirstById(clientList[it..], id)
        decreases |clientList| - it
      {
        assert clientList[it..][0] == clientList[it] && clientList[it..][1..] == clientList[it + 1..];
        if clientList[it].id == id {
          clientList := Without(clientList, clientList[it]);
          return id;
        }
        it := it + 1;
      }
      return 0;
    }
  }

  // ----- A well-kept list -----

  function Fds(cs: seq<Client>): set<int> { set c | c in cs :: c.fd }

  function Ids(cs: seq<Client>): set<nat> { set c | c in cs :: c.id }

  /** Live objects have distinct, non-zero ids, and no two of them share a descriptor. */
  ghost predicate WellKept(cs: seq<Client>) {
    && (forall c :: c in cs ==> c.id != 0)
    && (forall i, j :: 0 <= i < j < |cs| ==> cs[i].id != cs[j].id && cs[i].fd != cs[j].fd)
  }

  lemma AddKeepsWell(cs: seq<Client>, c: Client)
    requires WellKept(cs) && c.id != 0 && c.id !in Ids(cs) && c.fd !in Fds(cs)
    ensures WellKept(cs + [c]) && Fds(cs + [c]) == Fds(cs) + {c.fd} && Ids(cs + [c]) == Ids(cs) + {c.id}
  {
    assert forall d :: d in cs + [c] <==> d in cs || d == c;
  }

  lemma {:induction false} WithoutKeepsWell(cs: seq<Client>, c: Client)
    requires WellKept(cs)
    ensures WellKept(Without(cs, c))
  {
    if cs != [] {
      assert forall i, j :: 0 <= i < j < |cs[1..]| ==> cs[1..][i] == cs[i + 1] && cs[1..][j] == cs[j + 1];
      WithoutKeepsWell(cs[1..], c);
      var t := Without(cs[1..], c);
      forall d | d in t
        ensures d.id != cs[0].id && d.fd != cs[0].fd
      {
        assert d in cs[1..];
      }
    }
  }

  /** In a well-kept list a descriptor or an id identifies the client. */
  lemma Identified(cs: seq<Client>, c: Client, d: Client)
    requires WellKept(cs) && c in cs && d in cs && (c.fd == d.fd || c.id == d.id)
    ensures c == d
  {
    var i :| 0 <= i < |cs| && cs[i] == c;
    var j :| 0 <= j < |cs| && cs[j] == d;
  }

  /** Removing by descriptor removes exactly one client if the descriptor is known, and nothing otherwise. */
  lemma RemovalByFd(cs: seq<Client>, fd: int)
    requires WellKept(cs)
    ensures var (after, id) := RemovedByFd(cs, fd);
            WellKept(after) && Fds(after) == Fds(cs) - {fd} &&
            (fd in Fds(cs) <==> id != 0) &&
            (if fd in Fds(cs) then id in Ids(cs) && Ids(after) == Ids(cs) - {id} else after == cs)
  {
    match FirstByFd(cs, fd)
    case None => assert Fds(cs) - {fd} == Fds(cs);
    case Some(c) =>
      WithoutKeepsWell(cs, c);
      var after := Without(cs, c);
      forall d | d in cs
        ensures d.fd == fd ==> d == c
        ensures d.id == c.id ==> d == c
      {
        if d.fd == fd || d.id == c.id { Identified(cs, c, d); }
      }
      assert Fds(after) == Fds(cs) - {fd};
      assert Ids(after) == Ids(cs) - {c.id};
  }

  /** The same by id: exactly the one client with the id goes. */
  lemma RemovalById(cs: seq<Client>, id: nat)
    requires WellKept(cs)
    ensures var (after, removed) := RemovedById(cs, id);
            WellKept(after) && Ids(after) == Ids(cs) - {id} &&
            (if id in Ids(cs) then removed == id else removed == 0 && after == cs) &&
            forall c :: c in after <==> c in cs && c.id != id
  {
    match FirstById(cs, id)
    case None => assert Ids(cs) - {id} == Ids(cs);
    case Some(c) =>
      WithoutKeepsWell(cs, c);
      forall d | d in cs
        ensures d.id == c.id ==> d == c
      {
        if d.id == c.id { Identified(cs, c, d); }
      }
      assert Ids(Without(cs, c)) == Ids(cs) - {id};
  }

  /** In any list, the client that is found by descriptor or id is the first one. */
  lemma {:induction false} FoundIsFirst(cs: seq<Client>, i: nat)
    requires i < |cs|
    ensures (forall k :: 0 <= k < i ==> cs[k].fd != cs[i].fd) ==> FirstByFd(cs, cs[i].fd) == Some(cs[i])
    ensures (forall k :: 0 <= k < i ==> cs[k].id != cs[i].id) ==> FirstById(cs, cs[i].id) == Some(cs[i])
  {
    if i > 0 {
      FoundIsFirst(cs[1..], i - 1);
      assert forall k :: 0 <= k < i - 1 ==> cs[1..][k] == cs[k + 1];
    }
  }

  // ----- Notification traces -----

  /**
    The clients that are connected after a trace; None if the trace breaks the protocol: nobody
    connects twice in a row, and only connected clients receive or disconnect.
  */
  function LiveAfter(trace: seq<Notification>): Option<set<nat>> {
    if trace == [] then Some({})
    else
      match LiveAfter(trace[..|trace| - 1])
      case None => None
      case Some(live) =>
        match trace[|trace| - 1]
        case Connected(id) => if id in live then None else Some(live + {id})
        case Received(id, _) => if id in live then Some(live) else None
        case Disconnected(id) => if id in live then Some(live - {id}) else None
  }

  lemma LiveAfterNext(trace: seq<Notification>, n: Notification)
    ensures LiveAfter(trace + [n]) ==
            match LiveAfter(trace)
            case None => None
            case Some(live) =>
              match n
              case Connected(id) => if id in live then None else Some(live + {id})
              case Received(id, _) => if id in live then Some(live) else None
              case Disconnected(id) => if id in live then Some(live - {id}) else None
  {
    assert (trace + [n])[..|trace|] == trace;
  }

  /** Client id connected at j and has not disconnected, nor connected again, before i. */
  ghost predicate ConnectedSince(trace: seq<Notification>, id: nat, j: nat, i: nat) {
    j < i <= |trace| && trace[j] == Connected(id) &&
    forall m :: j < m < i ==> trace[m] != Connected(id) && trace[m] != Disconnected(id)
  }

  ghost predicate StillConnected(trace: seq<Notification>, id: nat) {
    exists j :: ConnectedSince(trace, id, j, |trace|)
  }

  lemma {:induction false} LiveMeansConnected(trace: seq<Notification>, id: nat)
    requires LiveAfter(trace).Some?
    ensures id in LiveAfter(trace).value <==> StillConnected(trace, id)
  {
    if trace != [] {
      var n := |trace| - 1;
      var before := trace[..n];
      LiveMeansConnected(before, id);
      if id in LiveAfter(trace).value {
        if trace[n] == Connected(id) {
          assert ConnectedSince(trace, id, n, |trace|);
        } else {
          var j :| ConnectedSince(before, id, j, n);
          assert ConnectedSince(trace, id, j, |trace|);
        }
      }
      forall j: nat | ConnectedSince(trace, id, j, |trace|)
        ensures id in LiveAfter(trace).value
      {
        if j < n { assert ConnectedSince(before, id, j, n); }
      }
    }
  }

  lemma {:induction false} PrefixKeepsProtocol(trace: seq<Notification>, i: nat)
    requires LiveAfter(trace).Some? && i <= |trace|
    ensures LiveAfter(trace[..i]).Some?
  {
    if i < |trace| {
      assert trace[..|trace| - 1][..i] == trace[..i];
      PrefixKeepsProtocol(trace[..|trace| - 1], i);
    } else {
      assert trace[..i] == trace;
    }
  }

  /**
    The shape of a connection: everything a client receives, and its one disconnection, comes
    after a connection of its own that has not ended yet.
  */
  lemma ConnectionShape(trace: seq<Notification>, i: nat)
    requires LiveAfter(trace).Some? && i < |trace|
    ensures trace[i].Connected? ==> !exists j :: ConnectedSince(trace, trace[i].id, j, i)
    ensures !trace[i].Connected? ==> exists j :: ConnectedSince(trace, trace[i].id, j, i)
  {
    var id := trace[i].id;
    PrefixKeepsProtocol(trace, i);
    PrefixKeepsProtocol(trace, i + 1);
    assert trace[..i + 1] == trace[..i] + [trace[i]];
    LiveAfterNext(trace[..i], trace[i]);
    LiveMeansConnected(trace[..i], id);
    if trace[i].Connected? {
      forall j: nat | ConnectedSince(trace, id, j, i)
        ensures false
      {
        assert ConnectedSince(trace[..i], id, j, i);
      }
    } else {
      var j :| ConnectedSince(trace[..i], id, j, i);
      assert ConnectedSince(trace, id, j, i);
    }
  }
}
