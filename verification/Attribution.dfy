/**
  Whose notification is it? What the listeners of a server should be told, read off the events of
  its connections alone: which descriptor was opened for which client, which received data, which
  ended. The registry plays no part in this.
*/
module Attribution {
  import opened Bytes
  import opened Registries

  /** What happens to a descriptor. */
  datatype Occurrence =
    | Opened(fd: int, id: nat)
    | Data(fd: int, data: bytes)
    | Ended(fd: int)
    | Nothing

  predicate Touches(o: Occurrence, fd: int) { (o.Opened? || o.Ended?) && o.fd == fd }

  /** The client of a descriptor: the one for which it was opened last, unless that has ended. */
  function Owner(os: seq<Occurrence>, fd: int): Option<nat> {
    if os == [] then None
    else
      var (before, last) := (os[..|os| - 1], os[|os| - 1]);
      if !Touches(last, fd) then Owner(before, fd)
      else if last.Opened? then Some(last.id)
      else None
  }

  /** The descriptor was opened at j for the client, and nothing has touched it since. */
  ghost predicate Owns(os: seq<Occurrence>, j: nat, fd: int, id: nat) {
    j < |os| && os[j] == Opened(fd, id) && forall k :: j < k < |os| ==> !Touches(os[k], fd)
  }

  lemma {:induction false} OwnerIsLastOpened(os: seq<Occurrence>, fd: int, id: nat)
    ensures Owner(os, fd) == Some(id) <==> exists j: nat :: Owns(os, j, fd, id)
  {
    if os != [] {
      var n := |os| - 1;
      var before := os[..n];
      OwnerIsLastOpened(before, fd, id);
      if os[n] == Opened(fd, id) { assert Owns(os, n, fd, id); }
      if !Touches(os[n], fd) {
        forall j: nat | Owns(before, j, fd, id)
          ensures Owns(os, j, fd, id)
        {}
        forall j: nat | Owns(os, j, fd, id)
          ensures Owns(before, j, fd, id)
        {}
      }
    }
  }

  /** What a listener is told of one occurrence after others: at the end of a nameless connection, client zero. */
  function Said(before: seq<Occurrence>, o: Occurrence): seq<Notification> {
    match o
    case Opened(fd, id) => [Connected(id)]
    case Data(fd, data) => (match Owner(before, fd) case None => [] case Some(id) => [Received(id, data)])
    case Ended(fd) => [Disconnected(match Owner(before, fd) case None => 0 case Some(id) => id)]
    case Nothing => []
  }

  function Notified(os: seq<Occurrence>): seq<Notification> {
    if os == [] then []
    else
      var (before, last) := (os[..|os| - 1], os[|os| - 1]);
      Notified(before) + Said(before, last)
  }

  lemma OwnerNext(os: seq<Occurrence>, o: Occurrence, fd: int)
    ensures Owner(os + [o], fd) == if !Touches(o, fd) then Owner(os, fd) else if o.Opened? then Some(o.id) else None
  {
    assert (os + [o])[..|os|] == os;
  }

  lemma NotifiedNext(os: seq<Occurrence>, o: Occurrence)
    ensures Notified(os + [o]) == Notified(os) + Said(os, o)
  {
    assert (os + [o])[..|os|] == os;
  }

  // ----- One notification -----

  lemma {:induction false} NotifiedPrefix(os: seq<Occurrence>, i: nat)
    requires i <= |os|
    ensures Notified(os[..i]) <= Notified(os)
  {
    if i < |os| {
      var before := os[..|os| - 1];
      assert before[..i] == os[..i];
      NotifiedPrefix(before, i);
    } else {
      assert os[..i] == os;
    }
  }

  /** Data and the end of a connection are reported for the client for which the descriptor was opened last. */
  lemma NotificationOf(os: seq<Occurrence>, i: nat, j: nat, id: nat)
    requires i < |os| && (os[i].Data? || os[i].Ended?) && Owns(os[..i], j, os[i].fd, id)
    ensures Notified(os[..i + 1]) ==
            Notified(os[..i]) + [if os[i].Data? then Received(id, os[i].data) else Disconnected(id)]
    ensures Notified(os[..i + 1]) <= Notified(os)
  {
    OwnerIsLastOpened(os[..i], os[i].fd, id);
    assert os[..i + 1] == os[..i] + [os[i]];
    NotifiedNext(os[..i], os[i]);
    NotifiedPrefix(os, i + 1);
  }

  // ----- One connection -----

  /** No two descriptors ever have the same client. */
  ghost predicate Distinct(os: seq<Occurrence>) {
    forall fd, fd' :: fd != fd' && Owner(os, fd).Some? ==> Owner(os, fd') != Owner(os, fd)
  }

  ghost predicate AlwaysDistinct(os: seq<Occurrence>) { forall i :: 0 <= i <= |os| ==> Distinct(os[..i]) }

  /** The data that a trace delivers for a client. */
  function ReceivedBy(trace: seq<Notification>, id: nat): seq<bytes> {
    if trace == [] then []
    else
      var (before, last) := (trace[..|trace| - 1], trace[|trace| - 1]);
      ReceivedBy(before, id) + if last.Received? && last.id == id then [last.message] else []
  }

  /** The data that a descriptor has received. */
  function DataOn(os: seq<Occurrence>, fd: int): seq<bytes> {
    if os == [] then []
    else
      var (before, last) := (os[..|os| - 1], os[|os| - 1]);
      DataOn(before, fd) + if last.Data? && last.fd == fd then [last.data] else []
  }

  lemma ReceivedByNext(trace: seq<Notification>, ns: seq<Notification>, id: nat)
    requires |ns| <= 1
    ensures ReceivedBy(trace + ns, id) ==
            ReceivedBy(trace, id) + if ns != [] && ns[0].Received? && ns[0].id == id then [ns[0].message] else []
  {
    if ns == [] {
      assert trace + ns == trace;
    } else {
      assert (trace + ns)[..|trace|] == trace;
    }
  }

  function DataIn(o: Occurrence, fd: int): seq<bytes> { if o.Data? && o.fd == fd then [o.data] else [] }

  lemma DataOnNext(os: seq<Occurrence>, o: Occurrence, fd: int)
    ensures DataOn(os + [o], fd) == DataOn(os, fd) + DataIn(o, fd)
  {
    assert (os + [o])[..|os|] == os;
  }

  /** One more occurrence while a connection lasts. */
  lemma DeliveredNext(os: seq<Occurrence>, o: Occurrence, fd: int, id: nat)
    requires Distinct(os) && Owner(os, fd) == Some(id) && !Touches(o, fd)
    ensures ReceivedBy(Notified(os + [o]), id) == ReceivedBy(Notified(os), id) + DataIn(o, fd)
  {
    NotifiedNext(os, o);
    ReceivedByNext(Notified(os), Said(os, o), id);
    if o.Data? && o.fd != fd { assert Owner(os, o.fd) != Owner(os, fd); }
  }

  /**
    While a connection that was opened at j lasts, a listener receives for its client exactly the
    data of its descriptor, in order.
  */
  lemma {:induction false} ConnectionData(os: seq<Occurrence>, j: nat, e: nat, fd: int, id: nat)
    requires AlwaysDistinct(os) && e <= |os| && Owns(os[..e], j, fd, id)
    ensures ReceivedBy(Notified(os[..e]), id) ==
            ReceivedBy(Notified(os[..j + 1]), id) + DataOn(os[j + 1..e], fd)
    decreases e
  {
    hide ReceivedBy, Notified, DataOn, Owner, Distinct;
    if e == j + 1 {
      assert os[j + 1..e] == [];
      assert DataOn([], fd) == [] by { NoData(fd); }
    } else {
      var n := e - 1;
      assert os[..e] == os[..n] + [os[n]];
      assert os[j + 1..e] == os[j + 1..n] + [os[n]];
      assert Owns(os[..n], j, fd, id);
      ConnectionData(os, j, n, fd, id);
      OwnerIsLastOpened(os[..n], fd, id);
      DeliveredNext(os[..n], os[n], fd, id);
      DataOnNext(os[j + 1..n], os[n], fd);
    }
  }

  lemma NoData(fd: int)
    ensures DataOn([], fd) == []
  {}

  // ----- The registry keeps track -----

  /** What the registry says of a descriptor is what the occurrences say. */
  ghost predicate Tracks(cs: seq<Client>, os: seq<Occurrence>) {
    forall fd :: Owner(os, fd) == match FirstByFd(cs, fd) { case None => None case Some(c) => Some(c.id) }
  }

  lemma {:induction false} FirstByFdSnoc(cs: seq<Client>, c: Client, fd: int)
    ensures FirstByFd(cs + [c], fd) ==
            if FirstByFd(cs, fd).Some? then FirstByFd(cs, fd) else if c.fd == fd then Some(c) else None
  {
    if cs != [] {
      assert (cs + [c])[1..] == cs[1..] + [c];
      FirstByFdSnoc(cs[1..], c, fd);
    }
  }

  lemma {:induction false} FirstByFdWithout(cs: seq<Client>, c: Client, fd: int)
    requires c.fd != fd
    ensures FirstByFd(Without(cs, c), fd) == FirstByFd(cs, fd)
  {
    if cs != [] {
      FirstByFdWithout(cs[1..], c, fd);
      if cs[0] != c { assert ([cs[0]] + Without(cs[1..], c))[1..] == Without(cs[1..], c); }
    }
  }

  lemma TracksOpened(cs: seq<Client>, os: seq<Occurrence>, fd: int, id: nat)
    requires Tracks(cs, os) && fd !in Fds(cs)
    ensures Tracks(cs + [Client(id, fd)], os + [Opened(fd, id)])
  {
    forall f
      ensures Owner(os + [Opened(fd, id)], f) ==
              match FirstByFd(cs + [Client(id, fd)], f) { case None => None case Some(c) => Some(c.id) }
    {
      OwnerNext(os, Opened(fd, id), f);
      FirstByFdSnoc(cs, Client(id, fd), f);
      if FirstByFd(cs, f).Some? { assert f in Fds(cs); }
    }
  }

  lemma TracksEnded(cs: seq<Client>, os: seq<Occurrence>, fd: int)
    requires Tracks(cs, os) && WellKept(cs)
    ensures Tracks(RemovedByFd(cs, fd).0, os + [Ended(fd)])
  {
    RemovalByFd(cs, fd);
    var after := RemovedByFd(cs, fd).0;
    forall f
      ensures Owner(os + [Ended(fd)], f) == match FirstByFd(after, f) { case None => None case Some(c) => Some(c.id) }
    {
      OwnerNext(os, Ended(fd), f);
      if f == fd {
        assert FirstByFd(after, f).Some? ==> f in Fds(after);
      } else if FirstByFd(cs, fd).Some? {
        FirstByFdWithout(cs, FirstByFd(cs, fd).value, f);
      }
    }
  }

  lemma TracksOther(cs: seq<Client>, os: seq<Occurrence>, o: Occurrence)
    requires Tracks(cs, os) && (o.Data? || o.Nothing?)
    ensures Tracks(cs, os + [o])
  {
    forall f
      ensures Owner(os + [o], f) == Owner(os, f)
    {
      OwnerNext(os, o, f);
    }
  }

  /** A list with distinct ids makes the owners distinct. */
  lemma TracksDistinct(cs: seq<Client>, os: seq<Occurrence>)
    requires Tracks(cs, os) && WellKept(cs)
    ensures Distinct(os)
  {
    forall fd, fd' | fd != fd' && Owner(os, fd).Some?
      ensures Owner(os, fd') != Owner(os, fd)
    {
      if Owner(os, fd') == Owner(os, fd) {
        Identified(cs, FirstByFd(cs, fd).value, FirstByFd(cs, fd').value);
      }
    }
  }

  /** Everything is received and ended on a descriptor that has a client. */
  ghost predicate AlwaysOwned(os: seq<Occurrence>) {
    forall i :: 0 <= i < |os| && (os[i].Data? || os[i].Ended?) ==> Owner(os[..i], os[i].fd).Some?
  }

  lemma AlwaysOwnedNext(os: seq<Occurrence>, o: Occurrence)
    requires AlwaysOwned(os)
    requires o.Data? || o.Ended? ==> Owner(os, o.fd).Some?
    ensures AlwaysOwned(os + [o])
  {
    var more := os + [o];
    forall i | 0 <= i < |more| && (more[i].Data? || more[i].Ended?)
      ensures Owner(more[..i], more[i].fd).Some?
    {
      assert more[..i] == os[..i];
      if i == |os| { assert os[..i] == os; }
    }
  }

  lemma AlwaysDistinctNext(os: seq<Occurrence>, o: Occurrence)
    requires AlwaysDistinct(os) && Distinct(os + [o])
    ensures AlwaysDistinct(os + [o])
  {
    forall i | 0 <= i <= |os + [o]|
      ensures Distinct((os + [o])[..i])
    {
      if i <= |os| {
        assert (os + [o])[..i] == os[..i];
      } else {
        assert (os + [o])[..i] == os + [o];
      }
    }
  }
}
