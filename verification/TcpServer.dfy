/**
  The epoll loop of InetDomainSocketTcpServer. The kernel chooses the events; the assumptions
  about it are that accept returns a number that is not open, and that one batch has at most
  one event for a descriptor, all of them watched when the batch was collected.
*/
module TcpServers {
  import opened Bytes
  import opened Registries
  import opened Attribution

  /** What the loop finds: the new client of an accept, or what read gives (None for 0 or an error). */
  datatype Event = Accepted(fd: int, id: nat) | Readable(fd: int, data: Option<bytes>)

  datatype State = State(clients: seq<Client>, watched: set<int>, trace: seq<Notification>, crashed: bool)

  /** One turn of the inner loop. Looking up a client that is not there crashes. */
  function Step(s: State, e: Event): State {
    match e
    case Accepted(fd, id) =>
      s.(clients := s.clients + [Client(id, fd)], watched := s.watched + {fd}, trace := s.trace + [Connected(id)])
    case Readable(fd, None) =>
      var (clients, id) := RemovedByFd(s.clients, fd);
      s.(clients := clients, watched := s.watched - {fd}, trace := s.trace + [Disconnected(id)])
    case Readable(fd, Some(data)) =>
      match FirstByFd(s.clients, fd)
      case None => s.(crashed := true)
      case Some(c) => s.(trace := s.trace + [Received(c.id, data)])
  }

  function RunBatch(s: State, batch: seq<Event>): State
    decreases batch
  {
    if batch == [] then s else RunBatch(Step(s, batch[0]), batch[1..])
  }

  function RunAll(s: State, batches: seq<seq<Event>>): State
    decreases batches
  {
    if batches == [] then s else RunAll(RunBatch(s, batches[0]), batches[1..])
  }

  const START: State := State([], {}, [], false)

  // ----- The kernel -----

  predicate ReadsFrom(batch: seq<Event>, fd: int) {
    exists e :: e in batch && e.Readable? && e.fd == fd
  }

  /**
    The events of a batch, of which the first ones have led to s. Readiness was collected at the
    start of the batch, when `ready` was watched; accept chooses its number when it is called.
  */
  predicate Plausible(ready: set<int>, s: State, batch: seq<Event>)
    decreases batch
  {
    batch == [] ||
    ((match batch[0]
      case Accepted(fd, id) => fd !in s.watched && id != 0 && id !in Ids(s.clients)
      case Readable(fd, _) => fd in ready && !ReadsFrom(batch[1..], fd)) &&
     Plausible(ready, Step(s, batch[0]), batch[1..]))
  }

  predicate PlausibleRun(s: State, batches: seq<seq<Event>>)
    decreases batches
  {
    batches == [] ||
    (Plausible(s.watched, s, batches[0]) && PlausibleRun(RunBatch(s, batches[0]), batches[1..]))
  }

  // ----- Safety -----

  /**
    The registry holds exactly the watched descriptors, once each, the trace follows the
    protocol, and the clients it leaves connected are exactly the registered ones.
  */
  ghost predicate Safe(s: State) {
    !s.crashed && WellKept(s.clients) && Fds(s.clients) == s.watched &&
    LiveAfter(s.trace) == Some(Ids(s.clients))
  }

  /** A new number and a new id, or an open descriptor. */
  predicate Possible(s: State, e: Event) {
    match e
    case Accepted(fd, id) => fd !in s.watched && id != 0 && id !in Ids(s.clients)
    case Readable(fd, _) => fd in s.watched
  }

  lemma StepIsSafe(s: State, e: Event)
    requires Safe(s)
    requires Possible(s, e)
    ensures Safe(Step(s, e))
  {
    match e
    case Accepted(fd, id) =>
      AddKeepsWell(s.clients, Client(id, fd));
      LiveAfterNext(s.trace, Connected(id));
    case Readable(fd, None) =>
      RemovalByFd(s.clients, fd);
      LiveAfterNext(s.trace, Disconnected(RemovedByFd(s.clients, fd).1));
    case Readable(fd, Some(data)) =>
      var c := FirstByFd(s.clients, fd).value;
      assert c.id in Ids(s.clients);
      LiveAfterNext(s.trace, Received(c.id, data));
  }

  /** In the middle of a batch: safe, and every descriptor with an event still to come is still watched. */
  ghost predicate Pending(ready: set<int>, s: State, batch: seq<Event>) {
    Safe(s) && Plausible(ready, s, batch) && forall fd :: ReadsFrom(batch, fd) ==> fd in s.watched
  }

  lemma PendingIsPossible(ready: set<int>, s: State, batch: seq<Event>)
    requires Pending(ready, s, batch)
    ensures Safe(s) && (batch != [] ==> Possible(s, batch[0]))
  {
    assert batch != [] && batch[0].Readable? ==> ReadsFrom(batch, batch[0].fd);
  }

  /** Handling one event keeps this, and never looks up a client that is not there. */
  lemma PendingStep(ready: set<int>, s: State, batch: seq<Event>)
    requires Pending(ready, s, batch) && batch != []
    ensures Pending(ready, Step(s, batch[0]), batch[1..])
    ensures batch[0].Readable? ==> FirstByFd(s.clients, batch[0].fd).Some?
  {
    var e := batch[0];
    assert e.Readable? ==> ReadsFrom(batch, e.fd);
    assert e.Readable? ==> e.fd in Fds(s.clients);
    StepIsSafe(s, e);
    forall fd | ReadsFrom(batch[1..], fd)
      ensures fd in Step(s, e).watched
    {
      var later :| later in batch[1..] && later.Readable? && later.fd == fd;
      assert later in batch;
      assert ReadsFrom(batch, fd);
    }
  }

  /** After the first i events of a batch, whatever numbers closing and accepting have recycled. */
  lemma {:induction false} PendingAfter(ready: set<int>, s: State, batch: seq<Event>, i: nat)
    requires Pending(ready, s, batch) && i <= |batch|
    ensures Pending(ready, RunBatch(s, batch[..i]), batch[i..])
    decreases i
  {
    if i == 0 {
      assert batch[..0] == [] && batch[0..] == batch;
    } else {
      PendingStep(ready, s, batch);
      PendingAfter(ready, Step(s, batch[0]), batch[1..], i - 1);
      assert batch[..i][1..] == batch[1..][..i - 1] && batch[1..][i - 1..] == batch[i..];
    }
  }

  lemma {:induction false} ReadsAreReady(ready: set<int>, s: State, batch: seq<Event>, fd: int)
    requires Plausible(ready, s, batch) && ReadsFrom(batch, fd)
    ensures fd in ready
    decreases batch
  {
    var e :| e in batch && e.Readable? && e.fd == fd;
    if e != batch[0] {
      assert e in batch[1..];
      ReadsAreReady(ready, Step(s, batch[0]), batch[1..], fd);
    }
  }

  lemma BatchStarts(s: State, batch: seq<Event>)
    requires Safe(s) && Plausible(s.watched, s, batch)
    ensures Pending(s.watched, s, batch)
  {
    forall fd | ReadsFrom(batch, fd)
      ensures fd in s.watched
    {
      ReadsAreReady(s.watched, s, batch, fd);
    }
  }

  /** Over every run: safe after every event, whatever the kernel chooses. */
  lemma {:induction false} RunIsSafe(s: State, batches: seq<seq<Event>>, i: nat, j: nat)
    requires Safe(s) && PlausibleRun(s, batches)
    requires i < |batches| && j <= |batches[i]|
    ensures Safe(RunBatch(RunAll(s, batches[..i]), batches[i][..j]))
    ensures j < |batches[i]| && batches[i][j].Readable? ==>
              FirstByFd(RunBatch(RunAll(s, batches[..i]), batches[i][..j]).clients, batches[i][j].fd).Some?
    decreases i
  {
    var batch := batches[0];
    BatchStarts(s, batch);
    if i == 0 {
      assert batches[..0] == [];
      PendingAfter(s.watched, s, batch, j);
      if j < |batch| { PendingStep(s.watched, RunBatch(s, batch[..j]), batch[j..]); }
    } else {
      PendingAfter(s.watched, s, batch, |batch|);
      assert batch[..|batch|] == batch;
      RunIsSafe(RunBatch(s, batch), batches[1..], i - 1, j);
      assert batches[..i][1..] == batches[1..][..i - 1];
    }
  }

  lemma StartIsSafe()
    ensures Safe(START)
  {
    assert Fds([]) == {} && Ids([]) == {};
  }

  /**
    What a listener sees of any run: a client receives and disconnects only after a connection of
    its own that has not ended, and connects only when it is not connected.
  */
  lemma TraceShape(batches: seq<seq<Event>>, n: nat)
    requires PlausibleRun(START, batches)
    requires n < |RunAll(START, batches).trace|
    ensures var trace := RunAll(START, batches).trace;
            trace[n].Connected? <==> !exists j :: ConnectedSince(trace, trace[n].id, j, n)
  {
    var last := |batches| - 1;
    StartIsSafe();
    RunIsSafe(START, batches, last, |batches[last]|);
    RunAllSnoc(START, batches, last);
    assert batches[..last + 1] == batches && batches[last][..|batches[last]|] == batches[last];
    ConnectionShape(RunAll(START, batches).trace, n);
  }

  // ----- Whose notifications they are -----

  function OccurrenceOf(e: Event): Occurrence {
    match e
    case Accepted(fd, id) => Opened(fd, id)
    case Readable(fd, None) => Ended(fd)
    case Readable(fd, Some(data)) => Data(fd, data)
  }

  function Occurrences(batch: seq<Event>): seq<Occurrence> {
    if batch == [] then [] else [OccurrenceOf(batch[0])] + Occurrences(batch[1..])
  }

  /** The events of all batches, one after the other. */
  function History(batches: seq<seq<Event>>): seq<Occurrence> {
    if batches == [] then [] else Occurrences(batches[0]) + History(batches[1..])
  }

  /** The trace is what the events so far demand. */
  ghost predicate Attributed(s: State, os: seq<Occurrence>) {
    Tracks(s.clients, os) && AlwaysDistinct(os) && AlwaysOwned(os) && s.trace == Notified(os)
  }

  lemma StepIsAttributed(s: State, os: seq<Occurrence>, e: Event)
    requires Safe(s) && Attributed(s, os)
    requires Possible(s, e)
    ensures Attributed(Step(s, e), os + [OccurrenceOf(e)])
  {
    var o := OccurrenceOf(e);
    StepIsSafe(s, e);
    NotifiedNext(os, o);
    match e {
      case Accepted(fd, id) => TracksOpened(s.clients, os, fd, id);
      case Readable(fd, None) =>
        assert fd in Fds(s.clients);
        TracksEnded(s.clients, os, fd);
      case Readable(fd, Some(data)) =>
        assert fd in Fds(s.clients);
        TracksOther(s.clients, os, o);
    }
    AlwaysOwnedNext(os, o);
    TracksDistinct(Step(s, e).clients, os + [o]);
    AlwaysDistinctNext(os, o);
  }

  lemma OccurrencesAfter(os: seq<Occurrence>, batch: seq<Event>)
    ensures os + Occurrences(batch) ==
            if batch == [] then os else os + [OccurrenceOf(batch[0])] + Occurrences(batch[1..])
  {}

  lemma {:induction false} BatchIsAttributed(ready: set<int>, s: State, batch: seq<Event>, os: seq<Occurrence>)
    requires Pending(ready, s, batch) && Attributed(s, os)
    ensures Attributed(RunBatch(s, batch), os + Occurrences(batch))
    decreases batch
  {
    hide Attributed, Pending, Possible, Safe, Step, OccurrenceOf, Occurrences;
    OccurrencesAfter(os, batch);
    PendingIsPossible(ready, s, batch);
    if batch != [] {
      var e := batch[0];
      StepIsAttributed(s, os, e);
      PendingStep(ready, s, batch);
      BatchIsAttributed(ready, Step(s, e), batch[1..], os + [OccurrenceOf(e)]);
    }
  }

  lemma {:induction false} RunIsAttributed(s: State, batches: seq<seq<Event>>, os: seq<Occurrence>)
    requires Safe(s) && PlausibleRun(s, batches) && Attributed(s, os)
    ensures Attributed(RunAll(s, batches), os + History(batches))
    decreases batches
  {
    hide Attributed, RunBatch;
    if batches == [] {
      assert os + [] == os;
    } else {
      var batch := batches[0];
      BatchStarts(s, batch);
      BatchIsAttributed(s.watched, s, batch, os);
      PendingAfter(s.watched, s, batch, |batch|);
      assert batch[..|batch|] == batch;
      RunIsAttributed(RunBatch(s, batch), batches[1..], os + Occurrences(batch));
      assert os + Occurrences(batch) + History(batches[1..]) == os + History(batches);
    }
  }

  /**
    Over every run the notifications are those that the events demand: what is received on a
    descriptor, and its end, is reported for the client for which the descriptor was accepted last.
  */
  lemma TraceIsAttributed(batches: seq<seq<Event>>)
    requires PlausibleRun(START, batches)
    ensures RunAll(START, batches).trace == Notified(History(batches))
    ensures AlwaysOwned(History(batches)) && AlwaysDistinct(History(batches))
  {
    StartIsSafe();
    assert Attributed(START, []);
    RunIsAttributed(START, batches, []);
    assert [] + History(batches) == History(batches);
  }

  /** The event at i concerns the connection accepted at j: the listener is told so, with the data. */
  lemma EventIsReported(batches: seq<seq<Event>>, i: nat, j: nat, id: nat)
    requires PlausibleRun(START, batches)
    requires var os := History(batches);
             i < |os| && (os[i].Data? || os[i].Ended?) && Owns(os[..i], j, os[i].fd, id)
    ensures var os := History(batches);
            Notified(os[..i]) + [if os[i].Data? then Received(id, os[i].data) else Disconnected(id)]
            <= RunAll(START, batches).trace
  {
    TraceIsAttributed(batches);
    NotificationOf(History(batches), i, j, id);
  }

  /** While a connection lasts, the listener receives for its client exactly the data of its descriptor, in order. */
  lemma ConnectionIsDelivered(batches: seq<seq<Event>>, j: nat, fd: int, id: nat)
    requires PlausibleRun(START, batches) && Owns(History(batches), j, fd, id)
    ensures var os := History(batches);
            ReceivedBy(RunAll(START, batches).trace, id) ==
            ReceivedBy(Notified(os[..j + 1]), id) + DataOn(os[j + 1..], fd)
  {
    var os := History(batches);
    TraceIsAttributed(batches);
    assert os[..|os|] == os && os[j + 1..|os|] == os[j + 1..];
    ConnectionData(os, j, |os|, fd, id);
  }

  // ----- The loop itself -----

  class TcpServer {
    const registry: Registry
    var watched: set<int>
    var trace: seq<Notification>
    var runThread: bool

    constructor ()
      ensures fresh(registry) && Now() == START
    {
      registry := new Registry();
      watched, trace, runThread := {}, [], false;
    }

    ghost function Now(): State
      reads this, registry
    {
      State(registry.clientList, watched, trace, false)
    }

    /** One pass of the inner loop, over the events of one epoll_wait. */
    method HandleBatch(batch: seq<Event>)
      requires Safe(Now()) && Plausible(watched, Now(), batch)
      modifies this`watched, this`trace, registry
      ensures Now() == RunBatch(old(Now()), batch) && Safe(Now())
    {
      ghost var start := Now();
      BatchStarts(start, batch);
      assert batch[..0] == [];
      for i := 0 to |batch|
        invariant Now() == RunBatch(start, batch[..i])
      {
        PendingAfter(start.watched, start, batch, i);
        PendingStep(start.watched, Now(), batch[i..]);
        RunBatchSnoc(start, batch, i);
        match batch[i] {
          case Accepted(clientFd, newId) =>
            watched := watched + {clientFd};
            var id := registry.AddClientInfo(Client(newId, clientFd));
            trace := trace + [Connected(id)];
          case Readable(fd, data) =>
            if data.None? {
              watched := watched - {fd};
              var id := registry.RemoveClientInfoByFd(fd);
              trace := trace + [Disconnected(id)];
            } else {
              var client := registry.FindClientInfoByFd(fd);
              assert client.Some?;
              trace := trace + [Received(client.value.id, data.value)];
            }
        }
      }
      assert batch[..|batch|] == batch;
      PendingAfter(start.watched, start, batch, |batch|);
    }

    /** The thread: batches until it is told to stop, as `stopAfter` says. */
    method EpollThread(batches: seq<seq<Event>>, stopAfter: nat)
      requires Safe(Now()) && PlausibleRun(Now(), batches)
      modifies this, registry
      ensures Now() == RunAll(old(Now()), if stopAfter < |batches| then batches[..stopAfter] else batches) && Safe(Now())
    {
      runThread := true;
      var handled := 0;
      if handled == stopAfter { runThread := false; }
      ghost var start := Now();
      assert batches[..0] == [] && batches[0..] == batches;
      while runThread && handled < |batches|
        invariant 0 <= handled <= |batches| && handled <= stopAfter
        invariant runThread <==> handled != stopAfter
        invariant Safe(Now()) && PlausibleRun(Now(), batches[handled..])
        invariant Now() == RunAll(start, batches[..handled])
        decreases |batches| - handled
      {
        assert batches[handled..][0] == batches[handled] && batches[handled..][1..] == batches[handled + 1..];
        RunAllSnoc(start, batches, handled);
        HandleBatch(batches[handled]);
        handled := handled + 1;
        if handled == stopAfter { runThread := false; }
      }
      assert batches[..|batches|] == batches;
    }
  }

  lemma {:induction false} RunBatchSnoc(s: State, batch: seq<Event>, i: nat)
    requires i < |batch|
    ensures RunBatch(s, batch[..i + 1]) == Step(RunBatch(s, batch[..i]), batch[i])
    decreases i
  {
    if i == 0 {
      assert batch[..1][1..] == [] && batch[..0] == [];
    } else {
      assert batch[..i + 1][1..] == batch[1..][..i] && batch[..i][1..] == batch[1..][..i - 1];
      RunBatchSnoc(Step(s, batch[0]), batch[1..], i - 1);
    }
  }

  lemma {:induction false} RunAllSnoc(s: State, batches: seq<seq<Event>>, i: nat)
    requires i < |batches|
    ensures RunAll(s, batches[..i + 1]) == RunBatch(RunAll(s, batches[..i]), batches[i])
    decreases i
  {
    if i == 0 {
      assert batches[..1][1..] == [] && batches[..0] == [];
    } else {
      assert batches[..i + 1][1..] == batches[1..][..i] && batches[..i][1..] == batches[1..][..i - 1];
      RunAllSnoc(RunBatch(s, batches[0]), batches[1..], i - 1);
    }
  }
}
