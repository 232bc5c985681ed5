/** Every run of sending, receiving and moving ports between sets, as a state machine over the locked regions. */
module MessageRuns {
  import opened Mqueue

  datatype QueueId = OfPort(port: nat) | OfSet(pset: nat)

  datatype State = State(
    ports: map<nat, Port>,
    sets: map<nat, bool>,             // whether active
    queues: map<QueueId, Queue>
  )

  const START := State(map[], map[], map[])

  /** The queue a port's messages go to. */
  function Home(p: nat, port: Port): QueueId {
    if port.pset.Just? then OfSet(port.pset.value) else OfPort(p)
  }

  ghost predicate Shaped(s: State) {
    && (forall p :: p in s.ports ==> OfPort(p) in s.queues)
    && (forall p :: p in s.ports && s.ports[p].pset.Just? ==> s.ports[p].pset.value in s.sets && s.queues[OfPort(p)] == Queue([], []))
    && (forall t :: t in s.sets ==> OfSet(t) in s.queues)
  }

  /** A queued message is in the queue its port uses. */
  ghost predicate Placed(s: State)
    requires Shaped(s)
  {
    forall id, m :: id in s.queues && m in s.queues[id].messages ==> m.port in s.ports && Home(m.port, s.ports[m.port]) == id
  }

  ghost predicate NeverBoth(s: State) {
    forall id :: id in s.queues ==> NotBoth(s.queues[id])
  }

  ghost predicate PortsOk(s: State)
    requires Shaped(s)
  {
    forall p :: p in s.ports ==> PortOk(p, s.ports[p], s.queues[Home(p, s.ports[p])].messages)
  }

  ghost predicate OwnAll(s: State) {
    forall p :: p in s.ports ==> Own(p, s.ports[p])
  }

  ghost predicate Inv(s: State) {
    Shaped(s) && Placed(s) && NeverBoth(s) && PortsOk(s) && OwnAll(s)
  }

  /** No port has lost a wakeup. */
  ghost predicate AllRoused(s: State) {
    forall p :: p in s.ports && s.ports[p].active ==> Roused(s.ports[p])
  }

  ghost function QueueOf(s: State, p: nat): Queue
    requires p in s.ports && Shaped(s)
  {
    s.queues[Home(p, s.ports[p])]
  }

  /** One port and the queue it uses change. */
  ghost function With(s: State, p: nat, change: (Port, Queue)): State
    requires p in s.ports
  {
    s.(ports := s.ports[p := change.0], queues := s.queues[Home(p, s.ports[p]) := change.1])
  }

  ghost predicate Local(s: State, p: nat, change: (Port, Queue))
    requires p in s.ports && Shaped(s)
  {
    change.0.pset == s.ports[p].pset && OnlyMine(p, QueueOf(s, p), change.1)
  }

  lemma WithPorts(s: State, p: nat, change: (Port, Queue))
    requires Shaped(s) && PortsOk(s) && p in s.ports && Local(s, p, change) && PortOk(p, change.0, change.1.messages)
    ensures Shaped(With(s, p, change)) && PortsOk(With(s, p, change))
  {
    var s', h := With(s, p, change), Home(p, s.ports[p]);
    forall r | r in s'.ports
      ensures PortOk(r, s'.ports[r], s'.queues[Home(r, s'.ports[r])].messages)
    {
      if r != p && Home(r, s.ports[r]) == h {
        assert Of(change.1.messages, r) == Of(s.queues[h].messages, r);
      }
    }
  }

  lemma WithQueues(s: State, p: nat, change: (Port, Queue))
    requires Shaped(s) && Placed(s) && NeverBoth(s) && p in s.ports && Local(s, p, change) && NotBoth(change.1)
    ensures Shaped(With(s, p, change)) && Placed(With(s, p, change)) && NeverBoth(With(s, p, change))
  {
    var s' := With(s, p, change);
    assert Shaped(s');
    forall id, m | id in s'.queues && m in s'.queues[id].messages
      ensures m.port in s'.ports && Home(m.port, s'.ports[m.port]) == id
    {
      if id == Home(p, s.ports[p]) {
        assert m in s.queues[id].messages || m.port == p;
      }
    }
  }

  lemma WithInv(s: State, p: nat, change: (Port, Queue))
    requires Inv(s) && p in s.ports && Local(s, p, change) && NotBoth(change.1) && PortOk(p, change.0, change.1.messages) && Own(p, change.0)
    ensures Inv(With(s, p, change))
  {
    WithPorts(s, p, change);
    WithQueues(s, p, change);
  }

  datatype Action =
    | Create(port: nat, limit: nat)
    | CreateSet(pset: nat)
    | Send(msg: Message, force: bool)           // ipc_mqueue_send; force: to a send-once right, or MACH_SEND_ALWAYS
    | Resume(port: nat, k: nat)                 // a woken sender looks at the port again
    | TimeOut(port: nat, k: nat)                // a blocked sender's wait ends
    | Interrupt(port: nat, k: nat)
    | Receive(queue: QueueId, receiver: Receiver)
    | Leave(queue: QueueId, k: nat)             // a waiting receiver times out or is interrupted
    | Finish(port: nat, k: nat)                 // a receiver with a message gives back its place in the queue
    | Add(port: nat, pset: nat)                 // ipc_pset_add
    | Remove(port: nat)                         // ipc_pset_remove
    | Clear(port: nat)                          // ipc_port_clear_receiver
    | Destroy(port: nat)                        // ipc_port_destroy, while the port is locked
    | Flush(port: nat)                          // and its loop over queued messages
    | DestroySet(pset: nat)                     // ipc_pset_destroy
    | SetQlimit(port: nat, limit: nat)
    | SetSeqno(port: nat, seqno: nat)

  predicate Open(s: State, q: QueueId) {
    match q
    case OfPort(p) => p in s.ports && s.ports[p].active && s.ports[p].pset == Nothing
    case OfSet(t) => t in s.sets && s.sets[t]
  }

  ghost predicate Enabled(s: State, a: Action)
    requires Shaped(s)
  {
    match a
    case Create(p, _) => p !in s.ports && OfPort(p) !in s.queues
    case CreateSet(t) => t !in s.sets && OfSet(t) !in s.queues
    case Send(m, _) => m.port in s.ports && m !in s.ports[m.port].sent + s.ports[m.port].blocked + s.ports[m.port].woken
    case Resume(p, k) => p in s.ports && k < |s.ports[p].woken|
    case TimeOut(p, k) => p in s.ports && k < |s.ports[p].blocked|
    case Interrupt(p, k) => p in s.ports && k < |s.ports[p].blocked|
    case Receive(q, _) => q in s.queues && Open(s, q)
    case Leave(q, k) => q in s.queues && k < |s.queues[q].waiters|
    case Finish(p, k) => p in s.ports && k < |s.ports[p].held|
    case Add(p, t) => Open(s, OfPort(p)) && t in s.sets && s.sets[t]
    case Remove(p) => p in s.ports && s.ports[p].active && s.ports[p].pset.Just?
    case Clear(p) => Open(s, OfPort(p))
    case Destroy(p) => Open(s, OfPort(p)) && s.queues[OfPort(p)].waiters == []
    case Flush(p) => p in s.ports && !s.ports[p].active && s.ports[p].pset == Nothing && s.queues[OfPort(p)].messages != []
    case DestroySet(t) => t in s.sets && s.sets[t]
    case SetQlimit(p, _) => p in s.ports && s.ports[p].active
    case SetSeqno(p, _) => p in s.ports && s.ports[p].active
  }

  ghost function Next(s: State, a: Action): State
    requires Shaped(s) && Enabled(s, a)
  {
    match a
    case Create(p, limit) =>
      s.(ports := s.ports[p := Port(true, Nothing, 0, limit, 0, [], [], [], [], [])], queues := s.queues[OfPort(p) := Queue([], [])])
    case CreateSet(t) => s.(sets := s.sets[t := true], queues := s.queues[OfSet(t) := Queue([], [])])
    case Send(m, force) => With(s, m.port, Submitted(s.ports[m.port], QueueOf(s, m.port), m, force))
    case Resume(p, k) => With(s, p, Resumed(s.ports[p], QueueOf(s, p), k))
    case TimeOut(p, k) => With(s, p, TimedOut(s.ports[p], QueueOf(s, p), k))
    case Interrupt(p, k) => With(s, p, (s.ports[p].(blocked := Without(s.ports[p].blocked, k)), QueueOf(s, p)))
    case Receive(q, r) => Fetched(s, q, r)
    case Leave(q, k) => s.(queues := s.queues[q := s.queues[q].(waiters := Without(s.queues[q].waiters, k))])
    case Finish(p, k) => With(s, p, (Finished(s.ports[p], k), QueueOf(s, p)))
    case Add(p, t) => Added(s, p, t)
    case Remove(p) => Removed(s, p)
    case Clear(p) => With(s, p, (Renumbered(s.ports[p], 0), Queue(QueueOf(s, p).messages, [])))
    case Destroy(p) => With(s, p, (Wake(s.ports[p], |s.ports[p].blocked|).(active := false), QueueOf(s, p)))
    case Flush(p) => With(s, p, (s.ports[p], Queue(QueueOf(s, p).messages[1..], QueueOf(s, p).waiters)))
    case DestroySet(t) => s.(sets := s.sets[t := false], queues := s.queues[OfSet(t) := Queue(s.queues[OfSet(t)].messages, [])])
    case SetQlimit(p, n) => With(s, p, (Limited(s.ports[p], n), QueueOf(s, p)))
    case SetSeqno(p, n) => With(s, p, (Renumbered(s.ports[p], n), QueueOf(s, p)))
  }

  /** The start of ipc_mqueue_receive: the first message, if the receiver takes it; or the receiver waits. */
  ghost function Fetched(s: State, q: QueueId, r: Receiver): State
    requires Shaped(s) && q in s.queues
  {
    var ms := s.queues[q].messages;
    if ms == [] then s.(queues := s.queues[q := Queue([], s.queues[q].waiters + [r])])
    else if !Takes(r, ms[0]) || ms[0].port !in s.ports || Home(ms[0].port, s.ports[ms[0].port]) != q then s
    else With(s, ms[0].port, (Stamp(s.ports[ms[0].port], ms[0]), Queue(ms[1..], s.queues[q].waiters)))
  }

  /** ipc_pset_add: the port's messages move to the set, and receivers waiting on the port are woken. */
  ghost function Added(s: State, p: nat, t: nat): State
    requires Shaped(s) && p in s.ports && t in s.sets
  {
    var (port, q) := Moved(s.ports[p], s.queues[OfSet(t)], Of(s.queues[OfPort(p)].messages, p));
    s.(ports := s.ports[p := port.(pset := Just(t))], queues := s.queues[OfPort(p) := Queue([], [])][OfSet(t) := q])
  }

  /** ipc_pset_remove: the port's messages move from the set to its own queue. */
  ghost function Removed(s: State, p: nat): State
    requires Shaped(s) && p in s.ports && s.ports[p].pset.Just?
  {
    var id := OfSet(s.ports[p].pset.value);
    var ms := s.queues[id].messages;
    var (port, q) := Moved(s.ports[p], s.queues[OfPort(p)], Of(ms, p));
    s.(ports := s.ports[p := port.(pset := Nothing)], queues := s.queues[OfPort(p) := q][id := Queue(NotOf(ms, p), s.queues[id].waiters)])
  }

  lemma SendInv(s: State, m: Message, force: bool)
    requires Inv(s) && Enabled(s, Send(m, force))
    ensures Inv(Next(s, Send(m, force)))
  {
    var port, q := s.ports[m.port], QueueOf(s, m.port);
    SubmittedKeeps(m.port, port, q, m, force);
    assert forall x :: multiset(port.sent + port.blocked + port.woken)[x] <= if x.port == m.port then 1 else 0;
    assert m !in multiset(port.sent + port.blocked + port.woken);
    OwnSubmitted(m.port, port, q, m, force);
    WithInv(s, m.port, Submitted(port, q, m, force));
  }

  lemma ResumeInv(s: State, p: nat, k: nat)
    requires Inv(s) && Enabled(s, Resume(p, k))
    ensures Inv(Next(s, Resume(p, k)))
  {
    var port, q := s.ports[p], QueueOf(s, p);
    OwnResumed(p, port, q, k);
    SubmittedKeeps(p, port.(woken := Without(port.woken, k)), q, port.woken[k], false);
    WithInv(s, p, Resumed(port, q, k));
  }

  lemma TimeOutInv(s: State, p: nat, k: nat)
    requires Inv(s) && Enabled(s, TimeOut(p, k))
    ensures Inv(Next(s, TimeOut(p, k)))
  {
    var port, q := s.ports[p], QueueOf(s, p);
    OwnTimedOut(p, port, q, k);
    TimedOutKeeps(p, port, q, k);
    WithInv(s, p, TimedOut(port, q, k));
  }

  lemma InterruptInv(s: State, p: nat, k: nat)
    requires Inv(s) && Enabled(s, Interrupt(p, k))
    ensures Inv(Next(s, Interrupt(p, k)))
  {
    var port, q := s.ports[p], QueueOf(s, p);
    OwnTimedOut(p, port, q, k);
    WithInv(s, p, (port.(blocked := Without(port.blocked, k)), q));
  }

  lemma WaitersInv(s: State, id: QueueId, waiters: seq<Receiver>)
    requires Inv(s) && id in s.queues && (s.queues[id].messages == [] || waiters == [])
    requires id.OfPort? && id.port in s.ports && s.ports[id.port].pset.Just? ==> waiters == []
    ensures Inv(s.(queues := s.queues[id := Queue(s.queues[id].messages, waiters)]))
  {
  }

  lemma ReceiveInv(s: State, id: QueueId, r: Receiver)
    requires Inv(s) && Enabled(s, Receive(id, r))
    ensures Inv(Next(s, Receive(id, r)))
  {
    var q := s.queues[id];
    if q.messages == [] {
      WaitersInv(s, id, q.waiters + [r]);
    } else if Takes(r, q.messages[0]) {
      var m := q.messages[0];
      assert m in q.messages;
      FetchedKeeps(m.port, s.ports[m.port], q);
      WithInv(s, m.port, (Stamp(s.ports[m.port], m), Queue(q.messages[1..], q.waiters)));
    }
  }

  lemma FinishInv(s: State, p: nat, k: nat)
    requires Inv(s) && Enabled(s, Finish(p, k))
    ensures Inv(Next(s, Finish(p, k)))
  {
    var port, q := s.ports[p], QueueOf(s, p);
    FinishedKeeps(p, port, q, k);
    OwnFinished(p, port, k);
    WithInv(s, p, (Finished(port, k), q));
  }

  lemma RenumberInv(s: State, p: nat, n: nat, waiters: seq<Receiver>)
    requires Inv(s) && p in s.ports && (waiters == [] || waiters == QueueOf(s, p).waiters)
    ensures Inv(With(s, p, (Renumbered(s.ports[p], n), Queue(QueueOf(s, p).messages, waiters))))
  {
    RenumberedKeeps(p, s.ports[p], QueueOf(s, p).messages, n);
    WithInv(s, p, (Renumbered(s.ports[p], n), Queue(QueueOf(s, p).messages, waiters)));
  }

  lemma DestroyInv(s: State, p: nat)
    requires Inv(s) && Enabled(s, Destroy(p))
    ensures Inv(Next(s, Destroy(p)))
  {
    var port := s.ports[p];
    OwnWoken(p, port, |port.blocked|);
    WithInv(s, p, (Wake(port, |port.blocked|).(active := false), QueueOf(s, p)));
  }

  lemma FlushInv(s: State, p: nat)
    requires Inv(s) && Enabled(s, Flush(p))
    ensures Inv(Next(s, Flush(p)))
  {
    var q := QueueOf(s, p);
    assert q.messages == [q.messages[0]] + q.messages[1..];
    assert q.messages[0] in q.messages;
    forall r | r != p
      ensures Of(q.messages[1..], r) == Of(q.messages, r)
    {
      assert Of(q.messages, r) == Of(q.messages[1..], r);
    }
    WithInv(s, p, (s.ports[p], Queue(q.messages[1..], q.waiters)));
  }

  lemma LimitInv(s: State, p: nat, n: nat)
    requires Inv(s) && Enabled(s, SetQlimit(p, n))
    ensures Inv(Next(s, SetQlimit(p, n)))
  {
    var port := s.ports[p];
    LimitedKeeps(p, port, QueueOf(s, p).messages, n);
    OwnLimited(p, port, n);
    WithInv(s, p, (Limited(port, n), QueueOf(s, p)));
  }

  /** Moving a port's messages between its own queue and a set's. */
  lemma MoveSelf(s: State, p: nat, to: QueueId)
    requires Inv(s) && p in s.ports && s.ports[p].active && to in s.queues && to != Home(p, s.ports[p])
    ensures var (port, q) := Moved(s.ports[p], s.queues[to], Of(QueueOf(s, p).messages, p));
      PortOk(p, port, q.messages) && NotBoth(q) && SameSending(s.ports[p], port) && OnlyMine(p, s.queues[to], q)
  {
    MovedOver(p, s.ports[p], QueueOf(s, p), s.queues[to]);
  }

  /** A port, its own queue and a set's queue change together. */
  ghost function Regrouped(s: State, p: nat, t: nat, port: Port, own: Queue, q: Queue): State {
    s.(ports := s.ports[p := port], queues := s.queues[OfPort(p) := own][OfSet(t) := q])
  }

  /** The port is in the set or on its own, and its messages are where that says. */
  ghost predicate Sorted(s: State, p: nat, t: nat, port: Port, own: Queue, q: Queue)
    requires Shaped(s) && p in s.ports && t in s.sets
  {
    && (port.pset == Nothing || port.pset == Just(t)) && (s.ports[p].pset == Nothing || s.ports[p].pset == Just(t))
    && NotBoth(own) && NotBoth(q) && Own(p, port) && OnlyMine(p, s.queues[OfSet(t)], q)
    && (forall m :: m in own.messages ==> m.port == p)
    && (if port.pset.Just? then own == Queue([], []) else forall m :: m in q.messages ==> m.port != p)
    && PortOk(p, port, if port.pset.Just? then q.messages else own.messages)
  }

  lemma RegroupedShape(s: State, p: nat, t: nat, port: Port, own: Queue, q: Queue)
    requires Inv(s) && p in s.ports && t in s.sets && Sorted(s, p, t, port, own, q)
    ensures var s' := Regrouped(s, p, t, port, own, q); Shaped(s') && NeverBoth(s') && OwnAll(s')
  {
    RegroupedQueues(s, p, t, port, own, q);
  }

  lemma RegroupedQueues(s: State, p: nat, t: nat, port: Port, own: Queue, q: Queue)
    requires Shaped(s) && NeverBoth(s) && NotBoth(own) && NotBoth(q)
    ensures NeverBoth(Regrouped(s, p, t, port, own, q))
  {
  }

  lemma RegroupedPlaced(s: State, p: nat, t: nat, port: Port, own: Queue, q: Queue, id: QueueId, m: Message)
    requires Shaped(s) && Placed(s) && p in s.ports && t in s.sets && Sorted(s, p, t, port, own, q)
    requires var s' := Regrouped(s, p, t, port, own, q); id in s'.queues && m in s'.queues[id].messages
    ensures var s' := Regrouped(s, p, t, port, own, q); m.port in s'.ports && Home(m.port, s'.ports[m.port]) == id
  {
    if id == OfSet(t) {
      assert m in s.queues[OfSet(t)].messages || m.port == p;
    }
  }

  lemma RegroupedPort(s: State, p: nat, t: nat, port: Port, own: Queue, q: Queue, r: nat)
    requires Shaped(s) && PortsOk(s) && p in s.ports && t in s.sets && Sorted(s, p, t, port, own, q) && r in s.ports
    ensures var s' := Regrouped(s, p, t, port, own, q);
      Home(r, s'.ports[r]) in s'.queues && PortOk(r, s'.ports[r], s'.queues[Home(r, s'.ports[r])].messages)
  {
    if r != p && Home(r, s.ports[r]) == OfSet(t) {
      assert Of(q.messages, r) == Of(s.queues[OfSet(t)].messages, r);
    }
  }

  lemma RegroupedInv(s: State, p: nat, t: nat, port: Port, own: Queue, q: Queue)
    requires Inv(s) && p in s.ports && t in s.sets && Sorted(s, p, t, port, own, q)
    ensures Inv(Regrouped(s, p, t, port, own, q))
  {
    RegroupedShape(s, p, t, port, own, q);
    var s' := Regrouped(s, p, t, port, own, q);
    forall id, m | id in s'.queues && m in s'.queues[id].messages
      ensures m.port in s'.ports && Home(m.port, s'.ports[m.port]) == id
    {
      RegroupedPlaced(s, p, t, port, own, q, id, m);
    }
    forall r | r in s'.ports
      ensures PortOk(r, s'.ports[r], s'.queues[Home(r, s'.ports[r])].messages)
    {
      RegroupedPort(s, p, t, port, own, q, r);
    }
  }

  /** The port as it is in the set, with its messages in the set's queue. */
  lemma AddedPort(s: State, p: nat, t: nat)
    requires Inv(s) && Enabled(s, Add(p, t))
    ensures var (port, q) := Moved(s.ports[p], s.queues[OfSet(t)], Of(QueueOf(s, p).messages, p));
      && PortOk(p, port.(pset := Just(t)), q.messages) && Own(p, port.(pset := Just(t))) && NotBoth(q)
      && OnlyMine(p, s.queues[OfSet(t)], q)
  {
    MoveSelf(s, p, OfSet(t));
    var port := Moved(s.ports[p], s.queues[OfSet(t)], Of(QueueOf(s, p).messages, p)).0;
    OwnLess(p, s.ports[p], port.(pset := Just(t)));
  }

  lemma AddedInv(s: State, p: nat, t: nat)
    requires Inv(s) && Enabled(s, Add(p, t))
    ensures Inv(Added(s, p, t))
  {
    AddedPort(s, p, t);
    var (port, q) := Moved(s.ports[p], s.queues[OfSet(t)], Of(QueueOf(s, p).messages, p));
    RegroupedInv(s, p, t, port.(pset := Just(t)), Queue([], []), q);
  }

  lemma TakenOut(p: nat, q: Queue)
    ensures OnlyMine(p, q, Queue(NotOf(q.messages, p), q.waiters)) && forall m :: m in NotOf(q.messages, p) ==> m.port != p
    ensures NotBoth(q) ==> NotBoth(Queue(NotOf(q.messages, p), q.waiters))
  {
    OfMember(q.messages, p);
    forall r | r != p
      ensures Of(NotOf(q.messages, p), r) == Of(q.messages, r)
    {
      OfNotOf(q.messages, p, r);
    }
  }

  /** The port as it is once out of its set, with its messages in its own queue. */
  lemma RemovedPort(s: State, p: nat)
    requires Inv(s) && Enabled(s, Remove(p))
    ensures var (port, own) := Moved(s.ports[p], Queue([], []), Of(s.queues[OfSet(s.ports[p].pset.value)].messages, p));
      && PortOk(p, port.(pset := Nothing), own.messages) && Own(p, port.(pset := Nothing)) && NotBoth(own)
      && OnlyMine(p, Queue([], []), own)
  {
    MoveSelf(s, p, OfPort(p));
    var port := Moved(s.ports[p], s.queues[OfPort(p)], Of(QueueOf(s, p).messages, p)).0;
    OwnLess(p, s.ports[p], port.(pset := Nothing));
  }

  lemma RemovedSorted(s: State, p: nat)
    requires Inv(s) && Enabled(s, Remove(p))
    ensures var t := s.ports[p].pset.value; var q0 := s.queues[OfSet(t)];
      var (port, own) := Moved(s.ports[p], s.queues[OfPort(p)], Of(q0.messages, p));
      Sorted(s, p, t, port.(pset := Nothing), own, Queue(NotOf(q0.messages, p), q0.waiters))
  {
    RemovedPort(s, p);
    TakenOut(p, s.queues[OfSet(s.ports[p].pset.value)]);
  }

  lemma RemovedInv(s: State, p: nat)
    requires Inv(s) && Enabled(s, Remove(p))
    ensures Inv(Removed(s, p))
  {
    var t := s.ports[p].pset.value;
    var q0 := s.queues[OfSet(t)];
    RemovedSorted(s, p);
    var (port, own) := Moved(s.ports[p], s.queues[OfPort(p)], Of(q0.messages, p));
    RegroupedInv(s, p, t, port.(pset := Nothing), own, Queue(NotOf(q0.messages, p), q0.waiters));
  }

  lemma CreatedShape(s: State, p: nat, limit: nat)
    requires Inv(s) && Enabled(s, Create(p, limit))
    ensures var s' := Next(s, Create(p, limit)); Shaped(s') && NeverBoth(s') && OwnAll(s')
  {
  }

  lemma CreateInv(s: State, p: nat, limit: nat)
    requires Inv(s) && Enabled(s, Create(p, limit))
    ensures Inv(Next(s, Create(p, limit)))
  {
    CreatedShape(s, p, limit);
    CreatedPlaced(s, p, limit);
    var s' := Next(s, Create(p, limit));
    forall r | r in s'.ports
      ensures PortOk(r, s'.ports[r], s'.queues[Home(r, s'.ports[r])].messages)
    {
      if r != p {
        assert Home(r, s.ports[r]) != OfPort(p);
      }
    }
  }

  lemma CreatedPlaced(s: State, p: nat, limit: nat)
    requires Inv(s) && Enabled(s, Create(p, limit))
    ensures var s' := Next(s, Create(p, limit)); Shaped(s') && Placed(s')
  {
    CreatedShape(s, p, limit);
  }

  lemma CreateSetInv(s: State, t: nat)
    requires Inv(s) && Enabled(s, CreateSet(t))
    ensures Inv(Next(s, CreateSet(t)))
  {
  }

  lemma DestroySetInv(s: State, t: nat)
    requires Inv(s) && Enabled(s, DestroySet(t))
    ensures Inv(Next(s, DestroySet(t)))
  {
    WaitersInv(s, OfSet(t), []);
  }

  lemma LeaveInv(s: State, id: QueueId, k: nat)
    requires Inv(s) && Enabled(s, Leave(id, k))
    ensures Inv(Next(s, Leave(id, k)))
  {
    WaitersInv(s, id, Without(s.queues[id].waiters, k));
  }

  /** Every step keeps the invariant. */
  lemma NextInv(s: State, a: Action)
    requires Inv(s) && Enabled(s, a)
    ensures Inv(Next(s, a))
  {
    if BySender(a) {
      SendingInv(s, a);
    } else if ByReceiver(a) {
      ReceivingInv(s, a);
    } else {
      ArrangingInv(s, a);
    }
  }

  ghost predicate BySender(a: Action) {
    a.Send? || a.Resume? || a.TimeOut? || a.Interrupt?
  }

  ghost predicate ByReceiver(a: Action) {
    a.Receive? || a.Leave? || a.Finish?
  }

  lemma SendingInv(s: State, a: Action)
    requires Inv(s) && Enabled(s, a) && BySender(a)
    ensures Inv(Next(s, a))
  {
    match a
    case Send(m, force) => SendInv(s, m, force);
    case Resume(p, k) => ResumeInv(s, p, k);
    case TimeOut(p, k) => TimeOutInv(s, p, k);
    case Interrupt(p, k) => InterruptInv(s, p, k);
  }

  lemma ReceivingInv(s: State, a: Action)
    requires Inv(s) && Enabled(s, a) && ByReceiver(a)
    ensures Inv(Next(s, a))
  {
    match a
    case Receive(q, r) => ReceiveInv(s, q, r);
    case Leave(q, k) => LeaveInv(s, q, k);
    case Finish(p, k) => FinishInv(s, p, k);
  }

  lemma ArrangingInv(s: State, a: Action)
    requires Inv(s) && Enabled(s, a) && !BySender(a) && !ByReceiver(a)
    ensures Inv(Next(s, a))
  {
    match a
    case Create(p, limit) => CreateInv(s, p, limit);
    case CreateSet(t) => CreateSetInv(s, t);
    case Add(p, t) => AddedInv(s, p, t);
    case Remove(p) => RemovedInv(s, p);
    case Clear(p) => RenumberInv(s, p, 0, []);
    case Destroy(p) => DestroyInv(s, p);
    case Flush(p) => FlushInv(s, p);
    case DestroySet(t) => DestroySetInv(s, t);
    case SetQlimit(p, n) => LimitInv(s, p, n);
    case SetSeqno(p, n) => RenumberInv(s, p, n, QueueOf(s, p).waiters);
  }

  /** Only a woken sender of a circular message can make a wakeup be lost. */
  ghost predicate Wasteful(s: State, a: Action) {
    a.Resume? && a.port in s.ports && s.ports[a.port].active && a.k < |s.ports[a.port].woken| && Wasted(s.ports[a.port], a.k)
  }

  lemma SendersRoused(s: State, a: Action, p: nat)
    requires Shaped(s) && Enabled(s, a) && p in s.ports && BySender(a)
    requires s.ports[p].active && Roused(s.ports[p])
    ensures Roused(Next(s, a).ports[p]) <==> !(Wasteful(s, a) && a.port == p)
  {
    var port, q := s.ports[p], QueueOf(s, p);
    match a
    case Send(m, force) => SubmittedRoused(port, q, m, force);
    case Resume(r, k) => if r == p { ResumedRoused(port, q, k); }
    case TimeOut(r, k) => if r == p { TimedOutRoused(port, q, k); }
    case Interrupt(_, _) =>
  }

  lemma OthersRoused(s: State, a: Action, p: nat)
    requires Shaped(s) && Enabled(s, a) && p in s.ports && !BySender(a)
    requires s.ports[p].active && Roused(s.ports[p]) && Next(s, a).ports[p].active
    ensures Roused(Next(s, a).ports[p])
  {
    var port := s.ports[p];
    match a
    case Finish(r, k) => if r == p { FinishedRoused(port, k); }
    case SetQlimit(r, n) => if r == p { LimitedRoused(port, n); }
    case Add(r, t) => if r == p { MovedSending(port, s.queues[OfSet(t)], Of(s.queues[OfPort(p)].messages, p)); }
    case Remove(r) => if r == p { MovedSending(port, s.queues[OfPort(p)], Of(s.queues[OfSet(port.pset.value)].messages, p)); }
    case _ =>
  }

  /** A dead port stays dead, and a new one has no senders. */
  lemma StillActive(s: State, a: Action, p: nat)
    requires Shaped(s) && Enabled(s, a) && p in Next(s, a).ports && Next(s, a).ports[p].active
    ensures p in s.ports ==> s.ports[p].active
    ensures p !in s.ports ==> Next(s, a).ports[p].blocked == []
  {
    if p in s.ports {
      WasActive(s, a, p);
    }
  }

  lemma WasActive(s: State, a: Action, p: nat)
    requires Shaped(s) && Enabled(s, a) && p in s.ports && p in Next(s, a).ports && Next(s, a).ports[p].active
    ensures s.ports[p].active
  {
    if a.Add? && a.port == p {
      MovedSending(s.ports[p], s.queues[OfSet(a.pset)], Of(s.queues[OfPort(p)].messages, p));
    } else if a.Remove? && a.port == p {
      MovedSending(s.ports[p], s.queues[OfPort(p)], Of(s.queues[OfSet(s.ports[p].pset.value)].messages, p));
    } else if !a.Add? && !a.Remove? {
      OtherwiseActive(s, a, p);
    }
  }

  lemma OtherwiseActive(s: State, a: Action, p: nat)
    requires Shaped(s) && Enabled(s, a) && p in s.ports && p in Next(s, a).ports && !a.Add? && !a.Remove?
    ensures Next(s, a).ports[p].active ==> s.ports[p].active
  {
  }

  lemma StaysActive(s: State, a: Action)
    requires Shaped(s) && Enabled(s, a) && Wasteful(s, a)
    ensures a.port in Next(s, a).ports && Next(s, a).ports[a.port].active
  {
  }

  /** A step keeps every wakeup, except exactly for a wasteful one. */
  lemma NextRoused(s: State, a: Action)
    requires Shaped(s) && Enabled(s, a) && AllRoused(s)
    ensures AllRoused(Next(s, a)) <==> !Wasteful(s, a)
  {
    forall p | p in Next(s, a).ports && Next(s, a).ports[p].active
      ensures Roused(Next(s, a).ports[p]) <==> !(Wasteful(s, a) && a.port == p)
    {
      StillActive(s, a, p);
      if p in s.ports {
        if BySender(a) {
          SendersRoused(s, a, p);
        } else {
          OthersRoused(s, a, p);
        }
      }
    }
    if Wasteful(s, a) {
      assert a.port in Next(s, a).ports;
      StaysActive(s, a);
    }
  }

  // ------------------------------------------------------------ runs

  /** A sequence of actions each enabled where it happens. */
  ghost predicate Runs(s: State, actions: seq<Action>)
    decreases |actions|
  {
    Shaped(s) && (actions == [] || (Enabled(s, actions[0]) && Runs(Next(s, actions[0]), actions[1..])))
  }

  ghost function After(s: State, actions: seq<Action>): State
    requires Runs(s, actions)
    decreases |actions|
  {
    if actions == [] then s else After(Next(s, actions[0]), actions[1..])
  }

  lemma {:induction false} RunInv(s: State, actions: seq<Action>)
    requires Inv(s) && Runs(s, actions)
    ensures Inv(After(s, actions))
    decreases |actions|
  {
    if actions != [] {
      NextInv(s, actions[0]);
      RunInv(Next(s, actions[0]), actions[1..]);
    }
  }

  /** No sender waits or comes back with a circular message. */
  ghost predicate Straight(s: State) {
    forall p, m :: p in s.ports && m in s.ports[p].blocked + s.ports[p].woken ==> !m.circular
  }

  lemma NextStraight(s: State, a: Action)
    requires Shaped(s) && Enabled(s, a) && Straight(s) && (a.Send? ==> !a.msg.circular)
    ensures Straight(Next(s, a)) && !Wasteful(s, a)
  {
    forall p, m | p in Next(s, a).ports && m in Next(s, a).ports[p].blocked + Next(s, a).ports[p].woken
      ensures !m.circular
    {
      SendersFrom(s, a, p, m);
    }
  }

  lemma WithoutMember<T>(s: seq<T>, k: nat, x: T)
    requires k < |s| && x in Without(s, k)
    ensures x in s
  {
  }

  lemma QueuedFrom(s: State, a: Action, p: nat, m: Message)
    requires Shaped(s) && Enabled(s, a) && BySender(a)
    requires p in Next(s, a).ports && m in Next(s, a).ports[p].blocked + Next(s, a).ports[p].woken
    ensures (p in s.ports && m in s.ports[p].blocked + s.ports[p].woken) || (a.Send? && m == a.msg)
  {
    if !a.Send? && a.port == p {
      var port := s.ports[p];
      if a.Resume? && m in Without(port.woken, a.k) {
        WithoutMember(port.woken, a.k, m);
      }
      if !a.Resume? && m in Without(port.blocked, a.k) {
        WithoutMember(port.blocked, a.k, m);
      }
    }
  }

  /** Where blocked and woken senders come from. */
  lemma SendersFrom(s: State, a: Action, p: nat, m: Message)
    requires Shaped(s) && Enabled(s, a) && p in Next(s, a).ports && m in Next(s, a).ports[p].blocked + Next(s, a).ports[p].woken
    ensures (p in s.ports && m in s.ports[p].blocked + s.ports[p].woken) || (a.Send? && m == a.msg)
  {
    match a
    case Send(_, _) => QueuedFrom(s, a, p, m);
    case Resume(_, _) => QueuedFrom(s, a, p, m);
    case TimeOut(_, _) => QueuedFrom(s, a, p, m);
    case Interrupt(_, _) => QueuedFrom(s, a, p, m);
    case Add(r, t) => if r == p { MovedSending(s.ports[p], s.queues[OfSet(t)], Of(s.queues[OfPort(p)].messages, p)); }
    case Remove(r) => if r == p { MovedSending(s.ports[p], s.queues[OfPort(p)], Of(s.queues[OfSet(s.ports[p].pset.value)].messages, p)); }
    case _ =>
  }

  /** In every run without circular messages, no wakeup is ever lost. */
  lemma {:induction false} RunRoused(s: State, actions: seq<Action>)
    requires Runs(s, actions) && AllRoused(s) && Straight(s)
    requires forall a :: a in actions && a.Send? ==> !a.msg.circular
    ensures AllRoused(After(s, actions))
    decreases |actions|
  {
    if actions != [] {
      NextRoused(s, actions[0]);
      NextStraight(s, actions[0]);
      RunRoused(Next(s, actions[0]), actions[1..]);
    }
  }

  /** In every run, each message an active port accepted is taken or queued, in the order sent and exactly once. */
  lemma Accepted(actions: seq<Action>, p: nat)
    requires Runs(START, actions) && p in After(START, actions).ports && After(START, actions).ports[p].active
    ensures var s := After(START, actions); var port := s.ports[p];
      && Shaped(s) && NeverBoth(s)
      && port.sent == Taken(port.log) + Of(QueueOf(s, p).messages, p)
      && Consecutive(port.log) && port.seqno == Expected(port.log)
      && port.msgcount == |Of(QueueOf(s, p).messages, p)| + |port.held|
      && (forall id, m :: id in s.queues && m in s.queues[id].messages && m.port == p ==> id == Home(p, port))
      && (forall m :: multiset(Taken(port.log) + Of(QueueOf(s, p).messages, p))[m] <= 1)
  {
    assert Inv(START);
    RunInv(START, actions);
    var s := After(START, actions);
    var port := s.ports[p];
    assert port.sent == Taken(port.log) + Of(QueueOf(s, p).messages, p) + [];
    assert Own(p, port);
    assert multiset(port.sent) <= multiset(port.sent + port.blocked + port.woken);
  }

  // ------------------------------------------------------------ no message is lost

  /** The port has the message: accepted, or in the hands of a sender that waits or has been woken. */
  ghost predicate Has(port: Port, m: Message) {
    m in port.sent || m in port.blocked || m in port.woken
  }

  /** The sender of m stops waiting: it is interrupted, or its time is up and there is still no room. */
  ghost predicate Quits(s: State, a: Action, m: Message) {
    && (a.TimeOut? || a.Interrupt?) && a.port == m.port && a.port in s.ports
    && a.k < |s.ports[a.port].blocked| && s.ports[a.port].blocked[a.k] == m
    && (a.TimeOut? ==> s.ports[a.port].msgcount >= s.ports[a.port].qlimit)
  }

  /** A message sent to a live port is accepted at once if there is room or it is forced, and else its sender waits. */
  lemma SentHas(s: State, m: Message, force: bool)
    requires Shaped(s) && Enabled(s, Send(m, force)) && s.ports[m.port].active && !m.circular
    ensures var port, port' := s.ports[m.port], Next(s, Send(m, force)).ports[m.port];
      if force || port.msgcount < port.qlimit then port'.sent == port.sent + [m] else port'.blocked == port.blocked + [m]
    ensures Has(Next(s, Send(m, force)).ports[m.port], m)
  {
  }

  lemma WithoutOthers<T>(s: seq<T>, k: nat, x: T)
    requires k < |s|
    ensures x in s && x != s[k] ==> x in Without(s, k)
    ensures multiset(s)[x] <= 1 && x == s[k] ==> x !in Without(s, k)
  {
    Split(s, k);
    if x in s && x != s[k] {
      assert x in multiset(s);
      assert x in multiset(Without(s, k));
    }
  }

  lemma OwnOnce(id: nat, p: Port, m: Message)
    requires Own(id, p)
    ensures multiset(p.blocked)[m] <= 1 && multiset(p.woken)[m] <= 1
    ensures (m in p.blocked ==> m !in p.sent && m !in p.woken) && (m in p.woken ==> m !in p.sent)
  {
    assert multiset(p.sent + p.blocked + p.woken) == multiset(p.sent) + multiset(p.blocked) + multiset(p.woken);
    assert multiset(p.sent + p.blocked + p.woken)[m] <= 1;
  }

  lemma SubmittedHas(p: Port, q: Queue, x: Message, force: bool, m: Message)
    requires p.active && !m.circular
    ensures Has(Submitted(p, q, x, force).0, m) <==> Has(p, m) || m == x
  {
  }

  /** A woken sender sends, or waits again. */
  lemma ResumedHas(p: Port, q: Queue, k: nat, m: Message)
    requires k < |p.woken| && p.active && !m.circular && Has(p, m)
    ensures Has(Resumed(p, q, k).0, m)
  {
    WithoutOthers(p.woken, k, m);
    SubmittedHas(p.(woken := Without(p.woken, k)), q, p.woken[k], false, m);
  }

  lemma LeftHas(id: nat, p: Port, k: nat, m: Message)
    requires k < |p.blocked| && Own(id, p) && Has(p, m)
    ensures Has(p.(blocked := Without(p.blocked, k)), m) <==> p.blocked[k] != m
  {
    WithoutOthers(p.blocked, k, m);
    OwnOnce(id, p, m);
  }

  lemma TimedOutHas(id: nat, p: Port, q: Queue, k: nat, m: Message)
    requires k < |p.blocked| && Own(id, p) && p.active && !m.circular && Has(p, m)
    ensures Has(TimedOut(p, q, k).0, m) <==> !(p.blocked[k] == m && p.msgcount >= p.qlimit)
  {
    LeftHas(id, p, k, m);
    SubmittedHas(p.(blocked := Without(p.blocked, k)), q, p.blocked[k], false, m);
  }

  lemma WakeHas(p: Port, n: nat, m: Message)
    requires n <= |p.blocked|
    ensures Has(Wake(p, n), m) <==> Has(p, m)
  {
    assert p.blocked == p.blocked[..n] + p.blocked[n..];
  }

  lemma FinishHas(p: Port, k: nat, m: Message)
    requires k < |p.held|
    ensures Has(Finished(p, k), m) <==> Has(p, m)
  {
    if p.blocked != [] {
      WakeHas(p, 1, m);
    }
  }

  lemma OtherHas(s: State, a: Action, m: Message)
    requires Shaped(s) && Enabled(s, a) && !BySender(a) && m.port in s.ports
    ensures m.port in Next(s, a).ports && (Has(Next(s, a).ports[m.port], m) <==> Has(s.ports[m.port], m))
  {
    var p, port := m.port, s.ports[m.port];
    match a
    case Finish(r, k) => if r == p { FinishHas(port, k, m); }
    case SetQlimit(r, n) => if r == p { WakeHas(port, Allowed(port, n), m); }
    case Destroy(r) => if r == p { WakeHas(port, |port.blocked|, m); }
    case Add(r, t) => if r == p { MovedSending(port, s.queues[OfSet(t)], Of(s.queues[OfPort(p)].messages, p)); }
    case Remove(r) => if r == p { MovedSending(port, s.queues[OfPort(p)], Of(s.queues[OfSet(port.pset.value)].messages, p)); }
    case _ =>
  }

  lemma SenderHas(s: State, a: Action, m: Message)
    requires Shaped(s) && Enabled(s, a) && BySender(a)
    requires m.port in s.ports && Own(m.port, s.ports[m.port]) && Has(s.ports[m.port], m) && !m.circular && s.ports[m.port].active
    ensures m.port in Next(s, a).ports && (Has(Next(s, a).ports[m.port], m) <==> !Quits(s, a, m))
  {
    var p := m.port;
    var port, q := s.ports[p], QueueOf(s, p);
    match a
    case Send(x, force) => if x.port == p { SubmittedHas(port, q, x, force, m); }
    case Resume(r, k) => if r == p { ResumedHas(port, q, k, m); }
    case TimeOut(r, k) => if r == p { TimedOutHas(p, port, q, k, m); }
    case Interrupt(r, k) => if r == p { LeftHas(p, port, k, m); }
  }

  /** A live port loses a message in a step exactly when its sender quits. */
  lemma NextHas(s: State, a: Action, m: Message)
    requires Shaped(s) && Enabled(s, a)
    requires m.port in s.ports && Own(m.port, s.ports[m.port]) && Has(s.ports[m.port], m) && !m.circular && s.ports[m.port].active
    ensures m.port in Next(s, a).ports && (Has(Next(s, a).ports[m.port], m) <==> !Quits(s, a, m))
  {
    if BySender(a) {
      SenderHas(s, a, m);
    } else {
      OtherHas(s, a, m);
    }
  }

  /** One of the actions from the i-th on is the sender of m quitting. */
  ghost predicate Quit(s: State, actions: seq<Action>, i: nat, m: Message)
    requires Runs(s, actions)
    decreases |actions|
  {
    actions != [] && ((i == 0 && Quits(s, actions[0], m)) || Quit(Next(s, actions[0]), actions[1..], if i == 0 then 0 else i - 1, m))
  }

  lemma {:induction false} RunActive(s: State, actions: seq<Action>, p: nat)
    requires Runs(s, actions) && p in s.ports && p in After(s, actions).ports && After(s, actions).ports[p].active
    ensures s.ports[p].active
    decreases |actions|
  {
    if actions != [] {
      PortStays(s, actions[0], p);
      RunActive(Next(s, actions[0]), actions[1..], p);
      WasActive(s, actions[0], p);
    }
  }

  lemma PortStays(s: State, a: Action, p: nat)
    requires Shaped(s) && Enabled(s, a) && p in s.ports
    ensures p in Next(s, a).ports
  {
  }

  lemma {:induction false} RunHas(s: State, actions: seq<Action>, m: Message)
    requires Inv(s) && Runs(s, actions) && m.port in s.ports && Has(s.ports[m.port], m) && !m.circular
    requires m.port in After(s, actions).ports && After(s, actions).ports[m.port].active
    ensures Has(After(s, actions).ports[m.port], m) || Quit(s, actions, 0, m)
    decreases |actions|
  {
    if actions != [] {
      RunActive(s, actions, m.port);
      NextInv(s, actions[0]);
      NextHas(s, actions[0], m);
      if !Quits(s, actions[0], m) {
        RunHas(Next(s, actions[0]), actions[1..], m);
      }
    }
  }

  /** A message sent in a run is with its port as long as the port lives, unless its sender has quit since. */
  lemma {:induction false} NeverLost(s: State, actions: seq<Action>, i: nat, m: Message, force: bool)
    requires Inv(s) && Runs(s, actions) && i < |actions| && actions[i] == Send(m, force) && !m.circular
    requires m.port in After(s, actions).ports && After(s, actions).ports[m.port].active
    ensures Has(After(s, actions).ports[m.port], m) || Quit(s, actions, i + 1, m)
    decreases |actions|
  {
    NextInv(s, actions[0]);
    if i == 0 {
      RunActive(s, actions, m.port);
      SentHas(s, m, force);
      RunHas(Next(s, actions[0]), actions[1..], m);
    } else {
      NeverLost(Next(s, actions[0]), actions[1..], i - 1, m, force);
    }
  }

  /** So in every run it has been received, is queued, waits, or was withdrawn by its own sender. */
  lemma Accounted(actions: seq<Action>, i: nat, m: Message, force: bool)
    requires Runs(START, actions) && i < |actions| && actions[i] == Send(m, force) && !m.circular
    requires m.port in After(START, actions).ports && After(START, actions).ports[m.port].active
    ensures var s := After(START, actions); var port := s.ports[m.port];
      && Shaped(s)
      && (m in Taken(port.log) || m in QueueOf(s, m.port).messages || m in port.blocked + port.woken || Quit(START, actions, i + 1, m))
  {
    assert Inv(START);
    NeverLost(START, actions, i, m, force);
    Accepted(actions, m.port);
    var s := After(START, actions);
    OfMember(QueueOf(s, m.port).messages, m.port);
  }

  // ------------------------------------------------------------ what the other actions do

  /** The message is numbered and taken from its port. */
  ghost predicate Fetches(s: State, s': State, m: Message) {
    m.port in s.ports && m.port in s'.ports && s'.ports[m.port].log == s.ports[m.port].log + [Stamped(m, s.ports[m.port].seqno)]
  }

  /** A receiver takes the first message of its queue, numbered by its port, if it takes it at all; with none it waits. */
  lemma ReceiveDoes(s: State, id: QueueId, r: Receiver)
    requires Inv(s) && Enabled(s, Receive(id, r))
    ensures var s', ms := Next(s, Receive(id, r)), s.queues[id].messages;
      && (ms == [] ==> s'.queues[id] == Queue([], s.queues[id].waiters + [r]) && s'.ports == s.ports)
      && (ms != [] && !Takes(r, ms[0]) ==> s' == s)
      && (ms != [] && Takes(r, ms[0]) ==> s'.queues[id].messages == ms[1..] && Fetches(s, s', ms[0]))
  {
    assert s.queues[id].messages != [] ==> s.queues[id].messages[0] in s.queues[id].messages;
  }

  /** A receiver that is done makes room; a live port counts one message fewer, and the first waiting sender is woken if there is room. */
  lemma FinishDoes(s: State, p: nat, k: nat)
    requires Inv(s) && Enabled(s, Finish(p, k))
    ensures Releases(s.ports[p], Next(s, Finish(p, k)).ports[p])
  {
    FinishedReleases(p, s.ports[p], QueueOf(s, p), k);
  }

  ghost predicate Releases(port: Port, port': Port) {
    && |port'.held| == |port.held| - 1 && (port.active ==> port'.msgcount == port.msgcount - 1)
    && (port.active && port.blocked != [] && port.msgcount <= port.qlimit ==> port'.woken == port.woken + [port.blocked[0]])
  }

  lemma FinishedReleases(id: nat, p: Port, q: Queue, k: nat)
    requires PortOk(id, p, q.messages) && k < |p.held|
    ensures Releases(p, Finished(p, k))
  {
    FinishedKeeps(id, p, q, k);
  }

  /** A port enters the set and leaves it again; where it entered, nobody waits on it any more. */
  lemma MemberDoes(s: State, p: nat, t: nat)
    requires Shaped(s)
    ensures Enabled(s, Add(p, t)) ==> Next(s, Add(p, t)).ports[p].pset == Just(t) && Next(s, Add(p, t)).queues[OfPort(p)] == Queue([], [])
    ensures Enabled(s, Remove(p)) ==> Next(s, Remove(p)).ports[p].pset == Nothing
  {
  }

  /** Senders that quit and receivers that leave are gone from their queues. */
  lemma LeaveDoes(s: State, id: QueueId, k: nat)
    requires Shaped(s) && Enabled(s, Leave(id, k))
    ensures multiset(Next(s, Leave(id, k)).queues[id].waiters) == multiset(s.queues[id].waiters) - multiset{s.queues[id].waiters[k]}
  {
    Split(s.queues[id].waiters, k);
  }

  /** A limit or a sequence number is set, and messages of a dead port go one by one. */
  lemma SetDoes(s: State, p: nat, n: nat)
    requires Shaped(s)
    ensures Enabled(s, SetQlimit(p, n)) ==> Next(s, SetQlimit(p, n)).ports[p].qlimit == n
    ensures Enabled(s, SetSeqno(p, n)) ==> Next(s, SetSeqno(p, n)).ports[p].seqno == n
    ensures Enabled(s, Flush(p)) ==> Next(s, Flush(p)).queues[OfPort(p)].messages == s.queues[OfPort(p)].messages[1..]
  {
  }

  /** A port that is destroyed is dead, and all its senders are woken to see it. */
  lemma DestroyDoes(s: State, p: nat)
    requires Shaped(s) && Enabled(s, Destroy(p))
    ensures var port, port' := s.ports[p], Next(s, Destroy(p)).ports[p];
      !port'.active && port'.blocked == [] && port'.woken == port.woken + port.blocked && port'.sent == port.sent
  {
  }

  /** A set that is destroyed, or a port whose receiver is cleared, has no receivers left waiting. */
  lemma ChangedDoes(s: State, a: Action)
    requires Shaped(s) && Enabled(s, a) && (a.DestroySet? || a.Clear?)
    ensures var id := if a.DestroySet? then OfSet(a.pset) else OfPort(a.port);
      Next(s, a).queues[id] == Queue(s.queues[id].messages, []) && (forall j :: j in s.queues && j != id ==> Next(s, a).queues[j] == s.queues[j])
    ensures a.DestroySet? ==> !Next(s, a).sets[a.pset]
    ensures a.Clear? ==> Next(s, a).ports[a.port].seqno == 0
  {
  }

  // ------------------------------------------------------------ a lost wakeup

  const FIRST := Message(1, 0, 0, false, false, false)
  const CIRCULAR := Message(2, 0, 0, false, false, true)
  const SECOND := Message(3, 0, 0, false, false, false)
  const READER := Receiver(0, 100, 0, false, false)

  /** One port, with room for one message: a sender of a circular message and another wait behind the first. */
  const LOSING := [
    Create(0, 1), Send(FIRST, false), Send(CIRCULAR, false), Send(SECOND, false),
    Receive(OfPort(0), READER), Finish(0, 0), Resume(0, 0)
  ]

  function Alone(port: Port, q: Queue): State {
    State(map[0 := port], map[], map[OfPort(0) := q])
  }

  lemma AloneWith(port: Port, q: Queue, change: (Port, Queue))
    requires port.pset == Nothing
    ensures Shaped(Alone(port, q)) && QueueOf(Alone(port, q), 0) == q && With(Alone(port, q), 0, change) == Alone(change.0, change.1)
  {
  }

  const P1 := Port(true, Nothing, 0, 1, 0, [], [], [], [], [])
  const P2 := P1.(msgcount := 1, sent := [FIRST])
  const P3 := P2.(blocked := [CIRCULAR])
  const P4 := P2.(blocked := [CIRCULAR, SECOND])
  const P5 := P4.(seqno := 1, log := [Stamped(FIRST, 0)], held := [FIRST])
  const P6 := P5.(held := [], msgcount := 0, blocked := [SECOND], woken := [CIRCULAR])
  const P7 := P6.(woken := [])
  const EMPTY := Queue([], [])
  const FULL := Queue([FIRST], [])

  lemma Sending()
    ensures Submitted(P1, EMPTY, FIRST, false) == (P2, FULL)
    ensures Submitted(P2, FULL, CIRCULAR, false) == (P3, FULL)
    ensures Submitted(P3, FULL, SECOND, false) == (P4, FULL)
  {
    assert [] + [FIRST] == [FIRST] && [] + [CIRCULAR] == [CIRCULAR] && [CIRCULAR] + [SECOND] == [CIRCULAR, SECOND];
  }

  lemma Receiving()
    ensures Takes(READER, FIRST) && Stamp(P4, FIRST) == P5 && FULL.messages[1..] == []
    ensures Finished(P5, 0) == P6 && Resumed(P6, EMPTY, 0) == (P7, EMPTY)
  {
    assert [] + [Stamped(FIRST, 0)] == [Stamped(FIRST, 0)] && [] + [FIRST] == [FIRST];
    assert Without([FIRST], 0) == [] && Without([CIRCULAR], 0) == [];
    assert [CIRCULAR, SECOND][1..] == [SECOND] && [] + [CIRCULAR, SECOND][..1] == [CIRCULAR];
  }

  const STATES := [
    Alone(P1, EMPTY), Alone(P2, FULL), Alone(P3, FULL), Alone(P4, FULL), Alone(P5, EMPTY), Alone(P6, EMPTY), Alone(P7, EMPTY)
  ]

  /** The k-th action leads from a state to the next. */
  ghost predicate Links(actions: seq<Action>, states: seq<State>, k: nat)
    requires 0 < k < |states| == |actions|
  {
    && Shaped(states[k - 1]) && Shaped(states[k]) && Enabled(states[k - 1], actions[k])
    && states[k] == Next(states[k - 1], actions[k])
  }

  lemma SendAlone(p: Port, q: Queue, x: Message, p': Port, q': Queue)
    requires p.pset == Nothing && p'.pset == Nothing && x.port == 0 && x !in p.sent + p.blocked + p.woken
    requires Submitted(p, q, x, false) == (p', q')
    ensures Shaped(Alone(p, q)) && Enabled(Alone(p, q), Send(x, false)) && Next(Alone(p, q), Send(x, false)) == Alone(p', q')
  {
    AloneWith(p, q, (p', q'));
  }

  lemma FirstSend()
    ensures Links(LOSING, STATES, 1)
  {
    Sending();
    SendAlone(P1, EMPTY, FIRST, P2, FULL);
    AloneWith(P2, FULL, (P2, FULL));
  }

  lemma SecondSend()
    ensures Links(LOSING, STATES, 2)
  {
    Sending();
    SendAlone(P2, FULL, CIRCULAR, P3, FULL);
    AloneWith(P3, FULL, (P3, FULL));
  }

  lemma ThirdSend()
    ensures Links(LOSING, STATES, 3)
  {
    Sending();
    SendAlone(P3, FULL, SECOND, P4, FULL);
    AloneWith(P4, FULL, (P4, FULL));
  }

  lemma FirstReceive()
    ensures Links(LOSING, STATES, 4)
  {
    Receiving();
    AloneWith(P4, FULL, (P5, EMPTY));
  }

  lemma FirstFinish()
    ensures Links(LOSING, STATES, 5)
  {
    Receiving();
    AloneWith(P5, EMPTY, (P6, EMPTY));
  }

  lemma WastedResume()
    ensures Links(LOSING, STATES, 6)
  {
    Receiving();
    AloneWith(P6, EMPTY, (P7, EMPTY));
  }

  lemma LosingLink(k: nat)
    requires 0 < k < 7
    ensures Links(LOSING, STATES, k)
  {
    if
    case k == 1 => FirstSend();
    case k == 2 => SecondSend();
    case k == 3 => ThirdSend();
    case k == 4 => FirstReceive();
    case k == 5 => FirstFinish();
    case k == 6 => WastedResume();
  }

  lemma LosingRun()
    ensures Runs(START, LOSING) && After(START, LOSING) == Alone(P7, EMPTY)
  {
    assert Next(START, LOSING[0]) == STATES[0];
    forall k | 0 < k < |STATES|
      ensures Links(LOSING, STATES, k)
    {
      LosingLink(k);
    }
    Unrolled(START, LOSING, STATES);
  }

  /** The other sender stays asleep with the queue empty. */
  lemma LostWakeup()
    ensures Runs(START, LOSING) && !AllRoused(After(START, LOSING))
  {
    LosingRun();
    assert !Roused(P7);
  }

  /** A run given by its states. */
  lemma {:induction false} Unrolled(s: State, actions: seq<Action>, states: seq<State>)
    requires |states| == |actions| > 0 && Shaped(s) && Enabled(s, actions[0]) && states[0] == Next(s, actions[0])
    requires Shaped(states[0]) && forall k :: 0 < k < |states| ==> Links(actions, states, k)
    ensures Runs(s, actions) && After(s, actions) == states[|states| - 1]
    decreases |actions|
  {
    if |actions| > 1 {
      assert Links(actions, states, 1);
      forall k | 0 < k < |states| - 1
        ensures Links(actions[1..], states[1..], k)
      {
        assert Links(actions, states, k + 1);
      }
      Unrolled(states[0], actions[1..], states[1..]);
    }
  }
}
