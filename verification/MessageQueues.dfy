/** The loops of ipc/ipc_mqueue.c and ipc/ipc_port.c over queues of messages, receivers and senders. */
module MessageQueues {
  import opened Mqueue

  class MessageQueue {
    var messages: seq<Message>    // imq_messages
    var waiters: seq<Receiver>    // imq_threads

    ghost function Value(): Queue
      reads this
    {
      Queue(messages, waiters)
    }

    constructor ()
      ensures Value() == Queue([], [])
    {
      messages, waiters := [], [];
    }

    /** ipc_mqueue_changed: every receiver is woken. */
    method Changed() returns (told: seq<nat>)
      modifies this
      ensures Value() == Queue(old(messages), [])
      ensures |told| == |old(waiters)| && forall i :: 0 <= i < |told| ==> told[i] == old(waiters)[i].thread
    {
      told := [];
      while waiters != []
        invariant messages == old(messages) && |told| + |waiters| == |old(waiters)| && waiters == old(waiters)[|told|..]
        invariant forall i :: 0 <= i < |told| ==> told[i] == old(waiters)[i].thread
        decreases |waiters|
      {
        told := told + [waiters[0].thread];
        waiters := waiters[1..];
      }
    }

    /** ipc_mqueue_receive, up to where it unlocks the queue. */
    method Receive(r: Receiver, ports: map<nat, IpcPort>) returns (f: Find)
      requires forall m :: m in messages ==> m.port in ports
      modifies this, set p | p in ports :: ports[p]
      ensures old(messages) == [] ==> f == Waits && Value() == Queue([], old(waiters) + [r])
      ensures old(messages) != [] && !Takes(r, old(messages)[0]) ==> f == Leaves(old(messages)[0].size) && Value() == old(Value())
      ensures old(messages) != [] && Takes(r, old(messages)[0]) ==>
        var m := old(messages)[0]; var port := ports[m.port];
        && port.Value() == Stamp(old(port.Value()), m) && Value() == Queue(old(messages)[1..], old(waiters))
        && f == Fetches(m, old(port.seqno), Judge(m, r).0)
      ensures old(messages) != [] ==> f != Waits && Fair(old(messages)[0], r, if f.Fetches? then f.verdict else TooLarge, f.Fetches?)
      ensures forall p :: p in ports && !(f.Fetches? && ports[p] == ports[f.msg.port]) ==> ports[p].Value() == old(ports[p].Value())
    {
      if messages == [] {
        waiters := waiters + [r];
        return Waits;
      }
      var m := messages[0];
      var (verdict, takes) := Judge(m, r);
      JudgeFair(m, r);
      if !takes {
        return Leaves(m.size);
      }
      messages := messages[1..];
      var port := ports[m.port];
      f := Fetches(m, port.seqno, verdict);
      port.log, port.held := port.log + [Stamped(m, port.seqno)], port.held + [m];
      port.seqno := (port.seqno + 1) % WORD;
    }
  }

  /** What a receiver finds: nothing yet, a message that it leaves, or one that it takes. */
  datatype Find = Waits | Leaves(size: nat) | Fetches(msg: Message, seqno: nat, verdict: Verdict)

  /** A receiver woken, and what it was told. */
  datatype Wakeup = Wakeup(thread: nat, verdict: Verdict)

  /** The receivers at the front of rs were each woken with the judgement of m. */
  ghost predicate Told(told: seq<Wakeup>, rs: seq<Receiver>, m: Message) {
    |told| <= |rs| && forall i :: 0 <= i < |told| ==> told[i] == Wakeup(rs[i].thread, Judge(m, rs[i]).0)
  }

  /** And each was told what its buffer and options make of m: only the last was handed the message, if anyone was. */
  ghost predicate FairlyTold(told: seq<Wakeup>, rs: seq<Receiver>, m: Message, handed: bool) {
    && |told| <= |rs| && (handed ==> told != [])
    && forall i :: 0 <= i < |told| ==> told[i].thread == rs[i].thread && Fair(m, rs[i], told[i].verdict, handed && i == |told| - 1)
  }

  /** Where a receiver woken with a verdict goes on in ipc_mqueue_receive: to the message handed to it, or away without one. */
  method Awake(r: Receiver, told: Verdict, ghost m: Message) returns (handed: bool)
    requires told == Judge(m, r).0
    ensures handed == Takes(r, m)
  {
    handed := true;
    if told == TooLarge {
      TooLargeTells(m, r);
      handed := !r.large && !r.oldFormat;
    }
  }

  class IpcPort {
    const id: nat
    var active: bool
    var pset: Maybe<nat>
    var msgcount: nat
    var qlimit: nat
    var seqno: nat
    var blocked: seq<Message>
    ghost var woken: seq<Message>
    ghost var held: seq<Message>
    ghost var sent: seq<Message>
    ghost var log: seq<Event>

    ghost function Value(): Port
      reads this
    {
      Port(active, pset, msgcount, qlimit, seqno, blocked, woken, held, sent, log)
    }

    constructor (id: nat, qlimit: nat)
      ensures this.id == id && Value() == Port(true, Nothing, 0, qlimit, 0, [], [], [], [], [])
    {
      this.id, active, pset := id, true, Nothing;
      msgcount, this.qlimit, seqno, blocked := 0, qlimit, 0, [];
      woken, held, sent, log := [], [], [], [];
    }

    /** The search for a receiver in ipc_mqueue_send and ipc_mqueue_move. */
    method Deliver(q: MessageQueue, m: Message) returns (told: seq<Wakeup>)
      modifies q, `seqno, `held, `log
      ensures (Value(), q.Value()) == Delivered(old(Value()), old(q.Value()), m)
      ensures Told(told, old(q.waiters), m) && q.waiters == old(q.waiters)[|told|..]
      ensures FairlyTold(told, old(q.waiters), m, q.messages == old(q.messages))
      ensures q.messages == old(q.messages) || (q.messages == old(q.messages) + [m] && q.waiters == [])
      ensures held == if q.messages == old(q.messages) then old(held) + [m] else old(held)
    {
      told := [];
      var done := false;
      while !done
        invariant Told(told, old(q.waiters), m) && q.waiters == old(q.waiters)[|told|..]
        invariant !done ==> Value() == old(Value()) && q.messages == old(q.messages)
        invariant FairlyTold(told, old(q.waiters), m, done && q.messages == old(q.messages))
        invariant done ==> q.messages == old(q.messages) || (q.messages == old(q.messages) + [m] && q.waiters == [])
        invariant done ==> held == if q.messages == old(q.messages) then old(held) + [m] else old(held)
        invariant !done ==> Delivered(Value(), q.Value(), m) == Delivered(old(Value()), old(q.Value()), m)
        invariant done ==> (Value(), q.Value()) == Delivered(old(Value()), old(q.Value()), m)
        decreases !done, |q.waiters|
      {
        if q.waiters == [] {
          q.messages := q.messages + [m];
          done := true;
        } else {
          var r := q.waiters[0];
          JudgeFair(m, r);
          if !Takes(r, m) {
            SkipOne(Value(), q.Value(), m);
          }
          q.waiters := q.waiters[1..];
          told := told + [Wakeup(r.thread, Judge(m, r).0)];
          if Takes(r, m) {
            log, held := log + [Stamped(m, seqno)], held + [m];
            seqno := (seqno + 1) % WORD;
            done := true;
          }
        }
      }
    }

    /** ipc_mqueue_move: the port's messages leave one queue for another, in order. */
    method Move(dest: MessageQueue, source: MessageQueue)
      requires dest != source
      modifies dest, source, `seqno, `held, `log
      ensures (Value(), dest.Value()) == Moved(old(Value()), old(dest.Value()), Of(old(source.messages), id))
      ensures source.Value() == Queue(NotOf(old(source.messages), id), old(source.waiters))
    {
      ghost var target, left := Moved(Value(), dest.Value(), Of(source.messages, id)), NotOf(source.messages, id);
      var kept, rest := [], source.messages;
      while rest != []
        invariant source.messages == kept + rest && source.waiters == old(source.waiters)
        invariant kept + NotOf(rest, id) == left && Moved(Value(), dest.Value(), Of(rest, id)) == target
        decreases |rest|
      {
        MovedStep(Value(), dest.Value(), rest, id);
        Regroup(kept, rest);
        Regroup(kept, [rest[0]] + NotOf(rest[1..], id));
        var kmsg := rest[0];
        rest := rest[1..];
        if kmsg.port != id {
          kept := kept + [kmsg];
        } else {
          source.messages := kept + rest;
          var _ := Deliver(dest, kmsg);
        }
      }
    }

    /** ipc_pset_add: the port's messages move to the set's queue, and its own receivers are woken. */
    method Join(t: nat, own: MessageQueue, q: MessageQueue)
      requires own != q && pset == Nothing && forall m :: m in own.messages ==> m.port == id
      modifies own, q, `pset, `seqno, `held, `log
      ensures (Value().(pset := Nothing), q.Value()) == Moved(old(Value()), old(q.Value()), old(own.messages))
      ensures pset == Just(t) && own.Value() == Queue([], [])
    {
      OfMember(own.messages, id);
      Move(q, own);
      var _ := own.Changed();
      MovedSending(old(Value()), old(q.Value()), old(own.messages));
      pset := Just(t);
    }

    /** ipc_pset_remove: the port's messages move from the set's queue to its own. */
    method Depart(own: MessageQueue, q: MessageQueue)
      requires own != q && pset.Just?
      modifies own, q, `pset, `seqno, `held, `log
      ensures (Value().(pset := old(pset)), own.Value()) == Moved(old(Value()), old(own.Value()), Of(old(q.messages), id))
      ensures pset == Nothing && q.Value() == Queue(NotOf(old(q.messages), id), old(q.waiters))
    {
      Move(own, q);
      MovedSending(old(Value()), old(own.Value()), Of(old(q.messages), id));
      pset := Nothing;
    }

    /** ipc_mqueue_send once the port is locked: whether the message was accepted, or its sender must wait. */
    method Send(q: MessageQueue, m: Message, force: bool) returns (waits: bool)
      modifies q, `msgcount, `seqno, `blocked, `held, `sent, `log
      ensures (Value(), q.Value()) == Submitted(old(Value()), old(q.Value()), m, force)
      ensures waits <==> old(active && msgcount >= qlimit) && !force
      ensures waits ==> blocked == old(blocked) + [m] && sent == old(sent) && msgcount == old(msgcount) && q.Value() == old(q.Value())
      ensures old(active) && !waits && !m.circular ==> sent == old(sent) + [m] && msgcount == old(msgcount) + 1 && blocked == old(blocked)
      ensures old(active) && !waits && !m.circular ==> q.messages == old(q.messages) + [m] || held == old(held) + [m]
      ensures !old(active) || (!waits && m.circular) ==> Value() == old(Value()) && q.Value() == old(q.Value())
    {
      waits := false;
      if active {
        if msgcount < qlimit || force {
          if !m.circular {
            msgcount, sent := msgcount + 1, sent + [m];
            var _ := Deliver(q, m);
          }
        } else {
          blocked, waits := blocked + [m], true;
        }
      }
    }

    /** The end of ipc_mqueue_receive, for the k-th message in the hands of a receiver. */
    method Finish(ghost k: nat)
      requires k < |held| && (active ==> msgcount > 0)
      modifies `msgcount, `blocked, `woken, `held
      ensures Value() == Finished(old(Value()), k)
      ensures multiset(held) == multiset(old(held)) - multiset{old(held)[k]} && msgcount == if active then old(msgcount) - 1 else old(msgcount)
      ensures if active && old(blocked) != [] && old(msgcount <= qlimit) then [old(blocked)[0]] + blocked == old(blocked) && woken == old(woken) + [old(blocked)[0]]
              else blocked == old(blocked) && woken == old(woken)
    {
      Split(held, k);
      held := Without(held, k);
      if active {
        msgcount := msgcount - 1;
        if blocked != [] && msgcount < qlimit {
          woken := woken + blocked[..1];
          blocked := blocked[1..];
        }
      }
    }

    /** ipc_port_destroy: every blocked sender is woken, to find the port dead. */
    method Die()
      modifies `active, `blocked, `woken
      ensures Value() == Wake(old(Value()), |old(blocked)|).(active := false)
      ensures !active && blocked == [] && woken == old(woken) + old(blocked)
    {
      active := false;
      ghost var i := 0;
      while blocked != []
        invariant i + |blocked| == |old(blocked)| && Value() == Wake(old(Value()), i).(active := false)
        decreases |blocked|
      {
        woken := woken + [blocked[0]];
        blocked := blocked[1..];
        i := i + 1;
        assert old(blocked)[..i] == old(blocked)[..i - 1] + [old(blocked)[i - 1]];
      }
    }

    /** ipc_port_set_qlimit: wakes the senders a higher limit makes room for. */
    method SetQlimit(n: nat)
      modifies `qlimit, `blocked, `woken
      ensures Value() == Limited(old(Value()), n)
      ensures qlimit == n && blocked == old(blocked)[|woken| - |old(woken)|..] && woken == old(woken) + old(blocked)[..|woken| - |old(woken)|]
      ensures |woken| - |old(woken)| == 0 || |woken| - |old(woken)| <= n - old(qlimit)
      ensures blocked != [] ==> |woken| - |old(woken)| >= n - old(qlimit)
    {
      if n > qlimit {
        var i, wakeup := 0, n - qlimit;
        while i < wakeup && blocked != []
          invariant i <= wakeup && i <= |old(blocked)|
          invariant Value() == Wake(old(Value()), i)
        {
          woken := woken + [blocked[0]];
          blocked := blocked[1..];
          i := i + 1;
          assert old(blocked)[..i] == old(blocked)[..i - 1] + [old(blocked)[i - 1]];
        }
      }
      qlimit := n;
    }
  }

  lemma MovedStep(p: Port, q: Queue, ms: seq<Message>, id: nat)
    requires ms != []
    ensures ms[0].port != id ==> Of(ms, id) == Of(ms[1..], id) && NotOf(ms, id) == [ms[0]] + NotOf(ms[1..], id)
    ensures ms[0].port == id ==> NotOf(ms, id) == NotOf(ms[1..], id)
    ensures ms[0].port == id ==> Moved(p, q, Of(ms, id)) == var (p', q') := Delivered(p, q, ms[0]); Moved(p', q', Of(ms[1..], id))
  {
    if ms[0].port == id {
      assert Of(ms, id)[0] == ms[0] && Of(ms, id)[1..] == Of(ms[1..], id);
    }
  }

  lemma Regroup<T>(a: seq<T>, b: seq<T>)
    requires b != []
    ensures a + b == a + [b[0]] + b[1..]
  {
  }

  /** A waiter that does not take the message makes no difference. */
  lemma SkipOne(p: Port, q: Queue, m: Message)
    requires q.waiters != [] && !Takes(q.waiters[0], m)
    ensures Delivered(p, q.(waiters := q.waiters[1..]), m) == Delivered(p, q, m)
  {
    var k := Taker(m, q.waiters[1..]);
    assert k < |q.waiters[1..]| ==> q.waiters[1..][k + 1..] == q.waiters[k + 2..];
  }
}
