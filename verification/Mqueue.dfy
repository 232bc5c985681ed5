/** Message queues: what ipc/ipc_mqueue.c does to one queue and one port, as values. */
module Mqueue {

  datatype Maybe<T> = Nothing | Just(value: T)

  /** A kmsg: its destination port, and what decides whether a receiver can take it. */
  datatype Message = Message(id: nat, port: nat, size: nat, oldFormat: bool, complex: bool, circular: bool)

  /** A thread waiting to receive: ith_msize and ith_rcv_option. */
  datatype Receiver = Receiver(thread: nat, msize: nat, trailer: nat, oldFormat: bool, large: bool)

  datatype Verdict = Success | HeaderError | TooLarge

  /** sizeof(mach_msg_header_t) */
  const HEADER := 24

  /** Sizes are unsigned 32-bit words: the subtraction of the trailer size wraps around. */
  function Room(r: Receiver): (room: nat)
    ensures r.trailer <= r.msize < 0x1_0000_0000 ==> room == r.msize - r.trailer
  {
    (r.msize - r.trailer) % 0x1_0000_0000
  }

  /** What a receiver is told about a message, and whether it is handed the message. */
  function Judge(m: Message, r: Receiver): (Verdict, bool) {
    if m.oldFormat then
      if !r.oldFormat then (HeaderError, true)
      else if m.size <= r.msize then (Success, true)
      else (TooLarge, false)
    else if r.oldFormat then
      if m.complex || m.size > HEADER || r.msize < HEADER then (HeaderError, true)
      else (Success, true)
    else if m.size > Room(r) then (TooLarge, !r.large)
    else (Success, true)
  }

  predicate Takes(r: Receiver, m: Message) {
    Judge(m, r).1
  }

  /**
   What a receiver is to be told about a message, and whether it is to be handed the message, by formats and sizes.
   Between new formats the message and the trailer must fit the buffer together; if the trailer alone does not fit,
   what is left of the buffer wraps around to a word.
   */
  ghost predicate Fair(m: Message, r: Receiver, verdict: Verdict, handed: bool) {
    && (m.oldFormat && !r.oldFormat ==> verdict == HeaderError && handed)
    && (m.oldFormat && r.oldFormat ==> verdict == (if m.size <= r.msize then Success else TooLarge) && (handed <==> m.size <= r.msize))
    && (!m.oldFormat && r.oldFormat ==> handed && verdict == if !m.complex && m.size <= HEADER <= r.msize then Success else HeaderError)
    && (!m.oldFormat && !r.oldFormat && r.trailer <= r.msize < 0x1_0000_0000 ==>
         && verdict == (if m.size + r.trailer <= r.msize then Success else TooLarge)
         && (handed <==> m.size + r.trailer <= r.msize || !r.large))
    && (!m.oldFormat && !r.oldFormat && r.msize < r.trailer <= 0x1_0000_0000 ==>
         && verdict == (if m.size + r.trailer <= r.msize + 0x1_0000_0000 then Success else TooLarge)
         && (handed <==> m.size + r.trailer <= r.msize + 0x1_0000_0000 || !r.large))
  }

  lemma JudgeFair(m: Message, r: Receiver)
    ensures Fair(m, r, Judge(m, r).0, Judge(m, r).1)
  {
    if r.msize < r.trailer <= 0x1_0000_0000 {
      assert (r.msize - r.trailer) % 0x1_0000_0000 == r.msize - r.trailer + 0x1_0000_0000;
    }
  }

  /** So Success means that message and trailer fit, exactly when the trailer does or the message is close to a whole word. */
  lemma SuccessFits(m: Message, r: Receiver)
    requires !m.oldFormat && !r.oldFormat && r.msize < 0x1_0000_0000 && r.trailer <= 0x1_0000_0000
    ensures (Judge(m, r).0 == Success <==> m.size + r.trailer <= r.msize) <==> (r.trailer <= r.msize || m.size + r.trailer > r.msize + 0x1_0000_0000)
  {
    JudgeFair(m, r);
  }

  /** A message of 24 bytes, a buffer of 4 and a trailer of 8: said to fit. */
  lemma TrailerWraps()
    ensures var m, r := Message(1, 0, 24, false, false, false), Receiver(0, 4, 8, false, true);
      Judge(m, r) == (Success, true) && m.size + r.trailer > r.msize
  {
    JudgeFair(Message(1, 0, 24, false, false, false), Receiver(0, 4, 8, false, true));
  }

  /** A woken receiver knows from its own options whether TOO_LARGE came with the message. */
  lemma TooLargeTells(m: Message, r: Receiver)
    requires Judge(m, r).0 == TooLarge
    ensures Takes(r, m) <==> !(r.large || r.oldFormat)
  {
  }

  datatype Queue = Queue(messages: seq<Message>, waiters: seq<Receiver>)

  /** A queue never holds both messages and receivers waiting for them. */
  predicate NotBoth(q: Queue) {
    q.messages == [] || q.waiters == []
  }

  /** The first waiter that takes m; those before it are woken and told it is too large. */
  ghost function Taker(m: Message, rs: seq<Receiver>): (k: nat)
    ensures k <= |rs| && (forall j :: 0 <= j < k ==> !Takes(rs[j], m)) && (k < |rs| ==> Takes(rs[k], m))
  {
    if rs == [] then 0
    else if Takes(rs[0], m) then 0
    else 1 + Taker(m, rs[1..])
  }

  /** What happens to a port's messages, in order: one is stamped and taken, or the sequence is reset. */
  datatype Event = Stamped(msg: Message, seqno: nat) | Reset(to: nat)

  const WORD := 0x1_0000_0000

  ghost function Expected(log: seq<Event>): nat {
    if log == [] then 0 else match log[|log| - 1] case Stamped(_, n) => (n + 1) % WORD case Reset(n) => n
  }

  /** Each stamp follows on from the event before it. */
  ghost predicate Consecutive(log: seq<Event>) {
    forall k :: 0 <= k < |log| && log[k].Stamped? ==> log[k].seqno == Expected(log[..k])
  }

  ghost function Taken(log: seq<Event>): seq<Message> {
    if log == [] then []
    else Taken(log[..|log| - 1]) + match log[|log| - 1] case Stamped(m, _) => [m] case Reset(_) => []
  }

  lemma Logged(log: seq<Event>, e: Event)
    requires Consecutive(log) && (e.Stamped? ==> e.seqno == Expected(log))
    ensures Consecutive(log + [e]) && Expected(log + [e]) == (if e.Stamped? then (e.seqno + 1) % WORD else e.to)
    ensures Taken(log + [e]) == Taken(log) + if e.Stamped? then [e.msg] else []
  {
    var more := log + [e];
    assert more[..|more| - 1] == log;
    forall k | 0 <= k < |more| && more[k].Stamped?
      ensures more[k].seqno == Expected(more[..k])
    {
      assert k < |log| ==> more[..k] == log[..k];
    }
  }

  /** The messages of ms sent to the port p, in order; and the others. */
  ghost function Of(ms: seq<Message>, p: nat): seq<Message> {
    if ms == [] then [] else (if ms[0].port == p then [ms[0]] else []) + Of(ms[1..], p)
  }

  ghost function NotOf(ms: seq<Message>, p: nat): seq<Message> {
    if ms == [] then [] else (if ms[0].port != p then [ms[0]] else []) + NotOf(ms[1..], p)
  }

  lemma {:induction false} OfPlus(a: seq<Message>, b: seq<Message>, p: nat)
    ensures Of(a + b, p) == Of(a, p) + Of(b, p)
  {
    if a == [] {
      assert a + b == b;
    } else {
      var first := if a[0].port == p then [a[0]] else [];
      assert (a + b)[1..] == a[1..] + b;
      assert Of(a + b, p) == first + Of(a[1..] + b, p);
      OfPlus(a[1..], b, p);
      assert first + (Of(a[1..], p) + Of(b, p)) == (first + Of(a[1..], p)) + Of(b, p);
    }
  }

  lemma {:induction false} OfMember(ms: seq<Message>, p: nat)
    ensures forall m :: m in Of(ms, p) <==> m in ms && m.port == p
    ensures forall m :: m in NotOf(ms, p) <==> m in ms && m.port != p
    ensures (forall m :: m in ms ==> m.port == p) ==> Of(ms, p) == ms && NotOf(ms, p) == []
  {
    if ms != [] {
      OfMember(ms[1..], p);
      assert ms == [ms[0]] + ms[1..];
    }
  }

  lemma {:induction false} OfNone(ms: seq<Message>, p: nat)
    requires forall m :: m in ms ==> m.port != p
    ensures Of(ms, p) == []
  {
    if ms != [] {
      OfNone(ms[1..], p);
    }
  }

  lemma {:induction false} OfNotOf(ms: seq<Message>, p: nat, r: nat)
    ensures Of(NotOf(ms, p), r) == if r == p then [] else Of(ms, r)
  {
    if ms != [] {
      OfNotOf(ms[1..], p, r);
      if ms[0].port != p {
        assert NotOf(ms, p) == [ms[0]] + NotOf(ms[1..], p);
        OfPlus([ms[0]], NotOf(ms[1..], p), r);
        assert Of([ms[0]], r) == if ms[0].port == r then [ms[0]] else [];
      } else {
        assert NotOf(ms, p) == NotOf(ms[1..], p);
      }
    }
  }

  /** A port as the message code sees it.  The last three are its history. */
  datatype Port = Port(
    active: bool,             // ip_active
    pset: Maybe<nat>,         // ip_pset
    msgcount: nat,            // ip_msgcount
    qlimit: nat,              // ip_qlimit
    seqno: nat,               // ip_seqno
    blocked: seq<Message>,    // ip_blocked: senders waiting for room, by their messages
    woken: seq<Message>,      // senders woken and not yet resumed
    held: seq<Message>,       // messages with receivers that have not yet finished
    sent: seq<Message>,       // accepted, in order
    log: seq<Event>           // taken, in order
  )

  /** Hands m to the first waiter that takes it, or else queues it. */
  ghost function Delivered(p: Port, q: Queue, m: Message): (Port, Queue) {
    var k := Taker(m, q.waiters);
    if k == |q.waiters| then (p, Queue(q.messages + [m], []))
    else (Stamp(p, m), Queue(q.messages, q.waiters[k + 1..]))
  }

  ghost function Stamp(p: Port, m: Message): Port {
    p.(seqno := (p.seqno + 1) % WORD, log := p.log + [Stamped(m, p.seqno)], held := p.held + [m])
  }

  ghost predicate Numbered(p: Port) {
    Consecutive(p.log) && p.seqno == Expected(p.log)
  }

  /** What the port accepted is what was taken from it, then what is queued, then what is yet to come. */
  ghost predicate InOrder(id: nat, p: Port, queued: seq<Message>, coming: seq<Message>) {
    p.sent == Taken(p.log) + Of(queued, id) + coming
  }

  ghost predicate Counted(id: nat, p: Port, queued: seq<Message>, coming: nat) {
    p.msgcount == |Of(queued, id)| + |p.held| + coming
  }

  lemma DeliveredKeeps(id: nat, p: Port, q: Queue, m: Message, coming: seq<Message>)
    requires Numbered(p) && NotBoth(q) && m.port == id
    requires InOrder(id, p, q.messages, [m] + coming) && Counted(id, p, q.messages, 1 + |coming|)
    ensures var (p', q') := Delivered(p, q, m);
      Numbered(p') && NotBoth(q') && InOrder(id, p', q'.messages, coming) && Counted(id, p', q'.messages, |coming|)
  {
    OfPlus(q.messages, [m], id);
    Logged(p.log, Stamped(m, p.seqno));
    assert Of([m], id) == [m];
    assert p.sent == Taken(p.log) + (Of(q.messages, id) + [m]) + coming;
    if Taker(m, q.waiters) < |q.waiters| {
      assert Of(q.messages, id) == [];
      assert p.sent == (Taken(p.log) + [m]) + [] + coming;
    }
  }

  lemma DeliveredOthers(p: Port, q: Queue, m: Message, r: nat)
    requires m.port != r
    ensures Of(Delivered(p, q, m).1.messages, r) == Of(q.messages, r)
  {
    OfPlus(q.messages, [m], r);
  }

  /** ipc_mqueue_move: the messages ms of a port go, in order, to another queue. */
  ghost function Moved(p: Port, q: Queue, ms: seq<Message>): (Port, Queue)
    decreases |ms|
  {
    if ms == [] then (p, q) else
      var (p', q') := Delivered(p, q, ms[0]);
      Moved(p', q', ms[1..])
  }

  lemma {:induction false} MovedKeeps(id: nat, p: Port, q: Queue, ms: seq<Message>)
    requires Numbered(p) && NotBoth(q) && forall m :: m in ms ==> m.port == id
    requires InOrder(id, p, q.messages, ms) && Counted(id, p, q.messages, |ms|)
    ensures var (p', q') := Moved(p, q, ms);
      Numbered(p') && NotBoth(q') && InOrder(id, p', q'.messages, []) && Counted(id, p', q'.messages, 0)
    decreases |ms|
  {
    if ms != [] {
      assert ms == [ms[0]] + ms[1..];
      DeliveredKeeps(id, p, q, ms[0], ms[1..]);
      var (p', q') := Delivered(p, q, ms[0]);
      MovedKeeps(id, p', q', ms[1..]);
    }
  }

  /** What a delivery does not change. */
  ghost predicate SameSending(p: Port, p': Port) {
    p' == p.(seqno := p'.seqno, log := p'.log, held := p'.held)
  }

  lemma {:induction false} MovedFrame(id: nat, p: Port, q: Queue, ms: seq<Message>, r: nat)
    requires r != id && forall m :: m in ms ==> m.port == id
    ensures SameSending(p, Moved(p, q, ms).0) && Of(Moved(p, q, ms).1.messages, r) == Of(q.messages, r)
    ensures forall m :: m in Moved(p, q, ms).1.messages ==> m in q.messages || m in ms
    decreases |ms|
  {
    if ms != [] {
      assert ms == [ms[0]] + ms[1..];
      var (p', q') := Delivered(p, q, ms[0]);
      DeliveredOthers(p, q, ms[0], r);
      MovedFrame(id, p', q', ms[1..], r);
    }
  }

  /** No lost wakeups: senders wait only while as many are on their way as there is room for. */
  ghost predicate Roused(p: Port) {
    p.blocked == [] || |p.woken| >= p.qlimit - p.msgcount
  }

  /** A port and the messages queued for it are as they should be. */
  ghost predicate PortOk(id: nat, p: Port, queued: seq<Message>) {
    Numbered(p) && (p.active ==> InOrder(id, p, queued, []) && Counted(id, p, queued, 0))
  }

  /** A queue changes only in messages of the port id. */
  ghost predicate OnlyMine(id: nat, q: Queue, q': Queue) {
    && (forall r :: r != id ==> Of(q'.messages, r) == Of(q.messages, r))
    && (forall m :: m in q'.messages ==> m in q.messages || m.port == id)
  }

  /** The loop body of ipc_mqueue_send: a message is dropped, accepted, or its sender blocks. */
  ghost function Submitted(p: Port, q: Queue, m: Message, force: bool): (Port, Queue) {
    if !p.active then (p, q)
    else if p.msgcount < p.qlimit || force then
      if m.circular then (p, q)
      else Delivered(p.(msgcount := p.msgcount + 1, sent := p.sent + [m]), q, m)
    else (p.(blocked := p.blocked + [m]), q)
  }

  lemma SubmittedKeeps(id: nat, p: Port, q: Queue, m: Message, force: bool)
    requires PortOk(id, p, q.messages) && NotBoth(q) && m.port == id
    ensures var (p', q') := Submitted(p, q, m, force);
      && PortOk(id, p', q'.messages) && NotBoth(q') && OnlyMine(id, q, q') && p'.active == p.active && p'.pset == p.pset
      && (!p.active ==> q' == q)
  {
    if p.active && (p.msgcount < p.qlimit || force) && !m.circular {
      var p1 := p.(msgcount := p.msgcount + 1, sent := p.sent + [m]);
      assert p1.sent == Taken(p1.log) + Of(q.messages, id) + ([m] + []);
      DeliveredKeeps(id, p1, q, m, []);
      forall r | r != id
        ensures Of(Delivered(p1, q, m).1.messages, r) == Of(q.messages, r)
      {
        DeliveredOthers(p1, q, m, r);
      }
    }
  }

  /** A new sender never causes a wakeup to be lost. */
  lemma SubmittedRoused(p: Port, q: Queue, m: Message, force: bool)
    requires p.active ==> Roused(p)
    ensures p.active ==> Roused(Submitted(p, q, m, force).0)
  {
  }

  ghost function Without<T>(s: seq<T>, k: nat): seq<T>
    requires k < |s|
  {
    s[..k] + s[k + 1..]
  }

  /** A woken sender goes round the loop again. */
  ghost function Resumed(p: Port, q: Queue, k: nat): (Port, Queue)
    requires k < |p.woken|
  {
    Submitted(p.(woken := Without(p.woken, k)), q, p.woken[k], false)
  }

  /** A woken sender of a circular message takes a place in the queue it does not use. */
  ghost predicate Wasted(p: Port, k: nat)
    requires k < |p.woken|
  {
    p.woken[k].circular && p.msgcount < p.qlimit && p.blocked != [] && |p.woken| == p.qlimit - p.msgcount
  }

  /** That is exactly when a wakeup is lost. */
  lemma ResumedRoused(p: Port, q: Queue, k: nat)
    requires p.active && Roused(p) && k < |p.woken|
    ensures Roused(Resumed(p, q, k).0) <==> !Wasted(p, k)
  {
  }

  /** A sender whose wait timed out leaves the queue, and sends if there is room by now. */
  ghost function TimedOut(p: Port, q: Queue, k: nat): (Port, Queue)
    requires k < |p.blocked|
  {
    var p1 := p.(blocked := Without(p.blocked, k));
    if p.active && p.msgcount >= p.qlimit then (p1, q) else Submitted(p1, q, p.blocked[k], false)
  }

  lemma TimedOutRoused(p: Port, q: Queue, k: nat)
    requires k < |p.blocked| && (p.active ==> Roused(p))
    ensures p.active ==> Roused(TimedOut(p, q, k).0)
  {
  }

  /** The end of ipc_mqueue_receive: one message fewer, and the first blocked sender if there is room. */
  ghost function Finished(p: Port, k: nat): Port
    requires k < |p.held|
  {
    var p1 := p.(held := Without(p.held, k));
    if !p.active || p.msgcount == 0 then p1
    else
      var p2 := p1.(msgcount := p.msgcount - 1);
      if p.blocked != [] && p2.msgcount < p.qlimit then Wake(p2, 1) else p2
  }

  /** Wakes the first n blocked senders. */
  ghost function Wake(p: Port, n: nat): Port
    requires n <= |p.blocked|
  {
    p.(blocked := p.blocked[n..], woken := p.woken + p.blocked[..n])
  }

  lemma FinishedKeeps(id: nat, p: Port, q: Queue, k: nat)
    requires PortOk(id, p, q.messages) && k < |p.held|
    ensures PortOk(id, Finished(p, k), q.messages) && (p.active ==> p.msgcount > 0)
    ensures p.active && Roused(p) ==> Roused(Finished(p, k))
  {
  }

  /** ipc_port_set_qlimit */
  ghost function Limited(p: Port, n: nat): Port {
    Wake(p, Allowed(p, n)).(qlimit := n)
  }

  /** How many blocked senders a new limit makes room for. */
  ghost function Allowed(p: Port, n: nat): (k: nat)
    ensures k <= |p.blocked|
  {
    if n <= p.qlimit then 0 else if n - p.qlimit <= |p.blocked| then n - p.qlimit else |p.blocked|
  }

  lemma LimitedRoused(p: Port, n: nat)
    requires Roused(p)
    ensures Roused(Limited(p, n))
  {
  }

  /** The start of ipc_mqueue_receive, when the first message is m and the receiver takes it. */
  lemma FetchedKeeps(id: nat, p: Port, q: Queue)
    requires PortOk(id, p, q.messages) && q.messages != [] && q.messages[0].port == id
    ensures PortOk(id, Stamp(p, q.messages[0]), q.messages[1..])
    ensures OnlyMine(id, q, q.(messages := q.messages[1..]))
  {
    var m, rest := q.messages[0], q.messages[1..];
    assert q.messages == [m] + rest && Of(q.messages, id) == [m] + Of(rest, id);
    Logged(p.log, Stamped(m, p.seqno));
    if p.active {
      assert p.sent == (Taken(p.log) + [m]) + Of(rest, id) + [];
    }
  }

  /** A sequence number set from outside. */
  ghost function Renumbered(p: Port, n: nat): Port {
    p.(seqno := n, log := p.log + [Reset(n)])
  }

  lemma RenumberedKeeps(id: nat, p: Port, queued: seq<Message>, n: nat)
    requires PortOk(id, p, queued)
    ensures PortOk(id, Renumbered(p, n), queued)
  {
    Logged(p.log, Reset(n));
  }

  /** Every message a port was ever given, and has not dropped, is its own and there once. */
  ghost predicate Own(id: nat, p: Port) {
    forall m :: multiset(p.sent + p.blocked + p.woken)[m] <= (if m.port == id then 1 else 0)
  }

  lemma Split<T>(s: seq<T>, k: nat)
    requires k < |s|
    ensures multiset(s) == multiset(Without(s, k)) + multiset{s[k]}
  {
    assert s == s[..k] + [s[k]] + s[k + 1..];
  }

  lemma OwnSubmitted(id: nat, p: Port, q: Queue, m: Message, force: bool)
    requires forall x :: multiset(p.sent + p.blocked + p.woken + [m])[x] <= if x.port == id then 1 else 0
    ensures Own(id, Submitted(p, q, m, force).0)
  {
    SubmittedMessages(p, q, m, force);
  }

  lemma SubmittedMessages(p: Port, q: Queue, m: Message, force: bool)
    ensures var p' := Submitted(p, q, m, force).0; multiset(p'.sent + p'.blocked + p'.woken) <= multiset(p.sent + p.blocked + p.woken + [m])
  {
  }

  lemma OwnLess(id: nat, p: Port, p': Port)
    requires Own(id, p) && multiset(p'.sent + p'.blocked + p'.woken) <= multiset(p.sent + p.blocked + p.woken)
    ensures Own(id, p')
  {
  }

  lemma OwnResumed(id: nat, p: Port, q: Queue, k: nat)
    requires Own(id, p) && k < |p.woken|
    ensures p.woken[k].port == id && Own(id, Resumed(p, q, k).0)
  {
    Split(p.woken, k);
    var p1 := p.(woken := Without(p.woken, k));
    assert multiset(p.sent + p.blocked + p.woken) == multiset(p1.sent + p1.blocked + p1.woken + [p.woken[k]]);
    assert p.woken[k] in multiset(p.sent + p.blocked + p.woken);
    OwnSubmitted(id, p1, q, p.woken[k], false);
  }

  lemma OwnTimedOut(id: nat, p: Port, q: Queue, k: nat)
    requires Own(id, p) && k < |p.blocked|
    ensures p.blocked[k].port == id && Own(id, TimedOut(p, q, k).0) && Own(id, p.(blocked := Without(p.blocked, k)))
  {
    Split(p.blocked, k);
    var p1 := p.(blocked := Without(p.blocked, k));
    assert multiset(p.sent + p.blocked + p.woken) == multiset(p1.sent + p1.blocked + p1.woken + [p.blocked[k]]);
    assert p.blocked[k] in multiset(p.sent + p.blocked + p.woken);
    OwnSubmitted(id, p1, q, p.blocked[k], false);
    OwnLess(id, p, p1);
  }

  lemma OwnWoken(id: nat, p: Port, n: nat)
    requires Own(id, p) && n <= |p.blocked|
    ensures Own(id, Wake(p, n))
  {
    assert p.blocked == p.blocked[..n] + p.blocked[n..];
    assert multiset(p.sent + p.blocked + p.woken) == multiset(Wake(p, n).sent + Wake(p, n).blocked + Wake(p, n).woken);
  }

  lemma OwnFinished(id: nat, p: Port, k: nat)
    requires Own(id, p) && k < |p.held|
    ensures Own(id, Finished(p, k))
  {
    if p.blocked != [] {
      OwnWoken(id, p, 1);
    }
  }

  lemma TimedOutKeeps(id: nat, p: Port, q: Queue, k: nat)
    requires PortOk(id, p, q.messages) && NotBoth(q) && k < |p.blocked| && p.blocked[k].port == id
    ensures var (p', q') := TimedOut(p, q, k);
      PortOk(id, p', q'.messages) && NotBoth(q') && OnlyMine(id, q, q') && p'.active == p.active && p'.pset == p.pset
  {
    SubmittedKeeps(id, p.(blocked := Without(p.blocked, k)), q, p.blocked[k], false);
  }

  lemma LimitedKeeps(id: nat, p: Port, queued: seq<Message>, n: nat)
    requires PortOk(id, p, queued)
    ensures PortOk(id, Limited(p, n), queued)
  {
  }

  lemma OwnLimited(id: nat, p: Port, n: nat)
    requires Own(id, p)
    ensures Own(id, Limited(p, n))
  {
    var w := Wake(p, Allowed(p, n));
    OwnWoken(id, p, Allowed(p, n));
    OwnLess(id, w, w.(qlimit := n));
  }

  /** The messages of a port move from one queue to another that has none of them yet. */
  lemma MovedOver(id: nat, p: Port, from: Queue, to: Queue)
    requires PortOk(id, p, from.messages) && p.active && NotBoth(to) && forall m :: m in to.messages ==> m.port != id
    ensures var (p', to') := Moved(p, to, Of(from.messages, id));
      PortOk(id, p', to'.messages) && NotBoth(to') && SameSending(p, p') && OnlyMine(id, to, to')
  {
    var ms := Of(from.messages, id);
    OfMember(from.messages, id);
    OfNone(to.messages, id);
    assert p.sent == Taken(p.log) + [] + ms;
    MovedKeeps(id, p, to, ms);
    forall r | r != id
      ensures Of(Moved(p, to, ms).1.messages, r) == Of(to.messages, r)
    {
      MovedFrame(id, p, to, ms, r);
    }
    MovedFrame(id, p, to, ms, id + 1);
  }

  lemma {:induction false} MovedSending(p: Port, q: Queue, ms: seq<Message>)
    ensures SameSending(p, Moved(p, q, ms).0)
    decreases |ms|
  {
    if ms != [] {
      var (p', q') := Delivered(p, q, ms[0]);
      MovedSending(p', q', ms[1..]);
    }
  }

  lemma FinishedRoused(p: Port, k: nat)
    requires k < |p.held| && (p.active ==> Roused(p))
    ensures p.active ==> Roused(Finished(p, k))
  {
  }
}
