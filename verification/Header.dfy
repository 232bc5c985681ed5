/**
 Message headers with two ports: ipc_kmsg_copyin_header and ipc_kmsg_copyout_header of ipc/ipc_kmsg.c look at
 the ports one after the other, and a port may die between any two of those looks.
 */
module Headers {
  import opened MachPort
  import opened Rights
  import opened References

  // ------------------------------------------------------------ instants and timestamps

  /** Instants are counted in deaths of ports: at instant t, the deaths numbered below t have happened. */
  datatype Death = Never | After(n: nat)

  predicate AliveAt(d: Death, t: nat) {
    d.Never? || t <= d.n
  }

  /** A port's ip_timestamp is the number of its death, in 32 bits. */
  const WORD := 0x1_0000_0000
  const HALF := 0x8000_0000

  function Stamp(n: nat): nat {
    n % WORD
  }

  /** IP_TIMESTAMP_ORDER: the difference, as a signed word, is negative. */
  predicate Ordered(one: nat, two: nat) {
    (one - two) % WORD >= HALF
  }

  /** The comparison of timestamps says how far apart the deaths are round the word. */
  lemma StampsExact(a: nat, b: nat)
    ensures Ordered(Stamp(a), Stamp(b)) <==> 1 <= (b - a) % WORD <= HALF
  {
  }

  /** It is the order of the deaths when fewer than 2^31 others lie between. */
  lemma StampsNear(a: nat, b: nat)
    requires -HALF < b - a <= HALF
    ensures Ordered(Stamp(a), Stamp(b)) <==> a < b
  {
  }

  // ------------------------------------------------------------ copyin

  /** ipc_right_copyin_check: would a copyin, where dead names do, succeed? */
  predicate CopyinCheck(r: Right, d: Disposition, alive: bool) {
    if d == MakeSend || d == MakeOnce || d == MoveReceive then HasReceive(r)
    else if r.kind == DeadName then true
    else if !HasSend(r) && !HasOnce(r) then false
    else if !alive then true
    else if d == MoveOnce then HasOnce(r) else HasSend(r)
  }

  lemma CheckExact(r: Right, d: Disposition, alive: bool)
    ensures CopyinCheck(r, d, alive) <==> CopiedIn(r, d, alive, true).yield' != Refused
  {
  }

  /** ipc_right_copyin_undo, on the entry as the copyin left it. */
  function Undone(e: Effect, d: Disposition): Right {
    if e.cancels then Right(DeadName, 2, IO_NULL, 0)
    else if e.right.kind == None then Right(DeadName, 1, IO_NULL, 0)
    else
      var r := if d != CopySend then Plus(e.right, 1) else e.right;
      if r.kind == DeadName then r else Died(r)
  }

  /** It leaves the entry exactly as turning the untouched entry into a dead name would. */
  lemma UndoIsDeath(r: Right, d: Disposition, alive: bool, deadok: bool)
    requires Sane(r) && (r.kind == Send || r.kind == SendOnce)
    requires CopiedIn(r, d, alive, deadok).yield' != Refused
    ensures Undone(CopiedIn(r, d, alive, deadok).effect, d) == Died(r)
  {
  }

  /** What is told to whoever asked to know that the name goes or dies. */
  datatype Told = Nothing | PortDeleted | PortDied

  /** An entry as anyone can find it after the call: one for a dead port is, at any look, a dead name. */
  datatype Seen = Seen(right: Right, told: Told)

  function Look(r: Right, e: Effect, dead: bool): Seen {
    Seen(if NamesPort(e.right) && dead then Died(e.right) else e.right,
         if e.cancels then PortDeleted else if r.request != 0 && dead then PortDied else Nothing)
  }

  /** After an undone copyin a cancelled request is told of the death after all. */
  function LookUndone(r: Right, e: Effect, d: Disposition): Seen {
    Seen(Undone(e, d), if e.cancels || r.request != 0 then PortDied else Nothing)
  }

  /** What can be seen of a port afterwards: the change of its counts and a right handed back in a notification, while it lives. */
  datatype PortSeen = PortSeen(sends: int, onces: int, returned: bool)

  function SeenOf(alive: bool, sends: int, onces: int, returned: bool): PortSeen {
    if alive then PortSeen(sends, onces, returned) else PortSeen(0, 0, false)
  }

  datatype Result = Success | InvalidDest | InvalidReply

  /** The result, what the message holds for the reply port, the two entries and the two ports. */
  datatype Outcome = Outcome(result: Result, reply: Yield, destEntry: Seen, replyEntry: Seen, dest: PortSeen, replyPort: PortSeen)

  /** What is seen, at the end, of the effects on the two entries and their ports. */
  function Resulting(c: Call, result: Result, reply: Yield, e: Effect, f: Effect, end: nat): Outcome {
    var destLives, replyLives := AliveAt(c.destDeath, end), AliveAt(c.replyDeath, end);
    Outcome(result, reply, Look(c.dest, e, !destLives), Look(c.reply, f, !replyLives),
            SeenOf(destLives, e.sends, e.onces, false), SeenOf(replyLives, f.sends, f.onces, false))
  }

  /** Two names with different entries, what is to be done with them, and the fates of their ports. */
  datatype Call = Call(dest: Right, destType: Disposition, reply: Right, replyType: Disposition, destDeath: Death, replyDeath: Death)

  /** When the reply is checked, when each right is copied in, and when the timestamps are read. */
  datatype Looks = Looks(check: nat, dest: nat, reply: nat, stamp: nat)

  /** The looks come in order; with the space locked, a port whose receive right is in it does not die. */
  predicate Legal(c: Call, l: Looks) {
    && Sane(c.dest) && Sane(c.reply) && c.destType != MoveReceive && c.replyType != MoveReceive
    && l.check <= l.dest <= l.reply <= l.stamp
    && (HasReceive(c.dest) ==> AliveAt(c.destDeath, l.stamp)) && (HasReceive(c.reply) ==> AliveAt(c.replyDeath, l.stamp))
  }

  /** The whole copyin at the instant t, seen at the instant end. */
  function AtOnce(c: Call, t: nat, end: nat): Outcome {
    var dest := CopiedIn(c.dest, c.destType, AliveAt(c.destDeath, t), false);
    var reply := CopiedIn(c.reply, c.replyType, AliveAt(c.replyDeath, t), true);
    if !CopyinCheck(c.reply, c.replyType, AliveAt(c.replyDeath, t)) then Resulting(c, InvalidReply, Refused, Same(c.dest), Same(c.reply), end)
    else if dest.yield' == Refused then Resulting(c, InvalidDest, Refused, dest.effect, Same(c.reply), end)
    else Resulting(c, Success, reply.yield', dest.effect, reply.effect, end)
  }

  /**
   When it succeeds: the reply name has the right asked for, or it or its port is dead; the destination's has the
   right asked for, and its port lives.  Otherwise neither entry loses anything.
   */
  lemma AtOnceExact(c: Call, t: nat, end: nat)
    requires t <= end && Usual(c.dest, AliveAt(c.destDeath, end)) && Usual(c.reply, AliveAt(c.replyDeath, end))
    ensures var o, reply, dest := AtOnce(c, t, end), AliveAt(c.replyDeath, t), AliveAt(c.destDeath, t);
      && (o.result == InvalidReply <==> !(Offers(c.reply, c.replyType) || (!OfReceive(c.replyType) && AsFound(c.reply, reply).kind == DeadName)))
      && (o.result == Success <==> o.result != InvalidReply && Offers(c.dest, c.destType) && (dest || OfReceive(c.destType)))
      && (o.result == Success ==> o.reply == if Offers(c.reply, c.replyType) && (reply || OfReceive(c.replyType)) then Got else Dead)
      && (o.result != Success ==> o.destEntry.right == AsFound(c.dest, AliveAt(c.destDeath, end)) && o.replyEntry.right == AsFound(c.reply, AliveAt(c.replyDeath, end)))
  {
    CopyinYields(c.reply, c.replyType, AliveAt(c.replyDeath, t), true);
    CopyinYields(c.dest, c.destType, AliveAt(c.destDeath, t), false);
    CopyinLeaves(c.dest, c.destType, AliveAt(c.destDeath, t), false);
    CheckExact(c.reply, c.replyType, AliveAt(c.replyDeath, t));
  }

  /** And what success does to the entries and ports that live on: one right of each kind asked for goes into the message. */
  lemma AtOnceRights(c: Call, t: nat, end: nat)
    requires t <= end && Usual(c.dest, AliveAt(c.destDeath, end)) && Usual(c.reply, AliveAt(c.replyDeath, end)) && AtOnce(c, t, end).result == Success
    ensures var o := AtOnce(c, t, end);
      && (AliveAt(c.destDeath, end) ==> CopiedFrom(c.dest, c.destType, o.destEntry.right) && Counted(c.dest, c.destType, o.destEntry.right, o.dest))
      && (AliveAt(c.replyDeath, end) && o.reply == Got ==> CopiedFrom(c.reply, c.replyType, o.replyEntry.right) && Counted(c.reply, c.replyType, o.replyEntry.right, o.replyPort))
  {
    if AliveAt(c.destDeath, end) {
      CopyinSeen(c.dest, c.destType, false);
    }
    if AliveAt(c.replyDeath, end) && AtOnce(c, t, end).reply == Got {
      CopyinSeen(c.reply, c.replyType, true);
    }
  }

  /** The port counts the right in the message and the change of those in the entry. */
  ghost predicate Counted(r: Right, d: Disposition, e: Right, p: PortSeen) {
    && p.sends == Bit(d == CopySend || d == MoveSend || d == MakeSend) + Bit(HasSend(e)) - Bit(HasSend(r))
    && p.onces == Bit(d == MoveOnce || d == MakeOnce) + Bit(HasOnce(e)) - Bit(HasOnce(r)) && !p.returned
  }

  lemma CopyinSeen(r: Right, d: Disposition, deadok: bool)
    requires Sane(r) && CopiedIn(r, d, true, deadok).yield' == Got
    ensures var e := CopiedIn(r, d, true, deadok).effect; CopiedFrom(r, d, e.right) && Counted(r, d, e.right, SeenOf(true, e.sends, e.onces, false))
  {
    CopyinCopies(r, d, true, deadok);
    CopyinCarries(r, d, true, deadok);
    CopyinKeeps(r, d, true, deadok);
  }

  /** What the code does, looking at the ports at the instants l. */
  function Performed(c: Call, l: Looks): Outcome {
    var dest := CopiedIn(c.dest, c.destType, AliveAt(c.destDeath, l.dest), false);
    var reply := CopiedIn(c.reply, c.replyType, AliveAt(c.replyDeath, l.reply), true);
    if !CopyinCheck(c.reply, c.replyType, AliveAt(c.replyDeath, l.check)) then Resulting(c, InvalidReply, Refused, Same(c.dest), Same(c.reply), l.stamp)
    else if dest.yield' == Refused then Resulting(c, InvalidDest, Refused, dest.effect, Same(c.reply), l.stamp)
    else if MustUndo(c, l, reply.yield') then
      Outcome(InvalidDest, Refused, LookUndone(c.dest, dest.effect, c.destType), LookUndone(c.reply, reply.effect, c.replyType),
              SeenOf(false, 0, 0, false), SeenOf(false, 0, 0, false))
    else Resulting(c, Success, reply.yield', dest.effect, reply.effect, l.stamp)
  }

  /** The reply port was found dead, and the timestamps say that the destination died before it. */
  predicate MustUndo(c: Call, l: Looks, reply: Yield) {
    && NamesPort(c.reply) && reply == Dead && c.replyDeath.After?
    && !AliveAt(c.destDeath, l.stamp) && Ordered(Stamp(c.destDeath.n), Stamp(c.replyDeath.n))
  }

  /** The code's outcome is that of doing everything at one instant of the call. */
  ghost predicate Serializes(c: Call, l: Looks) {
    exists t: nat :: l.check <= t <= l.stamp && Performed(c, l) == AtOnce(c, t, l.stamp)
  }

  /**
   Both copyins are done, the destination dying after its own and not after the reply port, which is dead by its;
   but the timestamps do not say so.
   */
  predicate Misjudged(c: Call, l: Looks) {
    && CopyinCheck(c.reply, c.replyType, AliveAt(c.replyDeath, l.check))
    && CopiedIn(c.dest, c.destType, AliveAt(c.destDeath, l.dest), false).yield' != Refused
    && NamesPort(c.dest) && NamesPort(c.reply)
    && c.destDeath.After? && c.replyDeath.After? && l.dest <= c.destDeath.n <= c.replyDeath.n < l.reply
    && !Ordered(Stamp(c.destDeath.n), Stamp(c.replyDeath.n))
  }

  /** Once dead always dead: the check holds later too. */
  lemma CheckLasts(c: Call, s: nat, t: nat)
    requires s <= t && CopyinCheck(c.reply, c.replyType, AliveAt(c.replyDeath, s))
    ensures CopyinCheck(c.reply, c.replyType, AliveAt(c.replyDeath, t))
  {
  }

  /** The instant at which the outcome is that of the whole call. */
  function Instant(c: Call, l: Looks): nat {
    if !CopyinCheck(c.reply, c.replyType, AliveAt(c.replyDeath, l.check)) then l.check
    else if CopiedIn(c.dest, c.destType, AliveAt(c.destDeath, l.dest), false).yield' == Refused then l.dest
    else if AliveAt(c.replyDeath, l.reply) || !NamesPort(c.reply) then l.dest
    else if AliveAt(c.destDeath, l.stamp) || Ordered(Stamp(c.destDeath.n), Stamp(c.replyDeath.n)) then l.stamp
    else if c.replyDeath.n + 1 > l.dest then c.replyDeath.n + 1
    else l.dest
  }

  /** A dead destination refuses, leaving a dead name; the same as the undone copyins. */
  lemma UndoneAtEnd(c: Call, l: Looks)
    requires Legal(c, l) && CopyinCheck(c.reply, c.replyType, AliveAt(c.replyDeath, l.check))
    requires CopiedIn(c.dest, c.destType, AliveAt(c.destDeath, l.dest), false).yield' != Refused
    requires MustUndo(c, l, CopiedIn(c.reply, c.replyType, AliveAt(c.replyDeath, l.reply), true).yield')
    ensures Performed(c, l) == AtOnce(c, l.stamp, l.stamp)
  {
    CheckLasts(c, l.check, l.reply);
    CheckLasts(c, l.check, l.stamp);
    CheckExact(c.reply, c.replyType, AliveAt(c.replyDeath, l.reply));
    DestNames(c, l);
    UndoIsDeath(c.dest, c.destType, AliveAt(c.destDeath, l.dest), false);
    UndoIsDeath(c.reply, c.replyType, AliveAt(c.replyDeath, l.reply), true);
  }

  /** Where the destination is copied in and dies, its entry had no receive right. */
  lemma DestNames(c: Call, l: Looks)
    requires Legal(c, l) && !AliveAt(c.destDeath, l.stamp)
    requires CopiedIn(c.dest, c.destType, AliveAt(c.destDeath, l.dest), false).yield' != Refused
    ensures (c.dest.kind == Send || c.dest.kind == SendOnce) && AliveAt(c.destDeath, l.dest)
  {
  }

  lemma SerializesUnless(c: Call, l: Looks)
    requires Legal(c, l) && !Misjudged(c, l)
    ensures l.check <= Instant(c, l) <= l.stamp && Performed(c, l) == AtOnce(c, Instant(c, l), l.stamp)
  {
    var reply := CopiedIn(c.reply, c.replyType, AliveAt(c.replyDeath, l.reply), true);
    if CopyinCheck(c.reply, c.replyType, AliveAt(c.replyDeath, l.check)) {
      CheckLasts(c, l.check, Instant(c, l));
      CheckLasts(c, l.check, l.reply);
      if CopiedIn(c.dest, c.destType, AliveAt(c.destDeath, l.dest), false).yield' != Refused && MustUndo(c, l, reply.yield') {
        UndoneAtEnd(c, l);
      }
    }
  }

  /** Copied in alive, with a dead reply port, although the destination died no later: no instant gives that. */
  lemma NeverBoth(c: Call, l: Looks, t: nat)
    requires Legal(c, l) && Misjudged(c, l)
    ensures Performed(c, l) != AtOnce(c, t, l.stamp)
  {
    CheckLasts(c, l.check, l.reply);
  }

  /** The copyin of a header with two names is atomic with respect to the deaths of the ports, but for misjudged timestamps. */
  lemma CopyinSerializes(c: Call, l: Looks)
    requires Legal(c, l)
    ensures Serializes(c, l) <==> !Misjudged(c, l)
  {
    if Misjudged(c, l) {
      forall t: nat
        ensures Performed(c, l) != AtOnce(c, t, l.stamp)
      {
        NeverBoth(c, l, t);
      }
    } else {
      SerializesUnless(c, l);
    }
  }

  /** In particular for two ports, when fewer than 2^31 ports die during the call. */
  lemma DistinctPortsSerialize(c: Call, l: Looks)
    requires Legal(c, l) && l.stamp - l.dest <= HALF && (c.destDeath.After? ==> c.destDeath != c.replyDeath)
    ensures Serializes(c, l)
  {
    CopyinSerializes(c, l);
    if Misjudged(c, l) {
      StampsNear(c.destDeath.n, c.replyDeath.n);
    }
  }

  /** Two names of one port are not enough: it may die between the copyins, and then they disagree. */
  lemma OnePortMisjudged()
    ensures var c := Call(Right(Send, 1, 7, 0), MoveSend, Right(SendOnce, 1, 7, 0), MoveOnce, After(0), After(0));
      var l := Looks(0, 0, 1, 1); Legal(c, l) && !Serializes(c, l)
  {
    var c := Call(Right(Send, 1, 7, 0), MoveSend, Right(SendOnce, 1, 7, 0), MoveOnce, After(0), After(0));
    CopyinSerializes(c, Looks(0, 0, 1, 1));
  }

  // ------------------------------------------------------------ copyout

  /** What the receiver is given for a port: its name, MACH_PORT_NULL or MACH_PORT_DEAD. */
  datatype Given = NameGiven | NullGiven | DeadGiven

  /**
   A message to be copied out.  Of the reply port: its right, the entry the space has for it already, if any, and
   its fate.  Of the destination: its right, whether the receiving space has its receive right, whether no other
   send right for it is left, whether a no-senders request is registered, and its fate.
   */
  datatype Delivery = Delivery(
    reply: Object, replyOnce: bool, entry: Right, replyDeath: Death,
    destOnce: bool, here: bool, last: bool, request: bool, destDeath: Death
  )

  /** When the reply right is copied out, when the destination is looked at, and when the reply port is again. */
  datatype Glances = Glances(reply: nat, dest: nat, again: nat)

  /** With the space locked, a port whose receive right is in it does not die. */
  predicate Lawful(d: Delivery, g: Glances) {
    && g.reply <= g.dest <= g.again && (d.here ==> AliveAt(d.destDeath, g.dest))
    && d.reply != IO_NULL && Sane(d.entry) && (d.entry == NO_RIGHT || (!d.replyOnce && Denotes(d.entry) && d.entry.obj == d.reply))
    && (HasReceive(d.entry) ==> AliveAt(d.replyDeath, g.again))
  }

  /** The two names put into the header. */
  datatype Names = Names(reply: Given, dest: Given)

  /** How a no-senders request ends: not at all, with no-senders, or with a send-once notification when the port dies. */
  datatype Ending = Pending | NoSenders | Discarded

  datatype Receipt = Receipt(names: Names, entry: Seen, reply: PortSeen, dest: PortSeen, ending: Ending)

  /** ipc_right_copyout of the reply right, if the port is found alive. */
  function ReplyOut(d: Delivery, alive: bool): Effect {
    if !alive then Same(d.entry) else if d.replyOnce then OnceCopiedOut(d.reply) else SendCopiedOut(d.entry, d.reply, true).0
  }

  /** ipc_object_copyout_dest, if it is called: the right is used up, or handed back, or takes the no-senders request along. */
  predicate Fires(d: Delivery, used: bool) {
    used && !d.destOnce && d.last && d.request
  }

  /** What everyone sees at the instant end: of a port that has died by then, only what its death did to the request. */
  function SeenAt(d: Delivery, names: Names, replied: bool, used: bool, end: nat): Receipt {
    var replyLives, destLives, e := AliveAt(d.replyDeath, end), AliveAt(d.destDeath, end), ReplyOut(d, replied);
    Receipt(names, Look(d.entry, e, !replyLives), SeenOf(replyLives, e.sends, e.onces, false),
            SeenOf(destLives, if used && !d.destOnce then -1 else 0, if used && d.destOnce && d.here then -1 else 0,
                   used && d.destOnce && !d.here),
            if Fires(d, used) then NoSenders else if d.request && !destLives then Discarded else Pending)
  }

  function DestName(d: Delivery): Given {
    if d.here then NameGiven else NullGiven
  }

  function ReplyName(alive: bool): Given {
    if alive then NameGiven else DeadGiven
  }

  /** The whole copyout at the instant t, seen at the instant end. */
  function OutAtOnce(d: Delivery, t: nat, end: nat): Receipt {
    var reply, dest := AliveAt(d.replyDeath, t), AliveAt(d.destDeath, t);
    SeenAt(d, Names(ReplyName(reply), if dest then DestName(d) else DeadGiven), reply, dest, end)
  }

  /** The names: a live destination's, if its receive right is here; a live reply port's; else dead, or null for one not here. */
  lemma OutAtOnceNames(d: Delivery, t: nat, end: nat)
    ensures var names := OutAtOnce(d, t, end).names;
      && (names.dest == NameGiven <==> d.here && AliveAt(d.destDeath, t)) && (names.dest == DeadGiven <==> !AliveAt(d.destDeath, t))
      && (names.reply == NameGiven <==> AliveAt(d.replyDeath, t)) && names.reply != NullGiven
  {
  }

  /** The rights: of a live destination one is used up, or goes back; of a live reply port one is in the entry. */
  lemma OutAtOnceRights(d: Delivery, t: nat, end: nat)
    requires t <= end && Meets(d.entry, d.reply) && (d.replyOnce ==> d.entry == NO_RIGHT)
    ensures var o, used := OutAtOnce(d, t, end), AliveAt(d.destDeath, t);
      && (AliveAt(d.destDeath, end) ==> o.dest == PortSeen(-Bit(!d.destOnce), -Bit(d.destOnce && d.here), d.destOnce && !d.here))
      && (o.ending == NoSenders <==> used && !d.destOnce && d.last && d.request)
      && (o.ending == Discarded <==> d.request && !AliveAt(d.destDeath, end) && o.ending != NoSenders)
      && (AliveAt(d.replyDeath, end) ==> o.entry.right.obj == d.reply && if d.replyOnce then HasOnce(o.entry.right) else HasSend(o.entry.right))
  {
    SendOutRefs(d.entry, d.reply, true);
    OnceOutRefs(d.reply);
  }

  /** The destination is found dead, and the timestamps do not say that it died before the reply port, alive at copyout. */
  predicate Pretends(d: Delivery, g: Glances) {
    && AliveAt(d.replyDeath, g.reply) && !AliveAt(d.replyDeath, g.again) && !AliveAt(d.destDeath, g.dest)
    && !Ordered(Stamp(d.destDeath.n), Stamp(d.replyDeath.n))
  }

  /** What the code does, looking at the ports at the instants g. */
  function Delivered(d: Delivery, g: Glances): Receipt {
    var reply, dest := AliveAt(d.replyDeath, g.reply), AliveAt(d.destDeath, g.dest);
    SeenAt(d, Names(ReplyName(reply), if dest then DestName(d) else if Pretends(d, g) then NullGiven else DeadGiven),
           reply, dest, g.again)
  }

  /** The names alone are those of doing everything at one instant of the call. */
  ghost predicate NamesSerialize(d: Delivery, g: Glances) {
    exists t: nat :: g.reply <= t <= g.again && Delivered(d, g).names == OutAtOnce(d, t, g.again).names
  }

  /** And the entry, the counts and the notifications with them. */
  ghost predicate OutSerializes(d: Delivery, g: Glances) {
    exists t: nat :: g.reply <= t <= g.again && Delivered(d, g) == OutAtOnce(d, t, g.again)
  }

  /**
   The reply port is copied out alive and dead afterwards, the destination is dead when looked at, and the
   timestamps either put its death first, though the reply port died first, or put it last, though it was over
   before the reply right was copied out.
   */
  predicate OutMisjudged(d: Delivery, g: Glances) {
    && AliveAt(d.replyDeath, g.reply) && !AliveAt(d.replyDeath, g.again) && !AliveAt(d.destDeath, g.dest)
    && if Ordered(Stamp(d.destDeath.n), Stamp(d.replyDeath.n)) then d.replyDeath.n <= d.destDeath.n else d.destDeath.n < g.reply
  }

  function OutInstant(d: Delivery, g: Glances): nat {
    if !AliveAt(d.replyDeath, g.reply) then g.dest
    else if AliveAt(d.destDeath, g.dest) || d.destDeath.n < g.reply || Pretends(d, g) then g.reply
    else d.destDeath.n + 1
  }

  /** So what the code gives is the destination's name exactly when that is found alive and received here. */
  lemma DeliveredNames(d: Delivery, g: Glances)
    requires Lawful(d, g)
    ensures var names := Delivered(d, g).names;
      && (names.dest == NameGiven <==> d.here) && (names.reply == NameGiven <==> AliveAt(d.replyDeath, g.reply)) && names.reply != NullGiven
      && (names.dest == DeadGiven <==> !AliveAt(d.destDeath, g.dest) && !Pretends(d, g))
  {
  }

  /** The names given on copyout are atomic with respect to the deaths of the ports, but for misjudged timestamps. */
  lemma NamesExact(d: Delivery, g: Glances)
    requires Lawful(d, g)
    ensures NamesSerialize(d, g) <==> !OutMisjudged(d, g)
  {
    if !OutMisjudged(d, g) {
      var t := OutInstant(d, g);
      assert g.reply <= t <= g.again && Delivered(d, g).names == OutAtOnce(d, t, g.again).names;
    }
  }

  /**
   All of the copyout is, unless the code pretends that the destination was alive while the message held its last
   send right and a no-senders request was registered: alive, the port would have sent no-senders.
   */
  lemma CopyoutSerializes(d: Delivery, g: Glances)
    requires Lawful(d, g)
    ensures OutSerializes(d, g) <==> !OutMisjudged(d, g) && !(Pretends(d, g) && Fires(d, true))
  {
    var t := OutInstant(d, g);
    if OutMisjudged(d, g) {
      NamesExact(d, g);
      assert OutSerializes(d, g) ==> NamesSerialize(d, g);
    } else if Pretends(d, g) && Fires(d, true) {
      forall t: nat | g.reply <= t <= g.again
        ensures Delivered(d, g) != OutAtOnce(d, t, g.again)
      {
        assert Delivered(d, g).ending == Discarded;
      }
    } else {
      assert g.reply <= t <= g.again && Delivered(d, g) == OutAtOnce(d, t, g.again);
    }
  }

  /** So, for one port or two whose deaths are fewer than 2^31 apart, only that case is not atomic. */
  lemma NearDeathsSerialize(d: Delivery, g: Glances)
    requires Lawful(d, g)
    requires d.destDeath.After? && d.replyDeath.After? ==> -HALF < d.replyDeath.n - d.destDeath.n <= HALF
    ensures NamesSerialize(d, g) && (OutSerializes(d, g) <==> !(Pretends(d, g) && Fires(d, true)))
  {
    NamesExact(d, g);
    CopyoutSerializes(d, g);
    if OutMisjudged(d, g) {
      StampsNear(d.destDeath.n, d.replyDeath.n);
    }
  }

  /** The reply port and then the destination die between the looks: the no-senders request goes the wrong way. */
  lemma NoSendersLost()
    ensures var d := Delivery(7, true, NO_RIGHT, After(0), false, false, true, true, After(1));
      Lawful(d, Glances(0, 2, 2)) && NamesSerialize(d, Glances(0, 2, 2)) && !OutSerializes(d, Glances(0, 2, 2))
  {
    NearDeathsSerialize(Delivery(7, true, NO_RIGHT, After(0), false, false, true, true, After(1)), Glances(0, 2, 2));
  }
}
