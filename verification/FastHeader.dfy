/**
 The optimized cases of ipc_kmsg_copyin_header and ipc_kmsg_copyout_header: asynchronous messages, requests and
 replies.  Each either falls through, having changed nothing, or does exactly what the general path would.
 */
module FastHeaders {
  import opened MachPort
  import opened SpaceView
  import opened EntryTables
  import opened Rights

  // ------------------------------------------------------------ messages and ports

  /** A port type in msgh_bits: none, or a disposition.  PORT_SEND is MOVE_SEND, PORT_SEND_ONCE is MOVE_SEND_ONCE. */
  datatype Type = Nil | Of(d: Disposition)

  const PORT_SEND := Of(MoveSend)
  const PORT_SEND_ONCE := Of(MoveOnce)

  /** ipc_object_copyin_type */
  function CopyinType(t: Type): Type {
    match t
    case Nil => Nil
    case Of(MoveReceive) => t
    case Of(MoveSend) => PORT_SEND
    case Of(CopySend) => PORT_SEND
    case Of(MakeSend) => PORT_SEND
    case Of(MoveOnce) => PORT_SEND_ONCE
    case Of(MakeOnce) => PORT_SEND_ONCE
  }

  /** The port fields hold names outside the kernel and port pointers inside. */
  datatype Header = Header(remoteType: Type, localType: Type, remote: nat, local: nat)

  class Message {
    var header: Header
  }

  datatype PortState = PortState(active: bool, receiver: nat, receiverName: Name, srights: int, sorights: int, ns: Object)

  class Port {
    const id: Object
    var active: bool
    var receiver: nat         // the space, 0 if none
    var receiverName: Name
    var srights: int
    var sorights: int
    var ns: Object            // ip_nsrequest

    ghost function State(): PortState
      reads this
    {
      PortState(active, receiver, receiverName, srights, sorights, ns)
    }
  }

  ghost function Objects(ports: map<Object, Port>): set<object> {
    set p | p in ports :: ports[p]
  }

  ghost function States(ports: map<Object, Port>): map<Object, PortState>
    reads Objects(ports)
  {
    map p | p in ports :: ports[p].State()
  }

  /** Every port an entry of the table names is there, under its own id. */
  ghost predicate Known(v: View, ports: map<Object, Port>) {
    && (forall p :: p in ports ==> ports[p].id == p)
    && (forall i :: 0 <= i < |v.slots| && NamesPort(v.slots[i].right) ==> v.slots[i].right.obj in ports)
  }

  // ------------------------------------------------------------ the general path: copyin

  /** A right is written into the entry at p. */
  ghost function Stored(v: View, p: Place, r: Right): View {
    match p
    case Nowhere => v
    case InTable(i) => if i < |v.slots| then SlotSet(v, i, r) else v
    case InTree(n) => TreeSet(v, n, r)
  }

  /** ipc_entry_dealloc of the entry at p, if it has no right left. */
  ghost predicate Cleared(v: View, w: View, p: Place) {
    match p
    case Nowhere => w == v
    case InTable(i) =>
      i < |v.slots| &&
      if v.slots[i].right.kind != None then w == v
      else if v.slots[i].collision then exists n :: n in v.tree && Index(n) == i && w == Migrated(v, n)
      else w == FreedSlot(v, i)
    case InTree(n) =>
      n in v.tree && if v.tree[n].kind != None then w == v else w == Uprooted(v, n)
  }

  /** The counts of the port p change. */
  ghost function Credited(ports: map<Object, PortState>, p: Object, e: Effect): map<Object, PortState> {
    if p !in ports then ports else
      ports[p := ports[p].(srights := ports[p].srights + e.sends, sorights := ports[p].sorights + e.onces)]
  }

  ghost predicate Active(ports: map<Object, PortState>, p: Object) {
    p in ports && ports[p].active
  }

  /** What the call leaves: the space, the ports, the header, and whether a port-deleted notification is sent. */
  datatype After = After(view: View, ports: map<Object, PortState>, header: Header, deleted: bool)

  ghost function RightFor(v: View, n: Name): Right {
    RightAt(v, Looked(v, n))
  }

  /** A message without a reply port is copied in. */
  ghost predicate CopiedAlone(v: View, ports: map<Object, PortState>, h: Header, a: After)
    requires h.remoteType.Of? && h.remote < 0x1_0000_0000
  {
    var place, r := Looked(v, h.remote), RightFor(v, h.remote);
    var c := CopiedIn(r, h.remoteType.d, Active(ports, r.obj), false);
    && place != Nowhere && c.yield' == Got
    && Cleared(Stored(v, place, c.effect.right), a.view, place)
    && a.ports == Credited(ports, r.obj, c.effect)
    && a.header == Header(CopyinType(h.remoteType), CopyinType(h.localType), r.obj, h.local)
    && a.deleted == c.effect.cancels
  }

  /** A message with a reply port of another name is copied in, neither port dying meanwhile. */
  ghost predicate CopiedPair(v: View, ports: map<Object, PortState>, h: Header, a: After)
    requires h.remoteType.Of? && h.localType.Of? && h.remote < 0x1_0000_0000 && h.local < 0x1_0000_0000
  {
    var p, q, r, s := Looked(v, h.remote), Looked(v, h.local), RightFor(v, h.remote), RightFor(v, h.local);
    var c := CopiedIn(r, h.remoteType.d, Active(ports, r.obj), false);
    var d := CopiedIn(s, h.localType.d, Active(ports, s.obj), true);
    && p != Nowhere && q != Nowhere && c.yield' == Got && d.yield' != Refused
    && (exists w :: Cleared(Stored(Stored(v, p, c.effect.right), q, d.effect.right), w, q) && Cleared(w, a.view, p))
    && a.ports == Credited(Credited(ports, r.obj, c.effect), s.obj, d.effect)
    && a.header == Header(CopyinType(h.remoteType), CopyinType(h.localType), r.obj, if d.yield' == Got then s.obj else DEAD)
    && a.deleted == (c.effect.cancels || d.effect.cancels)
  }

  /** A message whose two names are the same entry, one of them to make a right from the receive right. */
  ghost predicate CopiedSame(v: View, ports: map<Object, PortState>, h: Header, a: After)
    requires h.remoteType.Of? && h.localType.Of? && h.remote == h.local < 0x1_0000_0000
  {
    var place, r := Looked(v, h.remote), RightFor(v, h.remote);
    var c := CopiedIn(r, h.remoteType.d, Active(ports, r.obj), false);
    var d := CopiedIn(c.effect.right, h.localType.d, Active(ports, r.obj), true);
    && place != Nowhere && c.yield' == Got && d.yield' == Got
    && a.view == Stored(v, place, d.effect.right)
    && a.ports == Credited(Credited(ports, r.obj, c.effect), r.obj, d.effect)
    && a.header == Header(CopyinType(h.remoteType), CopyinType(h.localType), r.obj, r.obj)
    && a.deleted == (c.effect.cancels || d.effect.cancels)
  }

  // ------------------------------------------------------------ what the fast paths rely on

  /** A slot with the name's generation and a right is where the lookup looks. */
  lemma FastLookup(v: Consistent, n: Name)
    requires Index(n) < |v.slots| && v.slots[Index(n)].gen == Gen(n) && v.slots[Index(n)].right.kind != None
    ensures Looked(v, n) == InTable(Index(n)) && RightFor(v, n) == v.slots[Index(n)].right && 0 < Index(n)
    ensures SlotSet(v, Index(n), v.slots[Index(n)].right) == v
  {
    SpaceView.Look(v);
  }

  /** Giving up the only right of a slot without collisions frees it in one go. */
  lemma FastDealloc(v: Consistent, i: nat)
    requires i < |v.slots| && v.slots[i].right.kind != None && !v.slots[i].collision
    ensures 0 < i && Sound(FreedSlot(SlotSet(v, i, NO_RIGHT), i))
    ensures FreedSlot(SlotSet(v, i, NO_RIGHT), i).slots ==
      v.slots[i := Slot(v.slots[i].gen, false, NO_RIGHT, v.slots[0].next)][0 := v.slots[0].(next := i)]
  {
    SpaceView.Look(v);
    SlotSetInv(v, i, NO_RIGHT);
    FreedSlotInv(SlotSet(v, i, NO_RIGHT), i);
  }

  /** And changes no other name. */
  lemma FastGone(v: Consistent, n: Name)
    requires Index(n) < |v.slots| && v.slots[Index(n)].gen == Gen(n) && v.slots[Index(n)].right.kind != None && !v.slots[Index(n)].collision
    ensures RightSet(v, FreedSlot(SlotSet(v, Index(n), NO_RIGHT), Index(n)), n, NO_RIGHT)
  {
    SpaceView.Look(v);
    MakeOfParts(n);
    SlotSetInv(v, Index(n), NO_RIGHT);
    FreedSlotInv(SlotSet(v, Index(n), NO_RIGHT), Index(n));
  }

  lemma FreeHead(v: Consistent)
    ensures v.slots != [] && (v.slots[0].next != 0) == (v.free != []) && (v.free != [] ==> v.free[0] < |v.slots| <= INDICES)
  {
    SpaceView.Look(v);
  }

  /** Giving the first free slot a right in one go. */
  lemma FastGet(v: Consistent, r: Right)
    requires v.free != [] && v.slots != [] && r.kind != None
    ensures v.slots[0].next == v.free[0] && 0 < v.free[0] < |v.slots| <= INDICES && v.slots[v.free[0]].gen < GENERATIONS
    ensures Sound(SlotSet(SpaceView.Got(v), v.free[0], r))
    ensures SlotSet(SpaceView.Got(v), v.free[0], r).slots ==
      v.slots[0 := v.slots[0].(next := v.slots[v.free[0]].next)]
             [v.free[0] := Slot((v.slots[v.free[0]].gen + 1) % GENERATIONS, false, r, 0)]
    ensures SlotSet(SpaceView.Got(v), v.free[0], r).(slots := v.slots, free := v.free, held := v.held) == v
  {
    SpaceView.Look(v);
    FirstOfFree(v);
    assert v.free[0] in v.free;
    UnusedApart(v, v.free[0]);
    FilledSound(v, r);
  }

  lemma FilledSound(v: Consistent, r: Right)
    requires v.free != [] && r.kind != None
    ensures v.slots != [] && v.free[0] < |v.slots| && Sound(SlotSet(SpaceView.Got(v), v.free[0], r))
  {
    SpaceView.Look(v);
    FirstOfFree(v);
    GotInv(v);
    SlotSetInv(SpaceView.Got(v), v.free[0], r);
  }

  // ------------------------------------------------------------ the fast path: copyin

  /** The right the fast path finds for a name: that of its slot, if the generation matches. */
  ghost function FastRight(v: View, n: Name): Right {
    if Index(n) < |v.slots| && v.slots[Index(n)].gen == Gen(n) then v.slots[Index(n)].right else NO_RIGHT
  }

  /** It is the one the name denotes. */
  lemma FastDenotes(v: Consistent, n: Name)
    requires FastRight(v, n).kind != None
    ensures v.RightOf(n) == FastRight(v, n)
  {
    FastLookup(v, n);
  }

  /** The ports as they were, but for one send right more at p and one send-once right more at q. */
  ghost predicate Counted(was: map<Object, PortState>, now: map<Object, PortState>, p: set<Object>, q: set<Object>) {
    && now.Keys == was.Keys
    && forall x :: x in was ==> now[x] == was[x].(srights := was[x].srights + Bit(x in p), sorights := was[x].sorights + Bit(x in q))
  }

  /** Sending an asynchronous message. */
  method CopyinAsync(table: EntryTable, ports: map<Object, Port>, m: Message) returns (done: bool)
    requires table.Valid() && Known(table.view, ports)
    requires m.header.remoteType == Of(CopySend) && m.header.localType == Nil && m.header.remote < 0x1_0000_0000
    modifies m, Objects(ports)
    ensures !done ==> m.header == old(m.header) && States(ports) == old(States(ports))
    ensures done <==> old(m.header.local == NULL && HasSend(FastRight(table.view, m.header.remote)) && ports[FastRight(table.view, m.header.remote).obj].active)
    ensures done ==> HasSend(table.view.RightOf(old(m.header.remote))) && m.header == Header(PORT_SEND, Nil, table.view.RightOf(old(m.header.remote)).obj, NULL)
    ensures done ==> Counted(old(States(ports)), States(ports), {m.header.remote}, {})
    ensures done ==> forall a :: CopiedAlone(table.view, old(States(ports)), old(m.header), a) <==>
                                 a == After(table.view, States(ports), m.header, false)
  {
    var h := m.header;
    var name: Name := h.remote;
    if h.local != NULL || Index(name) >= table.slots.Length {
      return false;
    }
    var s := table.slots[Index(name)];
    if s.gen != Gen(name) || !HasSend(s.right) {
      return false;
    }
    assert s == table.view.slots[Index(name)];
    FastLookup(table.view, name);
    var port := ports[s.right.obj];
    if !port.active {
      return false;
    }
    FastDenotes(table.view, name);
    port.srights := port.srights + 1;
    m.header := Header(PORT_SEND, Nil, s.right.obj, h.local);
    assert States(ports) == Credited(old(States(ports)), s.right.obj, Same(s.right).(sends := 1, naked := 1));
    return true;
  }

  /** The slot of the name n, of its generation and with a right. */
  ghost predicate Hit(v: View, n: Name, r: Right) {
    Index(n) < |v.slots| && v.slots[Index(n)].gen == Gen(n) && v.slots[Index(n)].right == r && r.kind != None
  }

  /** A request leaves both entries alone, and counts a send right and a send-once right. */
  ghost function Requested(ports: map<Object, PortState>, p: Object, q: Object): map<Object, PortState> {
    Credited(Credited(ports, p, Same(NO_RIGHT).(sends := 1)), q, Same(NO_RIGHT).(onces := 1))
  }

  lemma RequestedCounts(ports: map<Object, PortState>, p: Object, q: Object)
    requires p in ports && q in ports
    ensures Counted(ports, Requested(ports, p, q), {p}, {q})
  {
  }

  lemma PairExact(v: Consistent, ports: map<Object, PortState>, h: Header, r: Right, s: Right, a: After)
    requires h.remoteType == Of(CopySend) && h.localType == Of(MakeOnce) && h.remote < 0x1_0000_0000 && h.local < 0x1_0000_0000
    requires Hit(v, h.remote, r) && HasSend(r) && Active(ports, r.obj) && Hit(v, h.local, s) && HasReceive(s)
    ensures CopiedPair(v, ports, h, a) <==>
            a == After(v, Requested(ports, r.obj, s.obj), Header(PORT_SEND, PORT_SEND_ONCE, r.obj, s.obj), false)
  {
    FastLookup(v, h.remote);
    FastLookup(v, h.local);
    var p, q := Looked(v, h.remote), Looked(v, h.local);
    assert Stored(Stored(v, p, r), q, s) == v;
    assert Cleared(v, v, q) && forall w :: Cleared(v, w, q) ==> w == v;
    assert forall w :: Cleared(v, w, p) <==> w == v;
  }

  lemma SameExact(v: Consistent, ports: map<Object, PortState>, h: Header, r: Right, a: After)
    requires h.remoteType == Of(CopySend) && h.localType == Of(MakeOnce) && h.remote == h.local < 0x1_0000_0000
    requires Hit(v, h.remote, r) && HasSend(r) && HasReceive(r) && Active(ports, r.obj)
    ensures CopiedSame(v, ports, h, a) <==>
            a == After(v, Requested(ports, r.obj, r.obj), Header(PORT_SEND, PORT_SEND_ONCE, r.obj, r.obj), false)
  {
    FastLookup(v, h.remote);
  }

  lemma RequestExact(v: Consistent, ports: map<Object, PortState>, h: Header, r: Right, s: Right)
    requires h.remoteType == Of(CopySend) && h.localType == Of(MakeOnce) && h.remote < 0x1_0000_0000 && h.local < 0x1_0000_0000
    requires Hit(v, h.remote, r) && HasSend(r) && Active(ports, r.obj) && Hit(v, h.local, s) && HasReceive(s)
    ensures h.remote != h.local ==> forall a :: CopiedPair(v, ports, h, a) <==>
              a == After(v, Requested(ports, r.obj, s.obj), Header(PORT_SEND, PORT_SEND_ONCE, r.obj, s.obj), false)
    ensures h.remote == h.local ==> forall a :: CopiedSame(v, ports, h, a) <==>
              a == After(v, Requested(ports, r.obj, s.obj), Header(PORT_SEND, PORT_SEND_ONCE, r.obj, s.obj), false)
  {
    if h.remote == h.local {
      forall a {
        SameExact(v, ports, h, r, a);
      }
    } else {
      forall a {
        PairExact(v, ports, h, r, s, a);
      }
    }
  }

  /** Sending a request message; locked says whether the lock of the reply port is had. */
  method CopyinRequest(table: EntryTable, ports: map<Object, Port>, m: Message, locked: bool) returns (done: bool)
    requires table.Valid() && Known(table.view, ports)
    requires m.header.remoteType == Of(CopySend) && m.header.localType == Of(MakeOnce)
    requires m.header.remote < 0x1_0000_0000 && m.header.local < 0x1_0000_0000
    modifies m, Objects(ports)
    ensures !done ==> m.header == old(m.header) && States(ports) == old(States(ports))
    ensures done <==> locked && old(HasSend(FastRight(table.view, m.header.remote)) && HasReceive(FastRight(table.view, m.header.local)) &&
                                    ports[FastRight(table.view, m.header.remote).obj].active)
    ensures done ==> HasSend(table.view.RightOf(old(m.header.remote))) && HasReceive(table.view.RightOf(old(m.header.local)))
    ensures done ==> m.header == Header(PORT_SEND, PORT_SEND_ONCE, table.view.RightOf(old(m.header.remote)).obj, table.view.RightOf(old(m.header.local)).obj)
    ensures done ==> Counted(old(States(ports)), States(ports), {m.header.remote}, {m.header.local})
    ensures done && old(m.header.remote != m.header.local) ==>
      forall a :: CopiedPair(table.view, old(States(ports)), old(m.header), a) <==> a == After(table.view, States(ports), m.header, false)
    ensures done && old(m.header.remote == m.header.local) ==>
      forall a :: CopiedSame(table.view, old(States(ports)), old(m.header), a) <==> a == After(table.view, States(ports), m.header, false)
  {
    var h := m.header;
    var dest: Name, reply: Name := h.remote, h.local;
    if Index(dest) >= table.slots.Length || Index(reply) >= table.slots.Length {
      return false;
    }
    var s, t := table.slots[Index(dest)], table.slots[Index(reply)];
    if s.gen != Gen(dest) || !HasSend(s.right) || t.gen != Gen(reply) || !HasReceive(t.right) {
      return false;
    }
    assert s == table.view.slots[Index(dest)] && t == table.view.slots[Index(reply)];
    var destPort, replyPort := ports[s.right.obj], ports[t.right.obj];
    if !destPort.active || !locked {
      return false;
    }
    FastDenotes(table.view, dest);
    FastDenotes(table.view, reply);
    RequestExact(table.view, States(ports), h, s.right, t.right);
    TakeRequest(ports, m, destPort, replyPort);
    return true;
  }

  method TakeRequest(ports: map<Object, Port>, m: Message, dest: Port, reply: Port)
    requires forall p :: p in ports ==> ports[p].id == p
    requires dest.id in ports && ports[dest.id] == dest && reply.id in ports && ports[reply.id] == reply
    modifies m, dest, reply
    ensures m.header == Header(PORT_SEND, PORT_SEND_ONCE, dest.id, reply.id)
    ensures States(ports) == Requested(old(States(ports)), dest.id, reply.id) && Counted(old(States(ports)), States(ports), {dest.id}, {reply.id})
  {
    RequestedCounts(States(ports), dest.id, reply.id);
    CountRequest(ports, dest, reply);
    ghost var now := States(ports);
    m.header := Header(PORT_SEND, PORT_SEND_ONCE, dest.id, reply.id);
    assert States(ports) == now;
  }

  /** The two ports may be one. */
  method CountRequest(ports: map<Object, Port>, dest: Port, reply: Port)
    requires forall p :: p in ports ==> ports[p].id == p
    requires dest.id in ports && ports[dest.id] == dest && reply.id in ports && ports[reply.id] == reply
    modifies dest, reply
    ensures States(ports) == Requested(old(States(ports)), dest.id, reply.id)
  {
    dest.srights := dest.srights + 1;
    reply.sorights := reply.sorights + 1;
  }

  /** A send-once right in a slot that can be given back at once. */
  ghost predicate Replies(v: View, n: Name) {
    HasOnce(FastRight(v, n)) && FastRight(v, n).request == 0 && !v.slots[Index(n)].collision
  }

  /** The general path, from there, has one outcome. */
  lemma ReplyExact(v: Consistent, ports: map<Object, PortState>, h: Header)
    requires h.remoteType == Of(MoveOnce) && h.localType == Nil && h.remote < 0x1_0000_0000
    requires Replies(v, h.remote) && Active(ports, FastRight(v, h.remote).obj)
    ensures forall a :: CopiedAlone(v, ports, h, a) <==>
              a == After(FreedSlot(SlotSet(v, Index(h.remote), NO_RIGHT), Index(h.remote)), ports, Header(PORT_SEND_ONCE, Nil, FastRight(v, h.remote).obj, h.local), false)
  {
    var r := FastRight(v, h.remote);
    FastLookup(v, h.remote);
    assert Credited(ports, r.obj, Gone(r, 0, 0, 1, Keep)) == ports;
  }

  /** Sending a reply message. */
  method CopyinReply(table: EntryTable, ports: map<Object, Port>, m: Message) returns (done: bool)
    requires table.Valid() && Known(table.view, ports)
    requires m.header.remoteType == Of(MoveOnce) && m.header.localType == Nil && m.header.remote < 0x1_0000_0000
    modifies m, table.slots, table`view
    ensures !done ==> m.header == old(m.header) && table.view == old(table.view) && table.slots[..] == old(table.slots[..])
    ensures table.Valid() && States(ports) == old(States(ports))
    ensures done <==> old(m.header.local == NULL && m.header.remote < 0x1_0000_0000 && Replies(table.view, m.header.remote) &&
                          ports[FastRight(table.view, m.header.remote).obj].active)
    ensures done ==> old(HasOnce(table.view.RightOf(m.header.remote))) && RightSet(old(table.view), table.view, old(m.header.remote), NO_RIGHT)
    ensures done ==> m.header == Header(PORT_SEND_ONCE, Nil, old(table.view.RightOf(m.header.remote)).obj, NULL)
    ensures done ==>
      forall a :: CopiedAlone(old(table.view), States(ports), old(m.header), a) <==> a == After(table.view, States(ports), m.header, false)
  {
    var h := m.header;
    var name: Name := h.remote;
    if h.local != NULL || Index(name) >= table.slots.Length {
      return false;
    }
    var i := Index(name);
    var s := table.slots[i];
    if s.gen != Gen(name) || s.collision || !HasOnce(s.right) || s.right.request != 0 {
      return false;
    }
    ghost var v := table.view;
    assert s == v.slots[i];
    FastLookup(v, name);
    if !ports[s.right.obj].active {
      return false;
    }
    FastDealloc(v, i);
    FastDenotes(v, name);
    FastGone(v, name);
    ReplyExact(v, States(ports), h);
    table.slots[i] := Slot(s.gen, false, NO_RIGHT, table.slots[0].next);
    table.slots[0] := table.slots[0].(next := i);
    table.view := FreedSlot(SlotSet(v, i, NO_RIGHT), i);
    m.header := Header(PORT_SEND_ONCE, Nil, s.right.obj, h.local);
    return true;
  }

  // ------------------------------------------------------------ the general path: copyout

  /** ipc_object_copyout_dest: the port afterwards, the name given, whether no senders are left to tell, and whether the right goes back unused. */
  datatype DestOut = DestOut(port: PortState, name: Name, noSenders: Object, unused: bool)

  function CopiedOutDest(port: PortState, space: nat, once: bool): DestOut {
    var here := port.receiver == space;
    var name := if here then port.receiverName else NULL;
    if once then
      if here then DestOut(port.(sorights := port.sorights - 1), name, IO_NULL, false) else DestOut(port, NULL, IO_NULL, true)
    else
      var left := port.(srights := port.srights - 1);
      if left.srights == 0 && port.ns != IO_NULL then DestOut(left.(ns := IO_NULL), name, port.ns, false)
      else DestOut(left, name, IO_NULL, false)
  }

  /** What a copyout leaves, and tells whom. */
  datatype Out = Out(view: View, ports: map<Object, PortState>, header: Header, noSenders: Object, unused: bool)

  /** A message without a reply port is copied out. */
  ghost function OutAlone(v: View, ports: map<Object, PortState>, space: nat, h: Header): Out
    requires h.remote in ports
  {
    var d := CopiedOutDest(ports[h.remote], space, h.remoteType == PORT_SEND_ONCE);
    Out(v, ports[h.remote := d.port], Header(h.localType, h.remoteType, h.local, d.name), d.noSenders, d.unused)
  }

  /** The optimized cases put null into the remote port, where the general path puts what was in the local port. */
  ghost function WithoutReply(o: Out): Out {
    o.(header := o.header.(remote := NULL))
  }

  /** The first free slot is given a right. */
  ghost function Settled(v: View, r: Right): View
    requires v.free != [] && v.slots != [] && v.free[0] < |v.slots|
  {
    SlotSet(SpaceView.Got(v), v.free[0], r)
  }

  /** A message with a send-once reply right is copied out into a new entry. */
  ghost function OutPair(v: Consistent, ports: map<Object, PortState>, space: nat, h: Header): Out
    requires h.remote in ports && v.free != [] && v.slots != [] && v.free[0] < |v.slots| <= INDICES
  {
    var d := CopiedOutDest(ports[h.remote], space, h.remoteType == PORT_SEND_ONCE);
    Out(Settled(v, OnceCopiedOut(h.local).right), ports[h.remote := d.port],
        Header(h.localType, h.remoteType, Issued(v), d.name), d.noSenders, d.unused)
  }

  // ------------------------------------------------------------ the fast path: copyout

  /** The name a receiver gets for the port whose message it takes: its own, if the receive right is in its space. */
  ghost function ReceivedBy(was: PortState, space: nat): Name {
    if was.receiver == space then was.receiverName else NULL
  }

  /** One send right of a port fewer; with the last of them the no-senders request is taken. */
  ghost predicate SendUsed(was: PortState, now: PortState, noSenders: Object) {
    && now == was.(srights := was.srights - 1, ns := if was.srights == 1 then IO_NULL else was.ns)
    && noSenders == if was.srights == 1 then was.ns else IO_NULL
  }

  /** A send-once right is used up where the receiver is, and goes back unused elsewhere. */
  ghost predicate OnceUsed(was: PortState, now: PortState, space: nat, unused: bool) {
    && now == was.(sorights := was.sorights - Bit(was.receiver == space)) && (unused <==> was.receiver != space)
  }

  /** Only the port p changes. */
  ghost predicate OnlyPort(was: map<Object, PortState>, now: map<Object, PortState>, p: Object) {
    now.Keys == was.Keys && forall x :: x in was && x != p ==> now[x] == was[x]
  }

  /** n is the name of a receive right for the port p. */
  ghost predicate Receives(v: View, n: nat, p: Object) {
    n < 0x1_0000_0000 && HasReceive(v.RightOf(n)) && v.RightOf(n).obj == p
  }

  /** The part common to receiving asynchronous messages and requests. */
  method CopyoutDestSend(ports: map<Object, Port>, space: nat, dest: Port) returns (name: Name, noSenders: Object)
    requires dest.id in ports && ports[dest.id] == dest && forall p :: p in ports ==> ports[p].id == p
    modifies dest
    ensures var d := old(CopiedOutDest(dest.State(), space, false));
      name == d.name && noSenders == d.noSenders && !d.unused && States(ports) == old(States(ports))[dest.id := d.port]
    ensures name == ReceivedBy(old(dest.State()), space) && SendUsed(old(dest.State()), dest.State(), noSenders)
  {
    name := if dest.receiver == space then dest.receiverName else NULL;
    noSenders := IO_NULL;
    dest.srights := dest.srights - 1;
    if dest.srights == 0 && dest.ns != IO_NULL {
      noSenders := dest.ns;
      dest.ns := IO_NULL;
    }
    assert States(ports)[dest.id] == dest.State();
  }

  /** Receiving an asynchronous message; as the general path does, exactly when the header has no reply port. */
  method CopyoutAsync(ports: map<Object, Port>, space: nat, m: Message, ghost v: View)
    returns (done: bool, noSenders: Object)
    requires m.header.remote in ports && forall p :: p in ports ==> ports[p].id == p
    requires m.header.remoteType == PORT_SEND && m.header.localType == Nil
    modifies m, Objects(ports)
    ensures done == old(ports[m.header.remote].active)
    ensures !done ==> m.header == old(m.header) && States(ports) == old(States(ports))
    ensures done ==> m.header == Header(Nil, PORT_SEND, NULL, ReceivedBy(old(States(ports)[m.header.remote]), space))
    ensures done ==> var p := old(m.header.remote);
      SendUsed(old(States(ports))[p], States(ports)[p], noSenders) && OnlyPort(old(States(ports)), States(ports), p)
    ensures done && old(ports[m.header.remote].receiver) == space && Receives(v, old(ports[m.header.remote].receiverName), old(m.header.remote)) ==>
      Receives(v, m.header.local, old(m.header.remote))
    ensures done ==> WithoutReply(old(OutAlone(v, States(ports), space, m.header))) == Out(v, States(ports), m.header, noSenders, false)
    ensures done ==> (old(OutAlone(v, States(ports), space, m.header)) == Out(v, States(ports), m.header, noSenders, false) <==> old(m.header.local) == NULL)
  {
    var dest := ports[m.header.remote];
    noSenders := IO_NULL;
    if !dest.active {
      return false, noSenders;
    }
    var name;
    name, noSenders := CopyoutDestSend(ports, space, dest);
    m.header := Header(Nil, PORT_SEND, NULL, name);
    return true, noSenders;
  }

  /** ipc_entry_get and ipc_right_copyout in one. */
  method FillFirst(table: EntryTable, right: Right) returns (name: Name)
    requires table.Valid() && table.view.slots != [] && table.view.free != [] && right.kind != None
    modifies table.slots, table`view
    ensures old(table.view.free[0] < |table.view.slots| <= INDICES)
    ensures table.Valid() && table.view == Settled(old(table.view), right)
    ensures name == Issued(old(table.view))
  {
    FastGet(table.view, right);
    var index := table.slots[0].next;
    var entry := table.slots[index];
    var gen := (entry.gen + 1) % GENERATIONS;
    table.slots[0] := table.slots[0].(next := entry.next);
    table.slots[index] := Slot(gen, false, right, 0);
    table.view := SlotSet(SpaceView.Got(table.view), index, right);
    return Make(index, gen);
  }

  /** Receiving a request message; locked says whether the lock of the reply port is had. */
  method CopyoutRequest(table: EntryTable, ports: map<Object, Port>, space: nat, m: Message, locked: bool)
    returns (done: bool, noSenders: Object)
    requires table.Valid() && Known(table.view, ports) && m.header.remote in ports && m.header.local in ports
    requires m.header.remoteType == PORT_SEND && m.header.localType == PORT_SEND_ONCE
    modifies m, Objects(ports), table.slots, table`view
    ensures table.Valid()
    ensures !done ==> m.header == old(m.header) && States(ports) == old(States(ports)) && table.view == old(table.view)
    ensures done ==> old(table.view.slots != [] && table.view.free != [] && table.view.free[0] < |table.view.slots| <= INDICES)
    ensures done <==> locked && old(table.view.free != [] && ports[m.header.remote].active && ports[m.header.local].active)
    ensures done ==> m.header.remoteType == PORT_SEND_ONCE && m.header.localType == PORT_SEND
    ensures done ==> m.header.local == ReceivedBy(old(States(ports)[m.header.remote]), space)
    ensures done ==> var p := old(m.header.remote);
      SendUsed(old(States(ports))[p], States(ports)[p], noSenders) && OnlyPort(old(States(ports)), States(ports), p)
    ensures done ==> m.header.remote < 0x1_0000_0000 && Named(old(table.view), table.view, m.header.remote, old(m.header.local))
    ensures done && old(ports[m.header.remote].receiver) == space && Receives(old(table.view), old(ports[m.header.remote].receiverName), old(m.header.remote)) ==>
      Receives(table.view, m.header.local, old(m.header.remote))
    ensures done ==> old(OutPair(table.view, States(ports), space, m.header)) == Out(table.view, States(ports), m.header, noSenders, false)
  {
    var h := m.header;
    ghost var v := table.view;
    FreeHead(v);
    noSenders := IO_NULL;
    var index := table.slots[0].next;
    var dest, reply := ports[h.remote], ports[h.local];
    if index == 0 || !dest.active || !locked || !reply.active {
      return false, noSenders;
    }
    noSenders := Deliver(table, ports, space, m, dest);
    return true, noSenders;
  }

  /** The reply right gets a name that denoted nothing, and no other name changes. */
  ghost predicate Named(v: View, w: View, n: Name, reply: Object) {
    IsValid(n) && v.RightOf(n) == NO_RIGHT && RightSet(v, w, n, Right(SendOnce, 1, reply, 0))
  }

  lemma SettledNames(v: Consistent, r: Right)
    requires v.free != [] && r.kind != None
    ensures v.slots != [] && v.free[0] < |v.slots| <= INDICES
    ensures IsValid(Issued(v)) && v.RightOf(Issued(v)) == NO_RIGHT && RightSet(v, Settled(v, r), Issued(v), r)
  {
    FreeHead(v);
    SpaceView.Look(v);
    IssuedFresh(v);
    GotInv(v);
    FastGet(v, r);
    SlotSetInv(SpaceView.Got(v), v.free[0], r);
  }

  /** The request is received: the reply right gets a name, the destination right is used up. */
  method Deliver(table: EntryTable, ports: map<Object, Port>, space: nat, m: Message, dest: Port) returns (noSenders: Object)
    requires table.Valid() && Known(table.view, ports) && m.header.remote in ports && ports[m.header.remote] == dest
    requires m.header.remoteType == PORT_SEND && m.header.localType == PORT_SEND_ONCE
    requires table.view.slots != [] && table.view.free != []
    modifies m, dest, table.slots, table`view
    ensures table.Valid() && old(table.view.free[0] < |table.view.slots| <= INDICES)
    ensures old(OutPair(table.view, States(ports), space, m.header)) == Out(table.view, States(ports), m.header, noSenders, false)
    ensures m.header == Header(PORT_SEND_ONCE, PORT_SEND, old(Issued(table.view)), ReceivedBy(old(States(ports)[m.header.remote]), space))
    ensures Named(old(table.view), table.view, old(Issued(table.view)), old(m.header.local))
    ensures var p := old(m.header.remote);
      SendUsed(old(States(ports))[p], States(ports)[p], noSenders) && OnlyPort(old(States(ports)), States(ports), p)
  {
    ghost var was := States(ports);
    SettledNames(table.view, Right(SendOnce, 1, m.header.local, 0));
    var replyName := FillFirst(table, Right(SendOnce, 1, m.header.local, 0));
    assert States(ports) == was;
    noSenders := Receive(ports, space, m, dest, replyName);
  }

  method Receive(ports: map<Object, Port>, space: nat, m: Message, dest: Port, replyName: Name) returns (noSenders: Object)
    requires m.header.remote in ports && ports[m.header.remote] == dest && forall p :: p in ports ==> ports[p].id == p
    modifies m, dest
    ensures var d := old(CopiedOutDest(States(ports)[m.header.remote], space, false));
      && noSenders == d.noSenders && !d.unused && States(ports) == old(States(ports))[old(m.header.remote) := d.port]
      && m.header == Header(PORT_SEND_ONCE, PORT_SEND, replyName, d.name)
    ensures m.header == Header(PORT_SEND_ONCE, PORT_SEND, replyName, ReceivedBy(old(dest.State()), space))
    ensures SendUsed(old(dest.State()), dest.State(), noSenders)
  {
    var name;
    name, noSenders := UseUp(ports, space, m, dest);
    ghost var now := States(ports);
    m.header := Header(PORT_SEND_ONCE, PORT_SEND, replyName, name);
    assert States(ports) == now;
  }

  /** The destination right of the message is used up. */
  method UseUp(ports: map<Object, Port>, space: nat, m: Message, dest: Port) returns (name: Name, noSenders: Object)
    requires m.header.remote in ports && ports[m.header.remote] == dest && forall p :: p in ports ==> ports[p].id == p
    modifies dest
    ensures m.header == old(m.header)
    ensures var d := old(CopiedOutDest(States(ports)[m.header.remote], space, false));
      name == d.name && noSenders == d.noSenders && !d.unused && States(ports) == old(States(ports))[m.header.remote := d.port]
    ensures name == ReceivedBy(old(dest.State()), space) && SendUsed(old(dest.State()), dest.State(), noSenders)
  {
    assert States(ports)[m.header.remote] == dest.State() && dest.id == m.header.remote;
    name, noSenders := CopyoutDestSend(ports, space, dest);
  }

  /** Receiving a reply message; unused says that the right goes back in a send-once notification. */
  method CopyoutReply(ports: map<Object, Port>, space: nat, m: Message, ghost v: View)
    returns (done: bool, unused: bool)
    requires m.header.remote in ports && forall p :: p in ports ==> ports[p].id == p
    requires m.header.remoteType == PORT_SEND_ONCE && m.header.localType == Nil
    modifies m, Objects(ports)
    ensures done == old(ports[m.header.remote].active)
    ensures !done ==> m.header == old(m.header) && States(ports) == old(States(ports))
    ensures done ==> m.header == Header(Nil, PORT_SEND_ONCE, NULL, ReceivedBy(old(States(ports)[m.header.remote]), space))
    ensures done ==> var p := old(m.header.remote);
      OnceUsed(old(States(ports))[p], States(ports)[p], space, unused) && OnlyPort(old(States(ports)), States(ports), p)
    ensures done && old(ports[m.header.remote].receiver) == space && Receives(v, old(ports[m.header.remote].receiverName), old(m.header.remote)) ==>
      Receives(v, m.header.local, old(m.header.remote))
    ensures done ==> WithoutReply(old(OutAlone(v, States(ports), space, m.header))) == Out(v, States(ports), m.header, IO_NULL, unused)
    ensures done ==> (old(OutAlone(v, States(ports), space, m.header)) == Out(v, States(ports), m.header, IO_NULL, unused) <==> old(m.header.local) == NULL)
  {
    var dest := ports[m.header.remote];
    if !dest.active {
      return false, false;
    }
    var name := NULL;
    unused := dest.receiver != space;
    if !unused {
      dest.sorights := dest.sorights - 1;
      name := dest.receiverName;
    }
    m.header := Header(Nil, PORT_SEND_ONCE, NULL, name);
    assert States(ports)[dest.id] == dest.State();
    return true, unused;
  }
}
