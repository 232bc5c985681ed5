/**
 The operations of ipc/ipc_right.c in place: on the packed bits of an entry, on the counts of its port and on
 the reverse hash.  Each does what the module Rights says, and leaves the bits it does not mean alone.
 */
module RightOps {
  import opened MachPort
  import opened Rights
  import opened Headers
  import opened References

  // ------------------------------------------------------------ ie_bits

  /** User references in the low 16 bits, the type in the next 5, the rest above. */
  const SEND := 0x1_0000
  const RECEIVE := 0x2_0000
  const SEND_ONCE := 0x4_0000
  const PORT_SET := 0x8_0000
  const DEAD_NAME := 0x10_0000

  function TypeBits(k: Kind): nat {
    match k
    case None => 0
    case Send => SEND
    case Receive => RECEIVE
    case SendReceive => SEND + RECEIVE
    case SendOnce => SEND_ONCE
    case PortSet => PORT_SET
    case DeadName => DEAD_NAME
  }

  function Pack(high: nat, k: Kind, urefs: nat): nat {
    high * 0x20_0000 + TypeBits(k) + urefs
  }

  function Urefs(bits: nat): nat {
    bits % 0x1_0000
  }

  predicate HasBit(bits: nat, t: nat)
    requires t > 0
  {
    bits / t % 2 == 1
  }

  /** bits | t and bits &~ t, for a single bit t. */
  function WithBit(bits: nat, t: nat): nat
    requires t > 0
  {
    if HasBit(bits, t) then bits else bits + t
  }

  function WithoutBit(bits: nat, t: nat): nat
    requires t > 0
  {
    if HasBit(bits, t) && bits >= t then bits - t else bits
  }

  /** The type bits as digits of a number, c, above the user references. */
  lemma Digits(high: nat, c: nat, urefs: nat)
    requires c < 32 && urefs <= UREFS_MAX
    ensures var bits := high * 0x20_0000 + c * 0x1_0000 + urefs;
      && bits / SEND == high * 32 + c && bits / RECEIVE == high * 16 + c / 2
      && bits / SEND_ONCE == high * 8 + c / 4 && bits / DEAD_NAME == high * 2 + c / 16
  {
  }

  lemma Parity(a: int, c: nat)
    ensures (2 * a + c) % 2 == c % 2
  {
  }

  lemma BitsOf(bits: nat, high: nat, c: nat, urefs: nat)
    requires c < 32 && urefs <= UREFS_MAX && bits == high * 0x20_0000 + c * 0x1_0000 + urefs
    ensures Urefs(bits) == urefs && HasBit(bits, SEND) == (c % 2 == 1) && HasBit(bits, RECEIVE) == (c / 2 % 2 == 1)
    ensures HasBit(bits, SEND_ONCE) == (c / 4 % 2 == 1) && HasBit(bits, DEAD_NAME) == (c / 16 % 2 == 1)
  {
    Digits(high, c, urefs);
    Parity(high * 16, c);
    Parity(high * 8, c / 2);
    Parity(high * 4, c / 4);
    Parity(high, c / 16);
  }

  lemma Unpacked(high: nat, k: Kind, urefs: nat)
    requires urefs <= UREFS_MAX
    ensures var bits := Pack(high, k, urefs);
      && Urefs(bits) == urefs
      && (HasBit(bits, SEND) <==> k == Send || k == SendReceive) && (HasBit(bits, RECEIVE) <==> k == Receive || k == SendReceive)
      && (HasBit(bits, SEND_ONCE) <==> k == SendOnce) && (HasBit(bits, DEAD_NAME) <==> k == DeadName)
  {
    match k
    case None => BitsOf(Pack(high, k, urefs), high, 0, urefs);
    case Send => BitsOf(Pack(high, k, urefs), high, 1, urefs);
    case Receive => BitsOf(Pack(high, k, urefs), high, 2, urefs);
    case SendReceive => BitsOf(Pack(high, k, urefs), high, 3, urefs);
    case SendOnce => BitsOf(Pack(high, k, urefs), high, 4, urefs);
    case PortSet => BitsOf(Pack(high, k, urefs), high, 8, urefs);
    case DeadName => BitsOf(Pack(high, k, urefs), high, 16, urefs);
  }

  // ------------------------------------------------------------ entries and ports

  class Entry {
    var bits: nat
    var obj: Object
    var request: nat
    var hashed: bool          // in the reverse hash
    ghost var high: nat       // the bits that are not the right's
    ghost var low: nat
    ghost var value: Right

    /** The bits are those of the right; user references left over without a type do not matter. */
    ghost predicate Valid()
      reads this
    {
      && bits == Pack(high, value.kind, low) && low <= UREFS_MAX && (value.kind != None ==> low == value.urefs)
      && obj == value.obj && request == value.request && Sane(value) && hashed == (value.kind == Send)
    }

    lemma Read()
      requires Valid()
      ensures (HasBit(bits, SEND) <==> HasSend(value)) && (HasBit(bits, RECEIVE) <==> HasReceive(value))
      ensures (HasBit(bits, SEND_ONCE) <==> HasOnce(value)) && (HasBit(bits, DEAD_NAME) <==> value.kind == DeadName)
      ensures value.kind != None ==> Urefs(bits) == value.urefs
    {
      Unpacked(high, value.kind, low);
    }
  }

  class Port {
    var active: bool
    var srights: int
    var sorights: int
    var ns: Object            // ip_nsrequest
    var receiver: nat         // ip_receiver, a space, while the receive right has a name
    var receiverName: Name    // ip_receiver_name, null in limbo or in transit
    var destination: Object   // ip_destination, while it has none
    ghost var naked: int      // send rights in nobody's space
    ghost var nakedOnce: int
  }

  /** The entry and its port are changed as the effect says; the no-senders request goes with the last send right. */
  twostate predicate Did(e: Entry, p: Port?, f: Effect, noSenders: Object)
    reads e, p
  {
    && e.Valid() && e.value == f.right && e.high == old(e.high)
    && (p == null ==> noSenders == IO_NULL)
    && (p != null ==>
          && p.active == old(p.active) && p.srights == old(p.srights) + f.sends && p.sorights == old(p.sorights) + f.onces
          && p.naked == old(p.naked) + f.naked && p.nakedOnce == old(p.nakedOnce) + f.nakedOnce
          && p.ns == (if f.sends < 0 && p.srights == 0 then IO_NULL else old(p.ns))
          && noSenders == (if f.sends < 0 && p.srights == 0 then old(p.ns) else IO_NULL))
  }

  /** An entry with its port, which lives if the receive right is here. */
  ghost predicate Paired(e: Entry, p: Port?)
    reads e, p
  {
    e.Valid() && (NamesPort(e.value) ==> p != null) && (HasReceive(e.value) ==> Lives(p))
  }

  ghost predicate Lives(p: Port?)
    reads p
  {
    p != null && p.active
  }

  /** ipc_right_check */
  method Check(e: Entry, p: Port) returns (dead: bool)
    requires Paired(e, p) && (HasSend(e.value) || HasOnce(e.value))
    modifies e
    ensures dead == !p.active && Did(e, p, if dead then Checked(old(e.value)) else Same(old(e.value)), IO_NULL)
  {
    if p.active {
      return false;
    }
    e.Read();
    var bits := e.bits;
    if HasBit(bits, SEND) {
      e.hashed := false;
      bits := WithoutBit(bits, SEND);
    } else {
      bits := WithoutBit(bits, SEND_ONCE);
    }
    bits := bits + DEAD_NAME;
    if e.request != 0 {
      e.request := 0;
      bits := bits + 1;
    }
    e.bits, e.obj := bits, IO_NULL;
    e.value, e.low := Died(e.value), Died(e.value).urefs;
    return true;
  }

  /** ipc_right_dncancel: a registered request is handed back. */
  method Dncancel(e: Entry) returns (cancelled: bool)
    modifies e`request
    ensures cancelled == (old(e.request) != 0) && e.request == 0
  {
    cancelled := e.request != 0;
    e.request := 0;
  }

  /** The entry is given back without a right. */
  method Vacate(e: Entry)
    requires e.bits == Pack(e.high, e.value.kind, e.low) && e.low <= UREFS_MAX && e.request == 0 && !e.hashed
    modifies e
    ensures e.Valid() && e.value == NO_RIGHT && e.high == old(e.high)
  {
    e.bits, e.obj := e.bits / 0x20_0000 * 0x20_0000, IO_NULL;
    HighBits(e.high, e.value.kind, e.low);
    e.value, e.low := NO_RIGHT, 0;
  }

  lemma HighBits(high: nat, k: Kind, urefs: nat)
    requires urefs <= UREFS_MAX
    ensures Pack(high, k, urefs) / 0x20_0000 == high
  {
  }

  /** The send right leaves the entry. */
  method Unsend(e: Entry) returns (cancelled: bool)
    requires e.Valid() && HasSend(e.value)
    modifies e
    ensures e.Valid() && e.value == Unsent(old(e.value)) && e.high == old(e.high)
    ensures cancelled == (old(e.value.kind) == Send && old(e.value.request) != 0)
  {
    e.Read();
    cancelled := false;
    if HasBit(e.bits, RECEIVE) {
      e.bits, e.low := WithoutBit(e.bits - Urefs(e.bits), SEND), 0;
      Unpacked(e.high, e.value.kind, 0);
      e.value := Unsent(e.value);
    } else {
      cancelled := Dncancel(e);
      e.hashed := false;
      Vacate(e);
    }
  }

  /** The labels copy_dead and move_dead of ipc_right_copyin. */
  method TakeDead(e: Entry, moves: bool, deadok: bool) returns (y: Yield)
    requires e.Valid() && e.value.kind == DeadName
    modifies e
    ensures e.Valid() && e.high == old(e.high)
    ensures Rights.Copyin(y, Same(e.value)) == FromDead(old(e.value), moves, deadok, Keep)
  {
    if !deadok {
      return Refused;
    }
    if moves {
      e.Read();
      if Urefs(e.bits) == 1 {
        e.bits := WithoutBit(e.bits, DEAD_NAME);
        e.value := NO_RIGHT;
      } else {
        e.bits := e.bits - 1;
        e.value, e.low := Plus(e.value, -1), e.low - 1;
      }
    }
    return Dead;
  }

  /** ipc_right_copyin of a right made from the receive right, or of the receive right itself. */
  method CopyinReceive(e: Entry, p: Port?, d: Disposition) returns (y: Yield, cancelled: bool)
    requires Paired(e, p) && (d == MakeSend || d == MakeOnce || d == MoveReceive)
    modifies e, p
    ensures var c := ReceiveCopiedIn(old(e.value), d); y == c.yield' && cancelled == c.effect.cancels && Did(e, p, c.effect, IO_NULL)
    ensures d == MoveReceive && y == Got ==> p != null && p.receiverName == NULL && p.destination == IO_NULL
  {
    e.Read();
    y, cancelled := Refused, false;
    if !HasBit(e.bits, RECEIVE) {
      return;
    }
    y := Got;
    if d == MakeSend {
      p.srights := p.srights + 1;
      p.naked := p.naked + 1;
    } else if d == MakeOnce {
      p.sorights := p.sorights + 1;
      p.nakedOnce := p.nakedOnce + 1;
    } else {
      if HasBit(e.bits, SEND) {
        e.hashed := true;
        e.value := e.value.(kind := Send);
      } else {
        cancelled := Dncancel(e);
        e.obj := IO_NULL;
        e.value := NO_RIGHT;
      }
      e.bits := WithoutBit(e.bits, RECEIVE);
      p.receiverName, p.destination := NULL, IO_NULL;
    }
  }

  /** ipc_right_copyin of a send right of a live port, copied or moved. */
  method CopyinSend(e: Entry, p: Port, moves: bool) returns (y: Yield, cancelled: bool)
    requires Paired(e, p) && (HasSend(e.value) || HasOnce(e.value)) && p.active
    modifies e, p
    ensures var c := SendCopiedIn(old(e.value), moves); y == c.yield' && cancelled == c.effect.cancels && Did(e, p, c.effect, IO_NULL)
  {
    e.Read();
    y, cancelled := Refused, false;
    if !HasBit(e.bits, SEND) {
      return;
    }
    y := Got;
    p.naked := p.naked + 1;
    if !moves {
      p.srights := p.srights + 1;
    } else if Urefs(e.bits) == 1 {
      cancelled := Unsend(e);
    } else {
      p.srights := p.srights + 1;
      e.bits := e.bits - 1;
      e.value, e.low := Plus(e.value, -1), e.low - 1;
    }
  }

  /** And of a send-once right. */
  method CopyinOnce(e: Entry, p: Port) returns (y: Yield, cancelled: bool)
    requires Paired(e, p) && (HasSend(e.value) || HasOnce(e.value)) && p.active
    modifies e, p
    ensures var c := OnceCopiedIn(old(e.value)); y == c.yield' && cancelled == c.effect.cancels && Did(e, p, c.effect, IO_NULL)
  {
    e.Read();
    if !HasBit(e.bits, SEND_ONCE) {
      return Refused, false;
    }
    cancelled := Dncancel(e);
    p.nakedOnce := p.nakedOnce + 1;
    e.obj, e.bits, e.value := IO_NULL, WithoutBit(e.bits, SEND_ONCE), NO_RIGHT;
    return Got, cancelled;
  }

  /** ipc_right_copyin */
  method Copyin(e: Entry, p: Port?, d: Disposition, deadok: bool) returns (y: Yield, cancelled: bool)
    requires Paired(e, p)
    modifies e, p
    ensures var c := CopiedIn(old(e.value), d, old(Lives(p)), deadok);
      y == c.yield' && cancelled == c.effect.cancels && Did(e, p, c.effect, IO_NULL)
  {
    e.Read();
    if d == MakeSend || d == MakeOnce || d == MoveReceive {
      y, cancelled := CopyinReceive(e, p, d);
      return;
    }
    y, cancelled := Refused, false;
    if !HasBit(e.bits, DEAD_NAME) {
      if !HasBit(e.bits, SEND) && !HasBit(e.bits, SEND_ONCE) {
        return;
      }
      var dead := Check(e, p);
      if !dead {
        if d == MoveOnce {
          y, cancelled := CopyinOnce(e, p);
        } else {
          y, cancelled := CopyinSend(e, p, d == MoveSend);
        }
        return;
      }
    }
    y := TakeDead(e, d != CopySend, deadok);
  }

  /** ipc_right_copyin_undo, after a copyin from an entry r whose port has died: the entry is as r would be by now. */
  method CopyinUndo(e: Entry, p: Port, d: Disposition, soright: bool, ghost r: Right, ghost alive: bool, ghost deadok: bool)
    requires Sane(r) && (r.kind == Send || r.kind == SendOnce) && CopiedIn(r, d, alive, deadok).yield' != Refused
    requires e.Valid() && e.value == CopiedIn(r, d, alive, deadok).effect.right
    requires soright == CopiedIn(r, d, alive, deadok).effect.cancels && !p.active
    modifies e
    ensures e.Valid() && e.value == Died(r) && e.high == old(e.high)
  {
    UndoIsDeath(r, d, alive, deadok);
    CopyinLeaves(r, d, alive, deadok);
    Restore(e, p, d, soright, CopiedIn(r, d, alive, deadok).effect);
  }

  /** What a copyin leaves to be undone. */
  ghost predicate Undoable(f: Effect, d: Disposition) {
    match f.right.kind
    case None => d != CopySend
    case DeadName => !f.cancels && (d != CopySend ==> f.right.urefs < UREFS_MAX)
    case Send => !f.cancels && (d != CopySend ==> f.right.urefs + 1 < UREFS_MAX)
    case _ => false
  }

  lemma CopyinLeaves(r: Right, d: Disposition, alive: bool, deadok: bool)
    requires Sane(r) && (r.kind == Send || r.kind == SendOnce) && CopiedIn(r, d, alive, deadok).yield' != Refused
    ensures Undoable(CopiedIn(r, d, alive, deadok).effect, d)
  {
  }

  method Restore(e: Entry, p: Port, d: Disposition, soright: bool, ghost f: Effect)
    requires e.Valid() && e.value == f.right && soright == f.cancels && !p.active && Undoable(f, d)
    modifies e
    ensures e.Valid() && e.value == Undone(f, d) && e.high == old(e.high)
  {
    Unpacked(e.high, e.value.kind, e.low);
    if soright {
      e.bits := e.bits - Urefs(e.bits) + DEAD_NAME + 2;
      e.value, e.low := Right(DeadName, 2, IO_NULL, 0), 2;
    } else if !HasBit(e.bits, DEAD_NAME) && !HasBit(e.bits, SEND) {
      e.bits := e.bits - Urefs(e.bits) + DEAD_NAME + 1;
      e.value, e.low := Right(DeadName, 1, IO_NULL, 0), 1;
    } else {
      var send := HasBit(e.bits, SEND);
      if d != CopySend {
        e.bits := e.bits + 1;
        e.value, e.low := Plus(e.value, 1), e.low + 1;
      }
      if send {
        var _ := Check(e, p);
      }
    }
  }

  /** ipc_right_copyin_two */
  method CopyinTwo(e: Entry, p: Port?) returns (y: Yield, cancelled: bool)
    requires Paired(e, p)
    modifies e, p
    ensures var c := CopiedInTwo(old(e.value), old(Lives(p))); y == c.yield' && cancelled == c.effect.cancels && Did(e, p, c.effect, IO_NULL)
  {
    e.Read();
    y, cancelled := Refused, false;
    if !HasBit(e.bits, SEND) || Urefs(e.bits) < 2 {
      return;
    }
    var dead := Check(e, p);
    if dead {
      return;
    }
    y := Got;
    p.naked := p.naked + 2;
    if Urefs(e.bits) == 2 {
      p.srights := p.srights + 1;
      cancelled := Unsend(e);
    } else {
      p.srights := p.srights + 2;
      e.bits := e.bits - 2;
      e.value, e.low := Plus(e.value, -2), e.low - 2;
    }
  }

  /** What ipc_right_copyout is given: the entry of the port, or a new one that already points at it. */
  ghost predicate Copyable(e: Entry, o: Object)
    reads e
  {
    && e.bits == Pack(e.high, e.value.kind, e.low) && e.low == e.value.urefs && e.obj == o != IO_NULL && e.request == e.value.request
    && Sane(e.value) && e.hashed == (e.value.kind == Send) && (e.value == NO_RIGHT || (Denotes(e.value) && e.value.obj == o))
  }

  /** ipc_right_copyout of a send right; ok is false on KERN_UREFS_OVERFLOW. */
  method CopyoutSend(e: Entry, p: Port, o: Object, overflow: bool) returns (ok: bool)
    requires Copyable(e, o) && p.srights > 0 && (HasSend(e.value) ==> p.srights > 1)
    modifies e, p
    ensures var (f, done) := SendCopiedOut(old(e.value), o, overflow); ok == done && Did(e, p, f, IO_NULL)
  {
    Unpacked(e.high, e.value.kind, e.low);
    if HasBit(e.bits, SEND) {
      if Urefs(e.bits) + 1 == UREFS_MAX {
        if overflow {
          p.srights := p.srights - 1;
          p.naked := p.naked - 1;
        }
        return overflow;
      }
      p.srights := p.srights - 1;
    } else if !HasBit(e.bits, RECEIVE) {
      e.hashed := true;
    }
    p.naked := p.naked - 1;
    e.bits := WithBit(e.bits, SEND) + 1;
    e.value, e.low := SendCopiedOut(e.value, o, overflow).0.right, e.low + 1;
    return true;
  }

  /** The quick copyout of ipc_kmsg_copyout_object, into a pure send entry found in the local hash. */
  method QuickCopyout(e: Entry, p: Port)
    requires Paired(e, p) && e.value.kind == Send && p.active && p.srights > 1
    modifies e, p
    ensures Did(e, p, SendCopiedOut(old(e.value), old(e.value).obj, true).0, IO_NULL)
  {
    p.srights := p.srights - 1;
    p.naked := p.naked - 1;
    var bits := e.bits + 1;
    Unpacked(e.high, Send, e.low + 1);
    if Urefs(bits) < UREFS_MAX {
      e.bits := bits;
      e.value, e.low := Plus(e.value, 1), e.low + 1;
    }
  }

  /** ipc_right_copyout of a send-once right */
  method CopyoutOnce(e: Entry, p: Port, o: Object)
    requires Copyable(e, o) && e.value == NO_RIGHT
    modifies e, p
    ensures Did(e, p, OnceCopiedOut(o), IO_NULL)
  {
    Unpacked(e.high, e.value.kind, e.low);
    p.nakedOnce := p.nakedOnce - 1;
    e.bits := WithBit(e.bits, SEND_ONCE) + 1;
    e.value, e.low := Right(SendOnce, 1, o, 0), 1;
  }

  /** ipc_right_copyout of a receive right, in limbo or in transit until then. */
  method CopyoutReceive(e: Entry, p: Port, o: Object, space: nat, name: Name) returns (dest: Object)
    requires Copyable(e, o) && !HasReceive(e.value) && p.receiverName == NULL
    modifies e, p`receiver, p`receiverName, p`destination
    ensures Did(e, p, ReceiveCopiedOut(old(e.value), o), IO_NULL)
    ensures p.receiver == space && p.receiverName == name && dest == old(p.destination) && p.destination == IO_NULL
  {
    Unpacked(e.high, e.value.kind, e.low);
    dest := p.destination;
    p.receiverName, p.receiver, p.destination := name, space, IO_NULL;
    if HasBit(e.bits, SEND) {
      e.hashed := false;
    }
    e.bits := WithBit(e.bits, RECEIVE);
    e.value := ReceiveCopiedOut(e.value, o).right;
  }

  /** One send right fewer; a no-senders request goes with the last. */
  method DropSend(p: Port) returns (noSenders: Object)
    modifies p
    ensures p.active == old(p.active) && p.srights == old(p.srights) - 1 && p.sorights == old(p.sorights)
    ensures p.naked == old(p.naked) && p.nakedOnce == old(p.nakedOnce)
    ensures p.ns == (if p.srights == 0 then IO_NULL else old(p.ns)) && noSenders == if p.srights == 0 then old(p.ns) else IO_NULL
  {
    noSenders := IO_NULL;
    p.srights := p.srights - 1;
    if p.srights == 0 {
      noSenders := p.ns;
      if noSenders != IO_NULL {
        p.ns := IO_NULL;
      }
    }
  }

  /** ipc_right_dealloc's dead_name: one reference of a dead name less. */
  method DeallocDead(e: Entry)
    requires e.Valid() && e.value.kind == DeadName
    modifies e
    ensures e.Valid() && e.high == old(e.high) && Same(e.value) == DeadDealloc(old(e.value), Keep)
  {
    e.Read();
    if Urefs(e.bits) == 1 {
      Vacate(e);
    } else {
      e.bits := e.bits - 1;
      e.value, e.low := Plus(e.value, -1), e.low - 1;
    }
  }

  /** ipc_right_dealloc */
  method Dealloc(e: Entry, p: Port?) returns (code: Code, cancelled: bool, noSenders: Object)
    requires Paired(e, p)
    modifies e, p
    ensures var (f, c) := Dealloced(old(e.value), old(Lives(p))); code == c && cancelled == f.cancels && Did(e, p, f, noSenders)
    ensures code == Ok <==> old(Refs(e.value)) > 0
    ensures code == Ok ==> Refs(e.value) == Refs(AsFound(old(e.value), old(Lives(p)))) - 1
  {
    e.Read();
    DeallocRefs(e.value, Lives(p));
    code, cancelled, noSenders := Ok, false, IO_NULL;
    if HasBit(e.bits, DEAD_NAME) {
      DeallocDead(e);
    } else if HasBit(e.bits, SEND) || HasBit(e.bits, SEND_ONCE) {
      var dead := Check(e, p);
      if dead {
        DeallocDead(e);
      } else if HasBit(e.bits, SEND_ONCE) {
        cancelled := Dncancel(e);
        p.nakedOnce := p.nakedOnce + 1;
        Vacate(e);
      } else if Urefs(e.bits) > 1 {
        e.bits := e.bits - 1;
        e.value, e.low := Plus(e.value, -1), e.low - 1;
      } else {
        cancelled, noSenders := GiveUpSend(e, p);
      }
    } else {
      code := InvalidRight;
    }
  }

  /** The last user reference of a live send right goes. */
  method GiveUpSend(e: Entry, p: Port) returns (cancelled: bool, noSenders: Object)
    requires Paired(e, p) && HasSend(e.value)
    modifies e, p
    ensures old(e.value.kind) == SendReceive ==> !cancelled && Did(e, p, Same(Unsent(old(e.value))).(sends := -1), noSenders)
    ensures old(e.value.kind) == Send ==> cancelled == (old(e.value.request) != 0) && Did(e, p, Gone(old(e.value), -1, 0, 0, Delete), noSenders)
  {
    noSenders := DropSend(p);
    cancelled := Unsend(e);
  }

  /** ipc_right_delta for a send right */
  method DeltaSend(e: Entry, p: Port?, delta: int) returns (code: Code, cancelled: bool, noSenders: Object)
    requires Paired(e, p)
    modifies e, p
    ensures var (f, c) := SendDelta(old(e.value), old(Lives(p)), delta); code == c && cancelled == f.cancels && Did(e, p, f, noSenders)
    ensures code == Ok ==> Refs(e.value) == old(Refs(e.value)) + delta
  {
    e.Read();
    SendDeltaRefs(e.value, Lives(p), delta);
    code, cancelled, noSenders := InvalidRight, false, IO_NULL;
    if !HasBit(e.bits, SEND) {
      return;
    }
    var dead := Check(e, p);
    if dead {
      return;
    }
    var urefs := Urefs(e.bits);
    if Underflows(urefs, delta) {
      code := InvalidValue;
    } else if Overflows(urefs + 1, delta) {
      code := UrefsOverflow;
    } else {
      code := Ok;
      if urefs + delta == 0 {
        cancelled, noSenders := GiveUpSend(e, p);
      } else {
        e.bits := e.bits + delta;
        e.value, e.low := Plus(e.value, delta), e.low + delta;
      }
    }
  }

  /** ipc_right_delta for a dead name */
  method DeltaDead(e: Entry, p: Port?, delta: int) returns (code: Code)
    requires Paired(e, p)
    modifies e
    ensures var (f, c) := DeadDelta(old(e.value), old(Lives(p)), delta); code == c && Did(e, p, f, IO_NULL)
  {
    e.Read();
    code := InvalidRight;
    if HasBit(e.bits, SEND) || HasBit(e.bits, SEND_ONCE) {
      var dead := Check(e, p);
      if !dead {
        return;
      }
      e.Read();
    } else if !HasBit(e.bits, DEAD_NAME) {
      return;
    }
    var urefs := Urefs(e.bits);
    if Underflows(urefs, delta) {
      code := InvalidValue;
    } else if Overflows(urefs, delta) {
      code := UrefsOverflow;
    } else {
      code := Ok;
      if urefs + delta == 0 {
        Vacate(e);
      } else {
        e.bits := e.bits + delta;
        e.value, e.low := Plus(e.value, delta), e.low + delta;
      }
    }
  }

  /** ipc_right_delta for a send-once right */
  method DeltaOnce(e: Entry, p: Port?, delta: int) returns (code: Code, cancelled: bool)
    requires Paired(e, p)
    modifies e, p
    ensures var (f, c) := OnceDelta(old(e.value), old(Lives(p)), delta); code == c && cancelled == f.cancels && Did(e, p, f, IO_NULL)
  {
    e.Read();
    code, cancelled := InvalidRight, false;
    if !HasBit(e.bits, SEND_ONCE) {
      return;
    }
    var dead := Check(e, p);
    if dead {
      return;
    }
    if delta > 0 || delta < -1 {
      code := InvalidValue;
    } else {
      code := Ok;
      if delta == -1 {
        cancelled := Dncancel(e);
        p.nakedOnce := p.nakedOnce + 1;
        Vacate(e);
      }
    }
  }
}
