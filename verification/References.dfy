/** What the operations of ipc/ipc_right.c do with user references, and which rights they give and take. */
module References {
  import opened MachPort
  import opened Rights

  /** The user references of an entry; those of a send-once right are not counted but one. */
  function Refs(r: Right): nat {
    match r.kind
    case Send => r.urefs
    case SendReceive => r.urefs
    case DeadName => r.urefs
    case SendOnce => 1
    case _ => 0
  }

  /** An entry as an operation on it finds it: a dead name if its port has died. */
  function AsFound(r: Right, alive: bool): Right {
    if (HasSend(r) || HasOnce(r)) && !alive then Died(r) else r
  }

  /** A sane entry; a port whose receive right is in an entry lives. */
  ghost predicate Usual(r: Right, alive: bool) {
    Sane(r) && (HasReceive(r) ==> alive)
  }

  /** The reference for a dead-name request is added when the port is found dead. */
  lemma FoundRefs(r: Right, alive: bool)
    requires Usual(r, alive)
    ensures Refs(AsFound(r, alive)) == Refs(r) + Bit(!alive && (HasSend(r) || HasOnce(r)) && r.request != 0)
    ensures AsFound(r, alive).kind == DeadName <==> r.kind == DeadName || (!alive && (HasSend(r) || HasOnce(r)))
  {
  }

  /** The entry e.right is what is left of the right r after n of its references went, or came if n is negative. */
  ghost predicate Spent(r: Right, e: Effect, n: int) {
    && Refs(e.right) == Refs(r) - n && (HasReceive(e.right) <==> HasReceive(r))
    && (Refs(e.right) > 0 ==> e.right == r.(urefs := e.right.urefs))
    && (Refs(e.right) == 0 ==> e.right == if HasReceive(r) then r.(kind := Receive, urefs := 0) else NO_RIGHT)
  }

  // ------------------------------------------------------------ giving up references

  /** Dealloc takes one reference, from any entry that has one, and the right with the last of them. */
  lemma DeallocRefs(r: Right, alive: bool)
    requires Usual(r, alive)
    ensures var (e, code) := Dealloced(r, alive);
      && (code == Ok <==> Refs(r) > 0) && (code != Ok ==> code == InvalidRight && e == Same(r))
      && (code == Ok ==> Spent(AsFound(r, alive), e, 1))
      && e.naked == 0 && e.nakedOnce == Bit(alive && HasOnce(r))
  {
  }

  /** The entry after n deallocs. */
  ghost function Deallocs(r: Right, alive: bool, n: nat): Right
    requires Usual(r, alive)
    decreases n
  {
    if n == 0 then r else
      DeallocKeeps(r, alive);
      Deallocs(Dealloced(r, alive).0.right, alive, n - 1)
  }

  /** An entry with n references is given up by n deallocs, and by no fewer. */
  lemma {:induction false} DeallocRun(r: Right, alive: bool, n: nat)
    requires Usual(r, alive) && n <= Refs(AsFound(r, alive))
    ensures Refs(AsFound(Deallocs(r, alive, n), alive)) == Refs(AsFound(r, alive)) - n
    ensures n < Refs(AsFound(r, alive)) ==> Deallocs(r, alive, n) != NO_RIGHT
    ensures n == Refs(AsFound(r, alive)) > 0 ==>
      Deallocs(r, alive, n) == if HasReceive(r) then r.(kind := Receive, urefs := 0) else NO_RIGHT
    decreases n
  {
    if n > 0 {
      DeallocKeeps(r, alive);
      DeallocRefs(r, alive);
      DeallocRun(Dealloced(r, alive).0.right, alive, n - 1);
    }
  }

  /** A delta changes a live send right's references by just that much, within bounds that leave one spare. */
  lemma SendDeltaRefs(r: Right, alive: bool, delta: int)
    requires Usual(r, alive)
    ensures var (e, code) := SendDelta(r, alive, delta);
      && (code == InvalidRight <==> !(HasSend(r) && alive))
      && (code == InvalidValue <==> HasSend(r) && alive && r.urefs + delta < 0)
      && (code == UrefsOverflow <==> HasSend(r) && alive && delta > 0 && r.urefs + delta >= UREFS_MAX)
      && (code == Ok ==> Spent(r, e, -delta)) && (code != Ok ==> e.right == if HasSend(r) then AsFound(r, alive) else r)
      && e.naked == 0 && e.nakedOnce == 0
  {
  }

  lemma DeadDeltaRefs(r: Right, alive: bool, delta: int)
    requires Usual(r, alive)
    ensures var (e, code), found := DeadDelta(r, alive, delta), AsFound(r, alive);
      && (code == InvalidRight <==> found.kind != DeadName)
      && (code == InvalidValue <==> found.kind == DeadName && found.urefs + delta < 0)
      && (code == UrefsOverflow <==> found.kind == DeadName && delta > 0 && found.urefs + delta > UREFS_MAX)
      && (code == Ok ==> Spent(found, e, -delta)) && (code != Ok ==> e.right == found) && e.naked == 0 && e.nakedOnce == 0
  {
  }

  /** A send-once right given up goes into a notification. */
  lemma OnceDeltaRefs(r: Right, alive: bool, delta: int)
    requires Usual(r, alive)
    ensures var (e, code) := OnceDelta(r, alive, delta);
      && (code == InvalidRight <==> !(HasOnce(r) && alive)) && (code == InvalidValue <==> HasOnce(r) && alive && delta != 0 && delta != -1)
      && code != UrefsOverflow && (code == Ok ==> Spent(r, e, -delta) && e.nakedOnce == -delta)
      && (code != Ok ==> e.right == (if HasOnce(r) then AsFound(r, alive) else r) && e.nakedOnce == 0) && e.naked == 0
  {
  }

  /** An immediate notification adds a reference to the dead name, unless there is no room for it. */
  lemma NotifiedRefs(r: Right)
    requires Sane(r) && r.kind == DeadName
    ensures var (e, code) := Notified(r);
      if r.urefs < UREFS_MAX then code == Ok && Spent(r, e, -1) else code == UrefsOverflow && e == Same(r)
  {
  }

  /** Destroy takes all of them. */
  lemma DestroyRefs(r: Right, alive: bool)
    requires Usual(r, alive)
    ensures var e := Destroyed(r, alive); e.right == NO_RIGHT && e.naked == 0 && e.nakedOnce == Bit(alive && HasOnce(r))
  {
  }

  /** What a receive right given up leaves: the send right's references, and one for its request, in a dead name. */
  lemma ReceiveDeltaRefs(r: Right)
    requires Sane(r) && HasReceive(r)
    ensures var e := ReceiveDelta(r);
      && Refs(e.right) == Refs(r) + Bit(r.kind == SendReceive && r.request != 0) && (e.right.kind == DeadName || e.right == NO_RIGHT)
      && e.naked == 0 && e.nakedOnce == 0
  {
  }

  // ------------------------------------------------------------ copyin

  /** Dispositions that need the receive right, and those that take a right out of the entry. */
  predicate OfReceive(d: Disposition) {
    d == MoveReceive || d == MakeSend || d == MakeOnce
  }

  predicate Moves(d: Disposition) {
    d == MoveReceive || d == MoveSend || d == MoveOnce
  }

  /** The entry has the right that the disposition asks for. */
  predicate Offers(r: Right, d: Disposition) {
    if OfReceive(d) then HasReceive(r) else if d == MoveOnce then HasOnce(r) else HasSend(r)
  }

  /** When a copyin succeeds, with a right or, if that is accepted, with a dead name. */
  lemma CopyinYields(r: Right, d: Disposition, alive: bool, deadok: bool)
    requires Usual(r, alive)
    ensures var c := CopiedIn(r, d, alive, deadok);
      && (c.yield' == Got <==> Offers(r, d) && (alive || OfReceive(d)))
      && (c.yield' == Dead <==> deadok && !OfReceive(d) && AsFound(r, alive).kind == DeadName)
  {
  }

  /** What it carries away: one right of the kind asked for, or nothing. */
  lemma CopyinCarries(r: Right, d: Disposition, alive: bool, deadok: bool)
    requires Usual(r, alive)
    ensures var c := CopiedIn(r, d, alive, deadok);
      && c.effect.naked == Bit(c.yield' == Got && (d == CopySend || d == MoveSend || d == MakeSend))
      && c.effect.nakedOnce == Bit(c.yield' == Got && (d == MoveOnce || d == MakeOnce))
  {
  }

  /** And what it leaves: a move takes one reference, or the receive right; the others nothing. */
  lemma CopyinLeaves(r: Right, d: Disposition, alive: bool, deadok: bool)
    requires Usual(r, alive)
    ensures var c, found := CopiedIn(r, d, alive, deadok), if OfReceive(d) then r else AsFound(r, alive);
      && (c.yield' == Refused || !Moves(d) ==> c.effect.right == found)
      && (c.yield' != Refused && Moves(d) && d != MoveReceive ==> Spent(found, c.effect, 1))
      && (c.yield' == Got && d == MoveReceive ==>
           c.effect.right == if r.kind == SendReceive then r.(kind := Send) else NO_RIGHT)
  {
  }

  /** The entry e left of r by a copyin that gave a right: a move takes one reference, or the receive right. */
  ghost predicate CopiedFrom(r: Right, d: Disposition, e: Right) {
    if !Moves(d) then e == r
    else if d == MoveReceive then e == if r.kind == SendReceive then r.(kind := Send) else NO_RIGHT
    else Refs(e) == Refs(r) - 1 && (Refs(e) > 0 ==> e == r.(urefs := e.urefs)) && (Refs(e) == 0 ==> e == if HasReceive(r) then r.(kind := Receive, urefs := 0) else NO_RIGHT)
  }

  lemma CopyinCopies(r: Right, d: Disposition, alive: bool, deadok: bool)
    requires Usual(r, alive) && CopiedIn(r, d, alive, deadok).yield' == Got
    ensures CopiedFrom(r, d, CopiedIn(r, d, alive, deadok).effect.right)
  {
    CopyinYields(r, d, alive, deadok);
    CopyinLeaves(r, d, alive, deadok);
  }

  /** Two send rights for two references. */
  lemma CopyinTwoRefs(r: Right, alive: bool)
    requires Usual(r, alive)
    ensures var c := CopiedInTwo(r, alive);
      && c.yield' != Dead && (c.yield' == Got <==> HasSend(r) && alive && Refs(r) >= 2)
      && (c.yield' == Got ==> Spent(r, c.effect, 2) && c.effect.naked == 2) && c.effect.nakedOnce == 0
      && (c.yield' == Refused ==> c.effect.naked == 0 && c.effect.right == if HasSend(r) && Refs(r) >= 2 then AsFound(r, alive) else r)
  {
  }

  // ------------------------------------------------------------ copyout

  /** The entry a right for the port p is copied out to: a new one, or the one the space has. */
  ghost predicate Meets(r: Right, p: Object) {
    Sane(r) && p != IO_NULL && (r == NO_RIGHT || (Denotes(r) && r.obj == p))
  }

  /** A send right adds a reference, or none at the largest count, and is refused there if that is not allowed. */
  lemma SendOutRefs(r: Right, p: Object, overflow: bool)
    requires Meets(r, p)
    ensures var (e, ok) := SendCopiedOut(r, p, overflow);
      && (ok <==> overflow || Refs(r) < UREFS_MAX - 1) && (!ok ==> e == Same(r))
      && (ok ==> HasSend(e.right) && e.right.obj == p && Refs(e.right) == (if Refs(r) < UREFS_MAX - 1 then Refs(r) + 1 else Refs(r)))
      && (ok ==> e.naked == -1 && e.nakedOnce == 0) && (HasReceive(e.right) <==> HasReceive(r)) && e.right.request == r.request
  {
  }

  lemma OnceOutRefs(p: Object)
    ensures var e := OnceCopiedOut(p); HasOnce(e.right) && e.right.obj == p && Refs(e.right) == 1 && e.naked == 0 && e.nakedOnce == -1
  {
  }

  /** A receive right joins the send right the entry may have. */
  lemma ReceiveOutRefs(r: Right, p: Object)
    requires Meets(r, p) && !HasReceive(r)
    ensures var e := ReceiveCopiedOut(r, p);
      && HasReceive(e.right) && e.right.obj == p && (HasSend(e.right) <==> HasSend(r)) && Refs(e.right) == Refs(r)
      && e.right.request == r.request && e.naked == 0 && e.nakedOnce == 0
  {
  }
}
