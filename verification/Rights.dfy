/**
 The operations of ipc/ipc_right.c on one entry and its port: what becomes of the entry, of the port's
 counts of rights, of rights in nobody's space ("naked"), of the dead-name request and of the reverse hash.
 */
module Rights {
  import opened MachPort

  /** MACH_PORT_UREFS_MAX: user references have 16 bits, below the type bits. */
  const UREFS_MAX := 0xffff

  predicate Overflows(urefs: nat, delta: int) {
    delta > 0 && urefs + delta > UREFS_MAX
  }

  predicate Underflows(urefs: nat, delta: int) {
    delta < 0 && -delta > urefs
  }

  predicate HasSend(r: Right) {
    r.kind == Send || r.kind == SendReceive
  }

  predicate HasReceive(r: Right) {
    r.kind == Receive || r.kind == SendReceive
  }

  predicate HasOnce(r: Right) {
    r.kind == SendOnce
  }

  /** Entries that let their space send to or receive from a port, by one name. */
  predicate Denotes(r: Right) {
    HasSend(r) || HasReceive(r)
  }

  /** Entries that name a port. */
  predicate NamesPort(r: Right) {
    Denotes(r) || HasOnce(r)
  }

  /** What every entry satisfies: a live send right leaves one user reference spare for its dead-name request. */
  predicate Sane(r: Right) {
    match r.kind
    case None => r == NO_RIGHT
    case Send => 0 < r.urefs < UREFS_MAX && r.obj != IO_NULL
    case Receive => r.urefs == 0 && r.obj != IO_NULL
    case SendReceive => 0 < r.urefs < UREFS_MAX && r.obj != IO_NULL
    case SendOnce => r.urefs == 1 && r.obj != IO_NULL
    case PortSet => r.urefs == 0 && r.request == 0
    case DeadName => 0 < r.urefs <= UREFS_MAX && r.obj == IO_NULL && r.request == 0
  }

  datatype HashOp = Keep | Insert | Delete

  /**
   What an operation does: the entry afterwards, the changes of ip_srights and ip_sorights, of the naked
   send and send-once rights, whether a dead-name request is cancelled and handed out, and the hash call made.
   */
  datatype Effect = Effect(right: Right, sends: int, onces: int, naked: int, nakedOnce: int, cancels: bool, hash: HashOp)

  function Same(r: Right): Effect {
    Effect(r, 0, 0, 0, 0, false, Keep)
  }

  /** Gives up the entry altogether, cancelling its request. */
  function Gone(r: Right, sends: int, naked: int, nakedOnce: int, hash: HashOp): Effect {
    Effect(NO_RIGHT, sends, 0, naked, nakedOnce, r.request != 0, hash)
  }

  /** ipc_right_check on an entry whose port is dead: it becomes a dead name, with a reference for the request. */
  function Died(r: Right): Right {
    Right(DeadName, r.urefs + (if r.request != 0 then 1 else 0), IO_NULL, 0)
  }

  function Checked(r: Right): Effect {
    Effect(Died(r), 0, 0, 0, 0, false, if r.kind == Send then Delete else Keep)
  }

  function Plus(r: Right, n: int): Right
    requires r.urefs + n >= 0
  {
    r.(urefs := r.urefs + n)
  }

  /** The entry of a send right whose last user reference goes. */
  function Unsent(r: Right): Right {
    if r.kind == SendReceive then r.(kind := Receive, urefs := 0) else NO_RIGHT
  }

  datatype Disposition = MoveReceive | CopySend | MoveSend | MoveOnce | MakeSend | MakeOnce

  /** What a copyin yields: nothing, a dead object, or the port with a right. */
  datatype Yield = Refused | Dead | Got

  datatype Copyin = Copyin(yield': Yield, effect: Effect)

  /** Taking a right from a dead name. */
  function FromDead(r: Right, moves: bool, deadok: bool, hash: HashOp): Copyin {
    if !deadok then Copyin(Refused, Same(r).(hash := hash))
    else if !moves || r.urefs == 0 then Copyin(Dead, Same(r).(hash := hash))
    else if r.urefs == 1 then Copyin(Dead, Same(NO_RIGHT).(hash := hash))
    else Copyin(Dead, Same(Plus(r, -1)).(hash := hash))
  }

  /** ipc_right_copyin from the entry of a live port: a send right. */
  function SendCopiedIn(r: Right, moves: bool): Copyin {
    if !HasSend(r) then Copyin(Refused, Same(r))
    else if !moves then Copyin(Got, Same(r).(sends := 1, naked := 1))
    else if r.urefs > 1 then Copyin(Got, Same(Plus(r, -1)).(sends := 1, naked := 1))
    else if r.kind == SendReceive then Copyin(Got, Same(Unsent(r)).(naked := 1))
    else Copyin(Got, Gone(r, 0, 1, 0, Delete))
  }

  /** And a send-once right. */
  function OnceCopiedIn(r: Right): Copyin {
    if HasOnce(r) then Copyin(Got, Gone(r, 0, 0, 1, Keep)) else Copyin(Refused, Same(r))
  }

  /** Or anything made from the receive right. */
  function ReceiveCopiedIn(r: Right, d: Disposition): Copyin {
    if !HasReceive(r) then Copyin(Refused, Same(r))
    else if d == MakeSend then Copyin(Got, Same(r).(sends := 1, naked := 1))
    else if d == MakeOnce then Copyin(Got, Same(r).(onces := 1, nakedOnce := 1))
    else if r.kind == SendReceive then Copyin(Got, Same(r.(kind := Send)).(hash := Insert))
    else Copyin(Got, Gone(r, 0, 0, 0, Keep))
  }

  /** ipc_right_copyin */
  function CopiedIn(r: Right, d: Disposition, alive: bool, deadok: bool): Copyin {
    if d == MakeSend || d == MakeOnce || d == MoveReceive then ReceiveCopiedIn(r, d)
    else if r.kind == DeadName then FromDead(r, d != CopySend, deadok, Keep)
    else if !HasSend(r) && !HasOnce(r) then Copyin(Refused, Same(r))
    else if !alive then FromDead(Died(r), d != CopySend, deadok, Checked(r).hash)
    else if d == MoveOnce then OnceCopiedIn(r)
    else SendCopiedIn(r, d == MoveSend)
  }

  /** ipc_right_copyin_two: two send rights at once. */
  function CopiedInTwo(r: Right, alive: bool): Copyin {
    if !HasSend(r) || r.urefs < 2 then Copyin(Refused, Same(r))
    else if !alive then Copyin(Refused, Checked(r))
    else if r.urefs > 2 then Copyin(Got, Same(Plus(r, -2)).(sends := 2, naked := 2))
    else if r.kind == SendReceive then Copyin(Got, Same(Unsent(r)).(sends := 1, naked := 2))
    else Copyin(Got, Gone(r, 1, 2, 0, Delete))
  }

  /** ipc_right_copyout of a send right for the port p; the second part is false on KERN_UREFS_OVERFLOW. */
  function SendCopiedOut(r: Right, p: Object, overflow: bool): (Effect, bool) {
    if HasSend(r) then
      if r.urefs + 1 < UREFS_MAX then (Same(Plus(r, 1)).(sends := -1, naked := -1), true)
      else if overflow then (Same(r).(sends := -1, naked := -1), true)
      else (Same(r), false)
    else if r.kind == Receive then (Same(r.(kind := SendReceive, urefs := 1)).(naked := -1), true)
    else (Same(Right(Send, 1, p, 0)).(naked := -1, hash := Insert), true)
  }

  /** ipc_right_copyout of a send-once right, into a new entry. */
  function OnceCopiedOut(p: Object): Effect {
    Same(Right(SendOnce, 1, p, 0)).(nakedOnce := -1)
  }

  /** ipc_right_copyout of a receive right. */
  function ReceiveCopiedOut(r: Right, p: Object): Effect {
    if r.kind == Send then Same(r.(kind := SendReceive)).(hash := Delete) else Same(Right(Receive, 0, p, 0))
  }

  /** What a user-reference operation returns. */
  datatype Code = Ok | InvalidRight | InvalidValue | UrefsOverflow

  function DeadDealloc(r: Right, hash: HashOp): Effect
    requires r.urefs > 0
  {
    if r.urefs == 1 then Same(NO_RIGHT).(hash := hash) else Same(Plus(r, -1)).(hash := hash)
  }

  /** ipc_right_dealloc; a send-once right given up goes, naked, into a send-once notification. */
  function Dealloced(r: Right, alive: bool): (Effect, Code)
    requires Sane(r)
  {
    match r.kind
    case DeadName => (DeadDealloc(r, Keep), Ok)
    case SendOnce => if !alive then (DeadDealloc(Died(r), Keep), Ok) else (Gone(r, 0, 0, 1, Keep), Ok)
    case Send =>
      if !alive then (DeadDealloc(Died(r), Delete), Ok)
      else if r.urefs == 1 then (Gone(r, -1, 0, 0, Delete), Ok)
      else (Same(Plus(r, -1)), Ok)
    case SendReceive =>
      if r.urefs == 1 then (Same(Unsent(r)).(sends := -1), Ok) else (Same(Plus(r, -1)), Ok)
    case _ => (Same(r), InvalidRight)
  }

  /** ipc_right_delta for a send right. */
  function SendDelta(r: Right, alive: bool, delta: int): (Effect, Code)
    requires Sane(r)
  {
    if !HasSend(r) then (Same(r), InvalidRight)
    else if !alive then (Checked(r), InvalidRight)
    else if Underflows(r.urefs, delta) then (Same(r), InvalidValue)
    else if Overflows(r.urefs + 1, delta) then (Same(r), UrefsOverflow)
    else if r.urefs + delta != 0 then (Same(Plus(r, delta)), Ok)
    else if r.kind == SendReceive then (Same(Unsent(r)).(sends := -1), Ok)
    else (Gone(r, -1, 0, 0, Delete), Ok)
  }

  /** ipc_right_delta for a dead name. */
  function DeadDelta(r0: Right, alive: bool, delta: int): (Effect, Code)
    requires Sane(r0)
  {
    if r0.kind != DeadName && !((HasSend(r0) || HasOnce(r0)) && !alive) then (Same(r0), InvalidRight)
    else
      var r, hash := if r0.kind == DeadName then r0 else Died(r0), if r0.kind == Send then Delete else Keep;
      if Underflows(r.urefs, delta) then (Same(r).(hash := hash), InvalidValue)
      else if Overflows(r.urefs, delta) then (Same(r).(hash := hash), UrefsOverflow)
      else if r.urefs + delta == 0 then (Same(NO_RIGHT).(hash := hash), Ok)
      else (Same(Plus(r, delta)).(hash := hash), Ok)
  }

  /** ipc_right_delta for a send-once right. */
  function OnceDelta(r: Right, alive: bool, delta: int): (Effect, Code)
    requires Sane(r)
  {
    if !HasOnce(r) then (Same(r), InvalidRight)
    else if !alive then (Checked(r), InvalidRight)
    else if delta > 0 || delta < -1 then (Same(r), InvalidValue)
    else if delta == 0 then (Same(r), Ok)
    else (Gone(r, 0, 0, 1, Keep), Ok)
  }

  /**
   ipc_right_delta of -1 for a receive right.  A send right in the same entry turns into a dead name, and
   ip_srights is left alone: the port is taken to be destroyed first.
   */
  function ReceiveDelta(r: Right): Effect {
    if r.kind == SendReceive then Same(Died(r)) else Gone(r, 0, 0, 0, Keep)
  }

  /** ipc_right_destroy; the port of a receive right is destroyed afterwards. */
  function Destroyed(r: Right, alive: bool): Effect {
    var hash := if r.kind == Send then Delete else Keep;
    if !NamesPort(r) || !alive then Same(NO_RIGHT).(hash := hash)
    else Gone(r, if HasSend(r) then -1 else 0, 0, if HasOnce(r) then 1 else 0, hash)
  }

  /** ipc_right_dnrequest on a dead name, with immediate notification. */
  function Notified(r: Right): (Effect, Code) {
    if Overflows(r.urefs, 1) then (Same(r), UrefsOverflow) else (Same(Plus(r, 1)), Ok)
  }

  // ------------------------------------------------------------ what each of them keeps

  function Bit(b: bool): int {
    if b then 1 else 0
  }

  /** The port's counts change as the rights in the entry and the naked rights do. */
  predicate Balanced(r: Right, e: Effect) {
    && e.sends == e.naked + Bit(HasSend(e.right)) - Bit(HasSend(r))
    && e.onces == e.nakedOnce + Bit(HasOnce(e.right)) - Bit(HasOnce(r))
  }

  /** The hash call is the one that keeps exactly the pure send rights hashed. */
  predicate Hashed(r: Right, e: Effect) {
    e.hash == if r.kind != Send && e.right.kind == Send then Insert
              else if r.kind == Send && e.right.kind != Send then Delete
              else Keep
  }

  /** The entry still names the same port, or none; its request goes with it or is handed out. */
  predicate Tidy(r: Right, e: Effect) {
    && (NamesPort(e.right) ==> e.right.obj == r.obj && e.right.request == r.request)
    && (HasSend(e.right) ==> HasSend(r)) && (HasReceive(e.right) ==> HasReceive(r)) && (HasOnce(e.right) ==> HasOnce(r))
    && (e.cancels ==> !NamesPort(e.right) && r.request != 0)
  }

  /** What an operation on the entry of a live port keeps. */
  predicate Keeps(r: Right, e: Effect) {
    Sane(e.right) && Balanced(r, e) && Hashed(r, e) && Tidy(r, e) && (e.cancels <==> r.request != 0 && !NamesPort(e.right))
  }

  /** And on one whose port is dead, where the counts no longer matter. */
  predicate KeepsDead(r: Right, e: Effect) {
    Sane(e.right) && Hashed(r, e) && Tidy(r, e) && !e.cancels
  }

  lemma DiedSane(r: Right)
    requires Sane(r) && (HasSend(r) || HasOnce(r))
    ensures Sane(Died(r)) && KeepsDead(r, Checked(r))
  {
  }

  /** What every operation keeps of an entry: its invariant, the balance of rights while the port lives, and the hash. */
  predicate KeepsAll(r: Right, alive: bool, e: Effect) {
    if alive || !NamesPort(r) then Keeps(r, e) else KeepsDead(r, e)
  }

  lemma SameKeeps(r: Right)
    requires Sane(r)
    ensures Keeps(r, Same(r)) && KeepsDead(r, Same(r))
  {
  }

  /** A user reference more or less. */
  lemma PlusKeeps(r: Right, n: int)
    requires Sane(r) && ((HasSend(r) && 0 < r.urefs + n < UREFS_MAX) || (r.kind == DeadName && 0 < r.urefs + n <= UREFS_MAX))
    ensures Keeps(r, Same(Plus(r, n)))
  {
  }

  /** The last reference of a live send right, kept naked or given up. */
  lemma LastSendKeeps(r: Right, naked: int)
    requires Sane(r) && HasSend(r)
    ensures r.kind == SendReceive ==> Keeps(r, Same(Unsent(r)).(sends := naked - 1, naked := naked))
    ensures r.kind == Send ==> Keeps(r, Gone(r, naked - 1, naked, 0, Delete))
  {
  }

  /** Rights made naked in any number. */
  lemma MoreKeeps(r: Right, e: Effect, n: int)
    requires Keeps(r, e)
    ensures Keeps(r, e.(sends := e.sends + n, naked := e.naked + n)) && Keeps(r, e.(onces := e.onces + n, nakedOnce := e.nakedOnce + n))
  {
  }

  /** The receive right leaves its entry. */
  lemma ReceiveGoneKeeps(r: Right)
    requires Sane(r) && HasReceive(r)
    ensures r.kind == SendReceive ==> Keeps(r, Same(r.(kind := Send)).(hash := Insert))
    ensures r.kind == Receive ==> Keeps(r, Gone(r, 0, 0, 0, Keep))
  {
  }

  /** A send-once right leaves its entry. */
  lemma OnceGoneKeeps(r: Right)
    requires Sane(r) && HasOnce(r)
    ensures Keeps(r, Gone(r, 0, 0, 1, Keep))
  {
  }

  /** References of the dead name an entry turns into. */
  lemma DeadKeeps(r: Right, d: Right)
    requires Sane(r) && (HasSend(r) || HasOnce(r)) && Sane(d) && (d == NO_RIGHT || d.kind == DeadName)
    ensures KeepsDead(r, Same(d).(hash := Checked(r).hash))
  {
  }

  lemma DeadNameKeeps(r: Right, d: Right)
    requires Sane(r) && r.kind == DeadName && Sane(d) && (d == NO_RIGHT || d.kind == DeadName)
    ensures Keeps(r, Same(d))
  {
  }

  lemma FromDeadKeeps(r: Right, moves: bool, deadok: bool)
    requires Sane(r)
    ensures r.kind == DeadName ==> Keeps(r, FromDead(r, moves, deadok, Keep).effect)
    ensures HasSend(r) || HasOnce(r) ==> KeepsDead(r, FromDead(Died(r), moves, deadok, Checked(r).hash).effect)
  {
  }

  lemma SendCopyinKeeps(r: Right, moves: bool)
    requires Sane(r)
    ensures Keeps(r, SendCopiedIn(r, moves).effect)
  {
    SameKeeps(r);
    if HasSend(r) {
      MoreKeeps(r, Same(r), 1);
      LastSendKeeps(r, 1);
      if r.urefs > 1 {
        PlusKeeps(r, -1);
        MoreKeeps(r, Same(Plus(r, -1)), 1);
      }
    }
  }

  lemma ReceiveCopyinKeeps(r: Right, d: Disposition)
    requires Sane(r)
    ensures Keeps(r, ReceiveCopiedIn(r, d).effect)
  {
    SameKeeps(r);
    if HasReceive(r) {
      MoreKeeps(r, Same(r), 1);
      ReceiveGoneKeeps(r);
    }
  }

  lemma CopyinKeeps(r: Right, d: Disposition, alive: bool, deadok: bool)
    requires Sane(r) && (HasReceive(r) ==> alive)
    ensures KeepsAll(r, alive, CopiedIn(r, d, alive, deadok).effect)
  {
    SameKeeps(r);
    SendCopyinKeeps(r, d == MoveSend);
    ReceiveCopyinKeeps(r, d);
    FromDeadKeeps(r, d != CopySend, deadok);
    if HasOnce(r) {
      OnceGoneKeeps(r);
    }
  }

  lemma CopyinTwoKeeps(r: Right, alive: bool)
    requires Sane(r) && (HasReceive(r) ==> alive)
    ensures KeepsAll(r, alive, CopiedInTwo(r, alive).effect)
  {
    SameKeeps(r);
    if HasSend(r) {
      LastSendKeeps(r, 2);
    }
  }

  lemma DeadDeallocKeeps(r: Right)
    requires Sane(r)
    ensures r.kind == DeadName ==> Keeps(r, DeadDealloc(r, Keep))
    ensures HasSend(r) || HasOnce(r) ==> Died(r).urefs > 0 && KeepsDead(r, DeadDealloc(Died(r), Checked(r).hash))
  {
  }

  lemma DeallocKeeps(r: Right, alive: bool)
    requires Sane(r) && (HasReceive(r) ==> alive)
    ensures KeepsAll(r, alive, Dealloced(r, alive).0)
  {
    SameKeeps(r);
    DeadDeallocKeeps(r);
    if HasSend(r) {
      LastSendKeeps(r, 0);
      if r.urefs > 1 {
        PlusKeeps(r, -1);
      }
    } else if HasOnce(r) {
      OnceGoneKeeps(r);
    }
  }

  lemma SendDeltaKeeps(r: Right, alive: bool, delta: int)
    requires Sane(r) && (HasReceive(r) ==> alive)
    ensures KeepsAll(r, alive, SendDelta(r, alive, delta).0)
  {
    if !HasSend(r) || (alive && SendDelta(r, alive, delta).1 != Ok) {
      SameKeeps(r);
    } else if !alive {
      DiedSane(r);
    } else if r.urefs + delta == 0 {
      LastSendKeeps(r, 0);
    } else {
      PlusKeeps(r, delta);
    }
  }

  lemma DeadDeltaKeeps(r: Right, alive: bool, delta: int)
    requires Sane(r) && (HasReceive(r) ==> alive)
    ensures KeepsAll(r, alive, DeadDelta(r, alive, delta).0)
  {
    if r.kind == DeadName {
      DeadNameDelta(r, delta);
      DeadNameKeeps(r, DeadDelta(r, alive, delta).0.right);
    } else if (HasSend(r) || HasOnce(r)) && !alive {
      DiedSane(r);
      DeadNameDelta(Died(r), delta);
      DeadKeeps(r, DeadDelta(r, alive, delta).0.right);
    } else {
      SameKeeps(r);
    }
  }

  /** A dead name's references stay within bounds. */
  lemma DeadNameDelta(r: Right, delta: int)
    requires Sane(r) && r.kind == DeadName
    ensures var d := DeadDelta(r, false, delta).0.right; Sane(d) && (d == NO_RIGHT || d.kind == DeadName)
  {
  }

  lemma OnceDeltaKeeps(r: Right, alive: bool, delta: int)
    requires Sane(r) && (HasReceive(r) ==> alive)
    ensures KeepsAll(r, alive, OnceDelta(r, alive, delta).0)
  {
    SameKeeps(r);
    if HasOnce(r) {
      OnceGoneKeeps(r);
      DiedSane(r);
    }
  }

  lemma DestroyKeeps(r: Right, alive: bool)
    requires Sane(r) && (HasReceive(r) ==> alive)
    ensures KeepsAll(r, alive, Destroyed(r, alive))
  {
    if NamesPort(r) && !alive {
      DeadKeeps(r, NO_RIGHT);
    } else if HasOnce(r) {
      OnceGoneKeeps(r);
    }
  }

  lemma CopyoutKeeps(r: Right, p: Object, overflow: bool)
    requires Sane(r) && p != IO_NULL && (r == NO_RIGHT || (NamesPort(r) && r.obj == p && !HasOnce(r)))
    ensures var e := SendCopiedOut(r, p, overflow).0; Sane(e.right) && Balanced(r, e) && Hashed(r, e) && !e.cancels
    ensures !HasReceive(r) ==> var e := ReceiveCopiedOut(r, p); Sane(e.right) && Balanced(r, e) && Hashed(r, e) && !e.cancels
    ensures r == NO_RIGHT ==> var e := OnceCopiedOut(p); Sane(e.right) && Balanced(r, e) && Hashed(r, e) && !e.cancels
  {
  }

  lemma NotifiedKeeps(r: Right)
    requires Sane(r) && r.kind == DeadName
    ensures Keeps(r, Notified(r).0)
  {
  }

  /** Giving up a receive right keeps everything but, and only when the entry has a send right, the balance of ip_srights. */
  lemma ReceiveDeltaKeeps(r: Right)
    requires Sane(r) && HasReceive(r)
    ensures var e := ReceiveDelta(r); Sane(e.right) && Hashed(r, e) && Tidy(r, e)
    ensures Keeps(r, ReceiveDelta(r)) <==> r.kind == Receive
    ensures Balanced(r, ReceiveDelta(r)) <==> r.kind == Receive
  {
    ReceiveGoneKeeps(r);
  }

  /** The operations on an existing entry that leave its port alive, or find it dead. */
  datatype Op =
    | CopyinOp(d: Disposition, deadok: bool) | CopyinTwoOp | DeallocOp | CheckOp | NotifyOp
    | SendDeltaOp(n: int) | DeadDeltaOp(n: int) | OnceDeltaOp(n: int)

  function EffectOf(op: Op, r: Right, alive: bool): Effect
    requires Sane(r)
  {
    match op
    case CopyinOp(d, deadok) => CopiedIn(r, d, alive, deadok).effect
    case CopyinTwoOp => CopiedInTwo(r, alive).effect
    case DeallocOp => Dealloced(r, alive).0
    case CheckOp => if (HasSend(r) || HasOnce(r)) && !alive then Checked(r) else Same(r)
    case NotifyOp => if r.kind == DeadName then Notified(r).0 else Same(r)
    case SendDeltaOp(n) => SendDelta(r, alive, n).0
    case DeadDeltaOp(n) => DeadDelta(r, alive, n).0
    case OnceDeltaOp(n) => OnceDelta(r, alive, n).0
  }

  lemma OpKeeps(op: Op, r: Right, alive: bool)
    requires Sane(r) && (HasReceive(r) ==> alive)
    ensures KeepsAll(r, alive, EffectOf(op, r, alive))
  {
    SameKeeps(r);
    match op
    case CopyinOp(d, deadok) => CopyinKeeps(r, d, alive, deadok);
    case CopyinTwoOp => CopyinTwoKeeps(r, alive);
    case DeallocOp => DeallocKeeps(r, alive);
    case CheckOp => if HasSend(r) || HasOnce(r) { DiedSane(r); }
    case NotifyOp => if r.kind == DeadName { NotifiedKeeps(r); }
    case SendDeltaOp(n) => SendDeltaKeeps(r, alive, n);
    case DeadDeltaOp(n) => DeadDeltaKeeps(r, alive, n);
    case OnceDeltaOp(n) => OnceDeltaKeeps(r, alive, n);
  }
}
