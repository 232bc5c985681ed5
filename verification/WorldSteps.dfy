/** What each step of a run does to all spaces and ports, and what it leaves alone. */
module WorldSteps {
  import opened MachPort
  import opened Rights
  import opened References
  import opened RightsWorld

  /** No entry but that of k changes. */
  ghost predicate OnlyEntry(w: World, w': World, k: Key) {
    forall j :: j != k ==> Entry(w', j) == Entry(w, j)
  }

  /** How many naked send-once rights for x there are more. */
  ghost function Handed(w: World, w': World, x: Object): int
    requires x in w.ports && x in w'.ports
  {
    w'.ports[x].nakedOnce - w.ports[x].nakedOnce
  }

  // ------------------------------------------------------------ entries

  lemma AppliedEntry(w: World, k: Key, p: Object, e: Effect)
    requires Storable(e)
    ensures var w' := Applied(w, k, p, e); Entry(w', k) == e.right && OnlyEntry(w, w', k)
  {
    AppliedShape(w, k, p, e);
  }

  ghost predicate Storable(e: Effect) {
    e.right.kind == None ==> e.right == NO_RIGHT
  }

  /** The naked rights a step on an entry makes or uses up; no-senders requests are about send-once rights only. */
  lemma AppliedNaked(w: World, k: Key, p: Object, e: Effect, x: Object)
    requires x in w.ports
    ensures x in Applied(w, k, p, e).ports && Applied(w, k, p, e).ports[x].naked == w.ports[x].naked + (if x == p then e.naked else 0)
  {
  }

  /** An operation changes its own entry, as it changes one entry alone, and no other. */
  lemma OperatedExact(w: World, k: Key, op: Op)
    requires Inv(w) && k in w.entries
    ensures var r := w.entries[k]; var w' := Operated(w, k, op);
      && Entry(w', k) == EffectOf(op, r, Alive(w, r.obj)).right && OnlyEntry(w, w', k)
      && (forall x :: x in w.ports ==> x in w'.ports && (w'.ports[x].active <==> w.ports[x].active))
  {
    var r := w.entries[k];
    var e := EffectOf(op, r, Alive(w, r.obj));
    OpKeeps(op, r, Alive(w, r.obj));
    AppliedEntry(w, k, r.obj, e);
    AppliedShape(w, k, r.obj, e);
  }

  /** A dealloc takes one reference of the entry as it is found, whatever else is in the world. */
  lemma DeallocStep(w: World, k: Key)
    requires Inv(w) && k in w.entries
    ensures var alive := Alive(w, w.entries[k].obj);
      Refs(w.entries[k]) > 0 ==> Refs(Entry(Operated(w, k, DeallocOp), k)) == Refs(AsFound(w.entries[k], alive)) - 1
  {
    OperatedExact(w, k, DeallocOp);
    DeallocRefs(w.entries[k], Alive(w, w.entries[k].obj));
  }

  // ------------------------------------------------------------ rights copied out

  lemma SentOutExact(w: World, k: Key, p: Object, overflow: bool)
    requires Inv(w) && Chosen(w, k, p)
    ensures var r, w' := Entry(w, k), SentOut(w, k, p, overflow); var ok := overflow || Refs(r) < UREFS_MAX - 1;
      && OnlyEntry(w, w', k) && (!ok ==> Entry(w', k) == r)
      && (ok ==> HasSend(Entry(w', k)) && Entry(w', k).obj == p && Refs(Entry(w', k)) == Refs(r) + Bit(Refs(r) < UREFS_MAX - 1))
      && (HasReceive(Entry(w', k)) <==> HasReceive(r)) && p in w'.ports && w'.ports[p].naked == w.ports[p].naked - Bit(ok)
  {
    var r := Entry(w, k);
    var e := SendCopiedOut(r, p, overflow).0;
    SendOutRefs(r, p, overflow);
    AppliedEntry(w, k, p, e);
    AppliedNaked(w, k, p, e, p);
  }

  lemma OnceOutExact(w: World, k: Key, p: Object)
    requires Inv(w) && k !in w.entries && Alive(w, p)
    ensures var w' := OnceOut(w, k, p);
      && OnlyEntry(w, w', k) && HasOnce(Entry(w', k)) && Entry(w', k).obj == p
      && p in w'.ports && Handed(w, w', p) == -1
  {
    AppliedEntry(w, k, p, OnceCopiedOut(p));
  }

  lemma ReceivedOutExact(w: World, k: Key, p: Object)
    requires Inv(w) && Chosen(w, k, p) && w.ports[p].receiver == Nowhere
    ensures var r, w' := Entry(w, k), ReceivedOut(w, k, p);
      && OnlyEntry(w, w', k) && HasReceive(Entry(w', k)) && Entry(w', k).obj == p
      && (HasSend(Entry(w', k)) <==> HasSend(r)) && Refs(Entry(w', k)) == Refs(r)
      && p in w'.ports && w'.ports[p].receiver == At(k)
  {
    NotYetReceived(w, k, p);
    ReceiveOutRefs(Entry(w, k), p);
    AppliedEntry(w, k, p, ReceiveCopiedOut(Entry(w, k), p));
  }

  lemma NotYetReceived(w: World, k: Key, p: Object)
    requires Inv(w) && Chosen(w, k, p) && w.ports[p].receiver == Nowhere
    ensures Meets(Entry(w, k), p) && !HasReceive(Entry(w, k))
  {
  }

  // ------------------------------------------------------------ ports and requests

  lemma BornExact(w: World, k: Key, p: Object)
    requires Inv(w) && k !in w.entries && p !in w.ports
    ensures var w' := Born(w, k, p);
      && OnlyEntry(w, w', k) && HasReceive(Entry(w', k)) && !HasSend(Entry(w', k)) && Entry(w', k).obj == p
      && Alive(w', p) && w'.ports[p].receiver == At(k) && w'.ports[p].srights == w'.ports[p].sorights == 0
      && w'.dn == w.dn && forall x :: x in w.ports ==> x in w'.ports && w'.ports[x] == w.ports[x]
  {
  }

  /** A request is registered for the name, and the right registered before it, if any, is given back. */
  lemma RegisteredExact(w: World, k: Key, q: Object, x: Object)
    requires k in w.entries && q in w.ports && x in w.ports
    ensures var w' := Registered(w, k, q);
      && k in w'.dn && w'.dn[k] == Request(w.entries[k].obj, q) && (forall j :: j != k ==> (j in w'.dn <==> j in w.dn) && (j in w.dn ==> w'.dn[j] == w.dn[j]))
      && OnlyEntry(w, w', k) && Entry(w', k).request != 0 && Entry(w', k).(request := 0) == w.entries[k].(request := 0)
      && x in w'.ports && Handed(w, w', x) == Bit(k in w.dn && w.dn[k].soright == x) - Bit(x == q)
  {
  }

  lemma CancelledExact(w: World, k: Key, x: Object)
    requires k in w.entries && x in w.ports
    ensures var w' := Cancelled(w, k);
      && w'.dn == w.dn - {k} && OnlyEntry(w, w', k) && Entry(w', k) == w.entries[k].(request := 0)
      && x in w'.ports && Handed(w, w', x) == Bit(k in w.dn && w.dn[k].soright == x)
  {
  }

  /** A port-destroyed request takes the place of the one before it, which is given back. */
  lemma PdSetExact(w: World, p: Object, q: Object, x: Object)
    requires IO_NULL !in w.ports && p in w.ports && (q == IO_NULL || q in w.ports) && x in w.ports
    ensures var w' := PdSet(w, p, q);
      && w'.entries == w.entries && w'.dn == w.dn && p in w'.ports && x in w'.ports
      && w'.ports[p].pd == q && (x != p ==> w'.ports[x].pd == w.ports[x].pd) && w'.ports[x].ns == w.ports[x].ns
      && w'.ports[x].active == w.ports[x].active && w'.ports[x].receiver == w.ports[x].receiver
      && Handed(w, w', x) == Bit(w.ports[p].pd == x) - Bit(x == q)
  {
  }

  lemma NsSetExact(w: World, p: Object, q: Object, x: Object)
    requires IO_NULL !in w.ports && p in w.ports && (q == IO_NULL || q in w.ports) && x in w.ports
    ensures var w' := NsSet(w, p, q);
      && w'.entries == w.entries && w'.dn == w.dn && p in w'.ports && x in w'.ports
      && w'.ports[p].ns == q && (x != p ==> w'.ports[x].ns == w.ports[x].ns) && w'.ports[x].pd == w.ports[x].pd
      && w'.ports[x].active == w.ports[x].active && w'.ports[x].receiver == w.ports[x].receiver
      && Handed(w, w', x) == Bit(w.ports[p].ns == x) - Bit(x == q)
  {
  }

  lemma DnFiredExact(w: World, p: Object, x: Object)
    requires x in w.ports
    ensures var w' := DnFired(w, p);
      && w'.entries == w.entries && x in w'.ports && w'.ports[x] == w.ports[x].(nakedOnce := w'.ports[x].nakedOnce)
      && Handed(w, w', x) == |Fired(w, p, x)|
      && forall k :: (k in w'.dn <==> k in w.dn && w.dn[k].port != p) && (k in w'.dn ==> w'.dn[k] == w.dn[k])
  {
  }

  /** A port that dies gives back every right registered with it, and has no requests left. */
  lemma KilledExact(w: World, p: Object, x: Object)
    requires IO_NULL !in w.ports && p in w.ports && x in w.ports
    ensures var w' := Killed(w, p);
      && w'.entries == w.entries && p in w'.ports && !Alive(w', p) && w'.ports[p].pd == w'.ports[p].ns == IO_NULL
      && (forall k :: k in w'.dn <==> k in w.dn && w.dn[k].port != p)
      && x in w'.ports && (x != p ==> w'.ports[x] == w.ports[x].(nakedOnce := w'.ports[x].nakedOnce))
      && Handed(w, w', x) == Bit(w.ports[p].pd == x) + Bit(w.ports[p].ns == x) + |Fired(w, p, x)|
  {
    PdSetExact(w, p, IO_NULL, x);
    PdSetExact(w, p, IO_NULL, p);
    var w1 := PdSet(w, p, IO_NULL);
    NsSetExact(w1, p, IO_NULL, x);
    NsSetExact(w1, p, IO_NULL, p);
    var w2 := NsSet(w1, p, IO_NULL);
    assert Fired(w2, p, x) == Fired(w, p, x);
    DnFiredExact(w2, p, x);
    DnFiredExact(w2, p, p);
  }

  /** A port with a backup lives on without a receiver, and the backup is told. */
  lemma PortDestroyedExact(w: World, p: Object, circular: bool)
    requires IO_NULL !in w.ports && Alive(w, p) && (w.ports[p].pd == IO_NULL || w.ports[p].pd in w.ports)
    ensures var w', b := PortDestroyed(w, p, circular), w.ports[p].pd;
      && w'.entries == w.entries && p in w'.ports && w'.ports[p].receiver == Nowhere && w'.ports[p].pd == IO_NULL
      && (Alive(w', p) <==> b != IO_NULL && !circular)
      && (Alive(w', p) ==> w'.dn == w.dn && w'.ports[p].ns == w.ports[p].ns && b in w'.ports && Handed(w, w', b) == 1)
  {
    KilledExact(w, p, p);
    PdSetExact(w, p, IO_NULL, p);
    if w.ports[p].pd != IO_NULL {
      PdSetExact(w, p, IO_NULL, w.ports[p].pd);
    }
  }

  /** Giving up a receive right leaves a dead name for the send right, and the port dies unless a backup takes it. */
  lemma GivenUpExact(w: World, k: Key, circular: bool)
    requires Inv(w) && k in w.entries && HasReceive(w.entries[k])
    ensures var r := w.entries[k]; var w' := GivenUp(w, k, circular);
      && OnlyEntry(w, w', k) && Entry(w', k) == (if r.kind == SendReceive then Died(r) else NO_RIGHT)
      && (Alive(w', r.obj) <==> w.ports[r.obj].pd != IO_NULL && !circular)
  {
    var r := w.entries[k];
    AppliedEntry(w, k, r.obj, ReceiveDelta(r));
    AppliedShape(w, k, r.obj, ReceiveDelta(r));
    AppliedPd(w, k, r.obj, ReceiveDelta(r));
    PortDestroyedExact(Forgone(w, k), r.obj, circular);
  }

  /** Rights made and released in the kernel: their port's counts change, and with the last send right the no-senders request goes. */
  lemma CountsExact(w: World, p: Object, sends: int, onces: int)
    requires IO_NULL !in w.ports && p in w.ports
    ensures var w', port := Settled(w, p, Counts(sends, onces)), w.ports[p]; var last := sends < 0 && port.srights + sends == 0;
      && w'.entries == w.entries && w'.dn == w.dn && p in w'.ports
      && w'.ports[p].srights == port.srights + sends && w'.ports[p].sorights == port.sorights + onces
      && w'.ports[p].naked == port.naked + sends && w'.ports[p].ns == (if last then IO_NULL else port.ns)
      && (port.ns in w.ports && port.ns != p ==> port.ns in w'.ports && Handed(w, w', port.ns) == Bit(last))
  {
  }
}
