/** All spaces and ports together: send and send-once rights are conserved in every run. */
module RightsWorld {
  import opened MachPort
  import opened Rights

  /** An entry of a space. */
  datatype Key = Key(space: nat, name: nat)

  datatype Home = Nowhere | At(key: Key)

  /** A port's rights: its counts, the rights for it in nobody's space, and the requests registered with it. */
  datatype Port = Port(
    active: bool,
    receiver: Home,       // ip_receiver and ip_receiver_name
    srights: int,         // ip_srights
    sorights: int,        // ip_sorights
    naked: int,           // send rights in messages and kernel variables
    nakedOnce: int,       // send-once rights likewise
    pd: Object,           // ip_pdrequest
    ns: Object            // ip_nsrequest
  )

  /** An entry of a port's ip_dnrequests: the send-once right registered with the port for a name. */
  datatype Request = Request(port: Object, soright: Object)

  datatype World = World(
    entries: map<Key, Right>,
    ports: map<Object, Port>,
    dn: map<Key, Request>     // dead-name requests, by the name they are for
  )

  ghost function Entry(w: World, k: Key): Right {
    if k in w.entries then w.entries[k] else NO_RIGHT
  }

  // ------------------------------------------------------------ counting rights

  ghost function SendKeys(w: World, p: Object): set<Key> {
    set k | k in w.entries && HasSend(w.entries[k]) && w.entries[k].obj == p
  }

  ghost function OnceKeys(w: World, p: Object): set<Key> {
    set k | k in w.entries && HasOnce(w.entries[k]) && w.entries[k].obj == p
  }

  ghost function DnKeys(w: World, q: Object): set<Key> {
    set k | k in w.dn && w.dn[k].soright == q
  }

  ghost function PdPorts(w: World, q: Object): set<Object> {
    set p | p in w.ports && w.ports[p].pd == q
  }

  ghost function NsPorts(w: World, q: Object): set<Object> {
    set p | p in w.ports && w.ports[p].ns == q
  }

  /** By how much ip_srights is off. */
  ghost function SendGap(w: World, p: Object): int
    requires p in w.ports
  {
    w.ports[p].srights - w.ports[p].naked - |SendKeys(w, p)|
  }

  ghost function OnceGap(w: World, p: Object): int
    requires p in w.ports
  {
    w.ports[p].sorights - w.ports[p].nakedOnce - |OnceKeys(w, p)| - |DnKeys(w, p)| - |PdPorts(w, p)| - |NsPorts(w, p)|
  }

  /** Every send right is in an entry or naked, every send-once right in an entry, naked or registered. */
  ghost predicate Conserved(w: World) {
    forall p :: p in w.ports && w.ports[p].active && p != IO_NULL ==> SendGap(w, p) == 0 && OnceGap(w, p) == 0
  }

  // ------------------------------------------------------------ elementary changes

  ghost function SetEntry(w: World, k: Key, r: Right): World {
    w.(entries := if r.kind == None then w.entries - {k} else w.entries[k := r])
  }

  lemma SetCount<T>(a: set<T>, b: set<T>, x: T)
    requires a - {x} == b - {x}
    ensures |b| - |a| == Bit(x in b) - Bit(x in a)
  {
    assert x in a ==> a == (a - {x}) + {x};
    assert x !in a ==> a == a - {x};
    assert x in b ==> b == (b - {x}) + {x};
    assert x !in b ==> b == b - {x};
  }

  lemma SetEntryGaps(w: World, k: Key, r: Right, p: Object)
    requires p in w.ports
    ensures var s := Entry(w, k); var w' := SetEntry(w, k, r);
      && SendGap(w', p) == SendGap(w, p) + Bit(HasSend(s) && s.obj == p) - Bit(HasSend(r) && r.obj == p)
      && OnceGap(w', p) == OnceGap(w, p) + Bit(HasOnce(s) && s.obj == p) - Bit(HasOnce(r) && r.obj == p)
  {
    var w' := SetEntry(w, k, r);
    SetCount(SendKeys(w, p), SendKeys(w', p), k);
    SetCount(OnceKeys(w, p), OnceKeys(w', p), k);
    assert DnKeys(w', p) == DnKeys(w, p) && PdPorts(w', p) == PdPorts(w, p) && NsPorts(w', p) == NsPorts(w, p);
  }

  /** The counts of a port change. */
  ghost function Adjust(w: World, p: Object, sends: int, onces: int, naked: int, nakedOnce: int): World
    requires p in w.ports
  {
    var port := w.ports[p];
    w.(ports := w.ports[p := port.(srights := port.srights + sends, sorights := port.sorights + onces,
                                   naked := port.naked + naked, nakedOnce := port.nakedOnce + nakedOnce)])
  }

  lemma SameRequests(w: World, w': World, x: Object)
    requires w'.ports.Keys == w.ports.Keys && w'.dn == w.dn && w'.entries == w.entries
    requires forall p :: p in w.ports ==> w'.ports[p].pd == w.ports[p].pd && w'.ports[p].ns == w.ports[p].ns
    ensures SendKeys(w', x) == SendKeys(w, x) && OnceKeys(w', x) == OnceKeys(w, x) && DnKeys(w', x) == DnKeys(w, x)
    ensures PdPorts(w', x) == PdPorts(w, x) && NsPorts(w', x) == NsPorts(w, x)
  {
  }

  lemma AdjustGaps(w: World, p: Object, sends: int, onces: int, naked: int, nakedOnce: int, x: Object)
    requires p in w.ports && x in w.ports
    ensures var w' := Adjust(w, p, sends, onces, naked, nakedOnce);
      && SendGap(w', x) == SendGap(w, x) + (if x == p then sends - naked else 0)
      && OnceGap(w', x) == OnceGap(w, x) + (if x == p then onces - nakedOnce else 0)
  {
    SameRequests(w, Adjust(w, p, sends, onces, naked, nakedOnce), x);
  }

  /** A send-once right handed out by a request table becomes naked. */
  ghost function Hand(w: World, q: Object): World {
    if q in w.ports then Adjust(w, q, 0, 0, 0, 1) else w
  }

  /** A dead-name request is cancelled. */
  ghost function Uncancelled(w: World, k: Key): World {
    if k in w.dn then Hand(w.(dn := w.dn - {k}), w.dn[k].soright) else w
  }

  lemma CancelGaps(w: World, k: Key, x: Object)
    requires x in w.ports
    ensures SendGap(Uncancelled(w, k), x) == SendGap(w, x) && OnceGap(Uncancelled(w, k), x) == OnceGap(w, x)
  {
    if k in w.dn {
      var w1, q := w.(dn := w.dn - {k}), w.dn[k].soright;
      SetCount(DnKeys(w, x), DnKeys(w1, x), k);
      assert SendKeys(w1, x) == SendKeys(w, x) && OnceKeys(w1, x) == OnceKeys(w, x);
      assert PdPorts(w1, x) == PdPorts(w, x) && NsPorts(w1, x) == NsPorts(w, x);
      if q in w.ports {
        AdjustGaps(w1, q, 0, 0, 0, 1, x);
      }
    }
  }

  /** A no-senders request fires. */
  ghost function NsFired(w: World, p: Object): World
    requires p in w.ports
  {
    if w.ports[p].ns == IO_NULL then w
    else Hand(w.(ports := w.ports[p := w.ports[p].(ns := IO_NULL)]), w.ports[p].ns)
  }

  lemma NsGaps(w: World, p: Object, x: Object)
    requires p in w.ports && x in w.ports && x != IO_NULL
    ensures SendGap(NsFired(w, p), x) == SendGap(w, x) && OnceGap(NsFired(w, p), x) == OnceGap(w, x)
  {
    if w.ports[p].ns != IO_NULL {
      var w1, q := w.(ports := w.ports[p := w.ports[p].(ns := IO_NULL)]), w.ports[p].ns;
      SetCount(NsPorts(w, x), NsPorts(w1, x), p);
      assert SendKeys(w1, x) == SendKeys(w, x) && OnceKeys(w1, x) == OnceKeys(w, x);
      assert PdPorts(w1, x) == PdPorts(w, x) && DnKeys(w1, x) == DnKeys(w, x);
      if q in w.ports {
        AdjustGaps(w1, q, 0, 0, 0, 1, x);
      }
    }
  }

  // ------------------------------------------------------------ what the world keeps

  ghost predicate Alive(w: World, p: Object) {
    p in w.ports && w.ports[p].active
  }

  ghost predicate EntriesOk(w: World) {
    && IO_NULL !in w.ports
    && (forall k :: k in w.entries ==> w.entries[k].kind != None && Sane(w.entries[k]))
    && (forall k :: k in w.entries && NamesPort(w.entries[k]) ==> w.entries[k].obj in w.ports)
  }

  /** Requests are registered with send-once rights for ports that exist. */
  ghost predicate TargetsOk(w: World) {
    && (forall k :: k in w.dn ==> w.dn[k].soright in w.ports)
    && (forall p :: p in w.ports ==> (w.ports[p].pd == IO_NULL || w.ports[p].pd in w.ports) && (w.ports[p].ns == IO_NULL || w.ports[p].ns in w.ports))
  }

  /** A receive right is where its port says, and its port lives. */
  ghost predicate ReceiversOk(w: World) {
    forall k :: k in w.entries && HasReceive(w.entries[k]) ==>
      Alive(w, w.entries[k].obj) && w.ports[w.entries[k].obj].receiver == At(k)
  }

  /** The registered dead-name requests are those of entries for live ports. */
  ghost predicate RequestsOk(w: World) {
    && (forall k :: k in w.dn <==> Requests(w, k))
    && (forall k :: k in w.dn && k in w.entries ==> w.dn[k].port == w.entries[k].obj)
  }

  ghost predicate RequestOk(w: World, k: Key) {
    (k in w.dn <==> Requests(w, k)) && (k in w.dn && k in w.entries ==> w.dn[k].port == w.entries[k].obj)
  }

  ghost predicate Requests(w: World, k: Key) {
    k in w.entries && NamesPort(w.entries[k]) && w.entries[k].request != 0 && Alive(w, w.entries[k].obj)
  }

  /** A space has one name for a port it may send to or receive from. */
  ghost predicate OneName(w: World) {
    forall j, k :: j in w.entries && k in w.entries && Twins(w, j, k) ==> j == k
  }

  /** Two entries of a space that let it send to or receive from the same port. */
  ghost predicate Twins(w: World, j: Key, k: Key)
    requires j in w.entries && k in w.entries
  {
    j.space == k.space && Denotes(w.entries[j]) && Denotes(w.entries[k]) && w.entries[j].obj == w.entries[k].obj
  }

  /** The parts of the invariant that are not about counts. */
  ghost predicate Shaped(w: World) {
    EntriesOk(w) && TargetsOk(w) && ReceiversOk(w) && RequestsOk(w) && OneName(w)
  }

  ghost predicate Inv(w: World) {
    Shaped(w) && Conserved(w)
  }

  // ------------------------------------------------------------ an operation on one entry

  ghost function Applied(w: World, k: Key, p: Object, e: Effect): World {
    Settled(SetEntry(if e.cancels then Uncancelled(w, k) else w, k, e.right), p, e)
  }

  /** The counts of the port, and its no-senders request when the last send right goes. */
  ghost function Settled(w: World, p: Object, e: Effect): World {
    if p !in w.ports then w else
      var w' := Adjust(w, p, e.sends, e.onces, e.naked, e.nakedOnce);
      if e.sends < 0 && w'.ports[p].srights == 0 then NsFired(w', p) else w'
  }

  /** The entry's right before and after are for the port p, and balanced while it lives. */
  ghost predicate Fitting(w: World, k: Key, p: Object, e: Effect) {
    && (NamesPort(Entry(w, k)) ==> Entry(w, k).obj == p) && (NamesPort(e.right) ==> e.right.obj == p)
    && (Alive(w, p) ==> Balanced(Entry(w, k), e))
  }

  lemma SettledGaps(w: World, p: Object, e: Effect, x: Object)
    requires x in w.ports && x != IO_NULL
    ensures x in Settled(w, p, e).ports
    ensures SendGap(Settled(w, p, e), x) == SendGap(w, x) + (if x == p then e.sends - e.naked else 0)
    ensures OnceGap(Settled(w, p, e), x) == OnceGap(w, x) + (if x == p then e.onces - e.nakedOnce else 0)
  {
    if p in w.ports {
      AdjustGaps(w, p, e.sends, e.onces, e.naked, e.nakedOnce, x);
      NsGaps(Adjust(w, p, e.sends, e.onces, e.naked, e.nakedOnce), p, x);
    }
  }

  lemma AppliedGaps(w: World, k: Key, p: Object, e: Effect, x: Object)
    requires Fitting(w, k, p, e) && Alive(w, x) && x != IO_NULL
    ensures x in Applied(w, k, p, e).ports
    ensures SendGap(Applied(w, k, p, e), x) == SendGap(w, x) && OnceGap(Applied(w, k, p, e), x) == OnceGap(w, x)
  {
    var w0 := if e.cancels then Uncancelled(w, k) else w;
    CancelGaps(w, k, x);
    SetEntryGaps(w0, k, e.right, x);
    SettledGaps(SetEntry(w0, k, e.right), p, e, x);
  }

  /** Which ports there are, and what they say of themselves. */
  ghost predicate SamePorts(w: World, w': World) {
    w'.ports.Keys == w.ports.Keys && forall p :: p in w.ports ==> w'.ports[p].active == w.ports[p].active && w'.ports[p].receiver == w.ports[p].receiver
  }

  lemma SettledShape(w: World, p: Object, e: Effect)
    ensures SamePorts(w, Settled(w, p, e)) && Settled(w, p, e).entries == w.entries && Settled(w, p, e).dn == w.dn
  {
    if p in w.ports {
      NsFiredShape(Adjust(w, p, e.sends, e.onces, e.naked, e.nakedOnce), p);
    }
  }

  lemma NsFiredShape(w: World, p: Object)
    requires p in w.ports
    ensures var w' := NsFired(w, p); SamePorts(w, w') && w'.entries == w.entries && w'.dn == w.dn
  {
  }

  lemma AppliedShape(w: World, k: Key, p: Object, e: Effect)
    ensures SamePorts(w, Applied(w, k, p, e))
    ensures Applied(w, k, p, e).entries == (if e.right.kind == None then w.entries - {k} else w.entries[k := e.right])
    ensures Applied(w, k, p, e).dn == if e.cancels then w.dn - {k} else w.dn
  {
    var w0 := if e.cancels then Uncancelled(w, k) else w;
    assert SamePorts(w, w0) && w0.entries == w.entries;
    SettledShape(SetEntry(w0, k, e.right), p, e);
  }

  lemma AppliedConserves(w: World, k: Key, p: Object, e: Effect)
    requires Conserved(w) && Fitting(w, k, p, e)
    ensures Conserved(Applied(w, k, p, e))
  {
    AppliedShape(w, k, p, e);
    forall x | x in w.ports && w.ports[x].active && x != IO_NULL
      ensures SendGap(Applied(w, k, p, e), x) == 0 && OnceGap(Applied(w, k, p, e), x) == 0
    {
      AppliedGaps(w, k, p, e, x);
    }
  }

  /** Only the entry k and its request change, and the port x may change its receiver. */
  ghost predicate OnlyAt(w: World, w': World, k: Key, x: Object) {
    && w'.entries - {k} == w.entries - {k} && w'.dn - {k} == w.dn - {k} && w'.ports.Keys == w.ports.Keys
    && (forall p :: p in w.ports ==> w'.ports[p].active == w.ports[p].active && (p != x ==> w'.ports[p].receiver == w.ports[p].receiver))
  }

  /** The entry at k is as it should be. */
  ghost predicate GoodAt(w: World, k: Key) {
    && (k in w.entries ==> w.entries[k].kind != None && Sane(w.entries[k]))
    && (k in w.entries && NamesPort(w.entries[k]) ==> w.entries[k].obj in w.ports)
    && (k in w.entries && HasReceive(w.entries[k]) ==> Alive(w, w.entries[k].obj) && w.ports[w.entries[k].obj].receiver == At(k))
    && RequestOk(w, k)
    && (k in w.entries ==> forall j :: j in w.entries && Twins(w, j, k) ==> j == k)
  }

  lemma UpdateMinus<K, V>(m: map<K, V>, k: K, v: V)
    ensures m[k := v] - {k} == m - {k}
  {
  }

  lemma OtherEntry(w: World, w': World, k: Key, x: Object, j: Key)
    requires OnlyAt(w, w', k, x) && j != k
    ensures (j in w'.entries <==> j in w.entries) && (j in w.entries ==> w'.entries[j] == w.entries[j])
    ensures (j in w'.dn <==> j in w.dn) && (j in w.dn ==> w'.dn[j] == w.dn[j])
  {
    assert j in w.entries <==> j in w.entries - {k};
    assert j in w'.entries <==> j in w'.entries - {k};
    assert j in w.entries ==> (w.entries - {k})[j] == w.entries[j];
    assert j in w.dn <==> j in w.dn - {k};
    assert j in w'.dn <==> j in w'.dn - {k};
    assert j in w.dn ==> (w.dn - {k})[j] == w.dn[j];
  }

  lemma EachRequest(w: World)
    requires forall k :: RequestOk(w, k)
    ensures RequestsOk(w)
  {
    forall k
      ensures k in w.dn <==> Requests(w, k)
      ensures k in w.dn && k in w.entries ==> w.dn[k].port == w.entries[k].obj
    {
      assert RequestOk(w, k);
    }
  }

  lemma OnlyAtRequests(w: World, w': World, k: Key, x: Object)
    requires RequestsOk(w) && OnlyAt(w, w', k, x) && RequestOk(w', k)
    ensures RequestsOk(w')
  {
    forall j
      ensures RequestOk(w', j)
    {
      if j != k {
        OtherEntry(w, w', k, x, j);
        assert j in w.dn <==> Requests(w, j);
      }
    }
    EachRequest(w');
  }

  lemma OnlyAtShaped(w: World, w': World, k: Key, x: Object)
    requires Shaped(w) && OnlyAt(w, w', k, x) && GoodAt(w', k) && TargetsOk(w')
    requires forall j :: j in w.entries && HasReceive(w.entries[j]) && w.entries[j].obj == x ==> j == k
    ensures Shaped(w')
  {
    OnlyAtRequests(w, w', k, x);
    forall j | j != k
      ensures (j in w'.entries <==> j in w.entries) && (j in w.entries ==> w'.entries[j] == w.entries[j])
    {
      OtherEntry(w, w', k, x, j);
    }
    assert EntriesOk(w') && ReceiversOk(w');
    forall i, j | i in w'.entries && j in w'.entries && Twins(w', i, j)
      ensures i == j
    {
      if i != k && j != k {
        assert Twins(w, i, j);
      } else if i == k {
        assert Twins(w', j, k);
      }
    }
  }

  /** The receive right of p is in nobody's space any more. */
  ghost function Limbo(w: World, p: Object): World {
    if p in w.ports then w.(ports := w.ports[p := w.ports[p].(receiver := Nowhere)]) else w
  }

  lemma SameCounts(w: World, w': World)
    requires Conserved(w) && w'.ports.Keys == w.ports.Keys && w'.dn == w.dn && w'.entries == w.entries
    requires forall p :: p in w.ports ==> w'.ports[p].(receiver := Nowhere) == w.ports[p].(receiver := Nowhere)
    ensures Conserved(w')
  {
    forall p | p in w'.ports && w'.ports[p].active && p != IO_NULL
      ensures SendGap(w', p) == 0 && OnceGap(w', p) == 0
    {
      SameRequests(w, w', p);
      assert w'.ports[p].(receiver := Nowhere).srights == w.ports[p].(receiver := Nowhere).srights;
    }
  }

  /** An operation of ipc/ipc_right.c on the entry k. */
  ghost function Operated(w: World, k: Key, op: Op): World
    requires k in w.entries && Sane(w.entries[k])
  {
    var r := w.entries[k];
    var w' := Applied(w, k, r.obj, EffectOf(op, r, Alive(w, r.obj)));
    if op.CopyinOp? && op.d == MoveReceive && HasReceive(r) then Limbo(w', r.obj) else w'
  }

  lemma TargetsKept(w: World, k: Key, p: Object, e: Effect)
    requires TargetsOk(w)
    ensures TargetsOk(Applied(w, k, p, e))
  {
    var w0 := if e.cancels then Uncancelled(w, k) else w;
    assert TargetsOk(w0);
    SettledTargets(SetEntry(w0, k, e.right), p, e);
  }

  lemma SettledTargets(w: World, p: Object, e: Effect)
    requires TargetsOk(w)
    ensures TargetsOk(Settled(w, p, e))
  {
    if p in w.ports {
      assert TargetsOk(Adjust(w, p, e.sends, e.onces, e.naked, e.nakedOnce));
    }
  }

  lemma AppliedGood(w: World, k: Key, e: Effect)
    requires Shaped(w) && k in w.entries && KeepsAll(w.entries[k], Alive(w, w.entries[k].obj), e)
    ensures GoodAt(Applied(w, k, w.entries[k].obj, e), k) && OnlyAt(w, Applied(w, k, w.entries[k].obj, e), k, IO_NULL)
  {
    var r := w.entries[k];
    AppliedShape(w, k, r.obj, e);
    var w' := Applied(w, k, r.obj, e);
    if k in w'.entries {
      forall j | j in w'.entries && Twins(w', j, k)
        ensures j == k
      {
        if j != k {
          assert Twins(w, j, k);
        }
      }
    }
  }

  lemma AppliedInv(w: World, k: Key, e: Effect)
    requires Inv(w) && k in w.entries && KeepsAll(w.entries[k], Alive(w, w.entries[k].obj), e)
    ensures Inv(Applied(w, k, w.entries[k].obj, e))
  {
    var p := w.entries[k].obj;
    AppliedGood(w, k, e);
    TargetsKept(w, k, p, e);
    OnlyAtShaped(w, Applied(w, k, p, e), k, IO_NULL);
    AppliedConserves(w, k, p, e);
  }

  lemma LimboInv(w: World, p: Object)
    requires Inv(w) && forall k :: k in w.entries && HasReceive(w.entries[k]) ==> w.entries[k].obj != p
    ensures Inv(Limbo(w, p))
  {
    var w' := Limbo(w, p);
    if p in w.ports {
      SameCounts(w, w');
      assert forall k :: Requests(w', k) <==> Requests(w, k);
      assert forall j, k :: j in w.entries && k in w.entries ==> (Twins(w', j, k) <==> Twins(w, j, k));
    }
  }

  /** Every operation on an entry keeps the invariant of the world. */
  lemma OperatedInv(w: World, k: Key, op: Op)
    requires Inv(w) && k in w.entries
    ensures Inv(Operated(w, k, op))
  {
    var r := w.entries[k];
    var e := EffectOf(op, r, Alive(w, r.obj));
    OpKeeps(op, r, Alive(w, r.obj));
    AppliedInv(w, k, e);
    if op.CopyinOp? && op.d == MoveReceive && HasReceive(r) {
      ReceiveMoves(r, Alive(w, r.obj), op.deadok);
      NoReceiverLeft(w, k, e);
      LimboInv(Applied(w, k, r.obj, e), r.obj);
    }
  }

  lemma ReceiveMoves(r: Right, alive: bool, deadok: bool)
    ensures !HasReceive(CopiedIn(r, MoveReceive, alive, deadok).effect.right)
  {
  }

  lemma NoReceiverLeft(w: World, k: Key, e: Effect)
    requires Inv(w) && k in w.entries && HasReceive(w.entries[k]) && !HasReceive(e.right)
    ensures var w' := Applied(w, k, w.entries[k].obj, e);
      forall j :: j in w'.entries && HasReceive(w'.entries[j]) ==> w'.entries[j].obj != w.entries[k].obj
  {
    AppliedShape(w, k, w.entries[k].obj, e);
  }

  // ------------------------------------------------------------ rights copied out

  /** The space of k has no entry to send to or receive from p: what ipc_right_reverse finds. */
  ghost predicate Unknown(w: World, k: Key, p: Object) {
    forall j :: j in w.entries && j.space == k.space && Denotes(w.entries[j]) ==> w.entries[j].obj != p
  }

  /** The entry ipc_object_copyout chooses for a send or receive right: the one there is, or a new one. */
  ghost predicate Chosen(w: World, k: Key, p: Object) {
    Alive(w, p) && if k in w.entries then Denotes(w.entries[k]) && w.entries[k].obj == p else Unknown(w, k, p)
  }

  lemma CopyoutGood(w: World, k: Key, p: Object, e: Effect)
    requires Shaped(w) && Chosen(w, k, p) && Sane(e.right) && NamesPort(e.right) && e.right.obj == p && !e.cancels
    requires e.right.request == Entry(w, k).request && (HasReceive(e.right) ==> HasReceive(Entry(w, k)))
    ensures var w' := Applied(w, k, p, e); GoodAt(w', k) && OnlyAt(w, w', k, IO_NULL)
  {
    AppliedShape(w, k, p, e);
    var w' := Applied(w, k, p, e);
    forall j | j in w'.entries && Twins(w', j, k)
      ensures j == k
    {
      if j != k && k in w.entries {
        assert Twins(w, j, k);
      }
    }
  }

  /** ipc_right_copyout of a send right: it is naked no longer. */
  ghost function SentOut(w: World, k: Key, p: Object, overflow: bool): World {
    Applied(w, k, p, SendCopiedOut(Entry(w, k), p, overflow).0)
  }

  lemma SentOutInv(w: World, k: Key, p: Object, overflow: bool)
    requires Inv(w) && Chosen(w, k, p)
    ensures Inv(SentOut(w, k, p, overflow))
  {
    var e := SendCopiedOut(Entry(w, k), p, overflow).0;
    assert k in w.entries ==> w.entries[k] == Entry(w, k);
    CopyoutKeeps(Entry(w, k), p, overflow);
    CopyoutGood(w, k, p, e);
    TargetsKept(w, k, p, e);
    OnlyAtShaped(w, Applied(w, k, p, e), k, IO_NULL);
    AppliedConserves(w, k, p, e);
  }

  /** A send-once right always gets a new entry. */
  ghost function OnceOut(w: World, k: Key, p: Object): World {
    Applied(w, k, p, OnceCopiedOut(p))
  }

  lemma OnceOutInv(w: World, k: Key, p: Object)
    requires Inv(w) && k !in w.entries && Alive(w, p)
    ensures Inv(OnceOut(w, k, p))
  {
    var e := OnceCopiedOut(p);
    CopyoutKeeps(NO_RIGHT, p, false);
    OnceGood(w, k, p);
    TargetsKept(w, k, p, e);
    OnlyAtShaped(w, Applied(w, k, p, e), k, IO_NULL);
    AppliedConserves(w, k, p, e);
  }

  lemma OnceGood(w: World, k: Key, p: Object)
    requires Shaped(w) && k !in w.entries && Alive(w, p)
    ensures GoodAt(OnceOut(w, k, p), k) && OnlyAt(w, OnceOut(w, k, p), k, IO_NULL)
  {
    var e := OnceCopiedOut(p);
    AppliedShape(w, k, p, e);
    assert !Requests(w, k);
    UpdateMinus(w.entries, k, e.right);
  }

  /** ipc_right_copyout of a receive right in limbo or in transit. */
  ghost function ReceivedOut(w: World, k: Key, p: Object): World
    requires p in w.ports
  {
    Arrived(Applied(w, k, p, ReceiveCopiedOut(Entry(w, k), p)), k, p)
  }

  ghost function Arrived(w: World, k: Key, p: Object): World {
    if p in w.ports then w.(ports := w.ports[p := w.ports[p].(receiver := At(k))]) else w
  }

  lemma ReceivedOutInv(w: World, k: Key, p: Object)
    requires Inv(w) && Chosen(w, k, p) && w.ports[p].receiver == Nowhere
    ensures Inv(ReceivedOut(w, k, p))
  {
    var e := ReceiveCopiedOut(Entry(w, k), p);
    assert k in w.entries ==> w.entries[k] == Entry(w, k) && !HasReceive(w.entries[k]);
    CopyoutKeeps(Entry(w, k), p, false);
    TargetsKept(w, k, p, e);
    AppliedConserves(w, k, p, e);
    ArrivedKeeps(Applied(w, k, p, e), k, p);
    ReceivedGood(w, k, p);
    OnlyAtShaped(w, ReceivedOut(w, k, p), k, p);
  }

  /** Where the receive right is concerns no count and no request. */
  lemma ArrivedKeeps(w: World, k: Key, p: Object)
    requires Conserved(w) && TargetsOk(w)
    ensures Conserved(Arrived(w, k, p)) && TargetsOk(Arrived(w, k, p))
  {
    SameCounts(w, Arrived(w, k, p));
  }

  lemma ReceivedGood(w: World, k: Key, p: Object)
    requires Shaped(w) && Chosen(w, k, p) && w.ports[p].receiver == Nowhere
    ensures GoodAt(ReceivedOut(w, k, p), k) && OnlyAt(w, ReceivedOut(w, k, p), k, p)
  {
    var e := ReceiveCopiedOut(Entry(w, k), p);
    assert k in w.entries ==> w.entries[k] == Entry(w, k) && !HasReceive(w.entries[k]);
    AppliedShape(w, k, p, e);
    var w' := ReceivedOut(w, k, p);
    forall j | j in w'.entries && Twins(w', j, k)
      ensures j == k
    {
      if j != k && k in w.entries {
        assert Twins(w, j, k);
      }
    }
  }

  // ------------------------------------------------------------ naked rights and new ports

  lemma SameShape(w: World, w': World)
    requires Shaped(w) && w'.entries == w.entries && w'.dn == w.dn && SamePorts(w, w') && TargetsOk(w')
    ensures Shaped(w')
  {
    assert forall k :: Requests(w', k) <==> Requests(w, k);
    assert forall j, k :: j in w.entries && k in w.entries ==> (Twins(w', j, k) <==> Twins(w, j, k));
  }

  /** Naked rights made, copied, released or used up. */
  lemma AdjustInv(w: World, p: Object, e: Effect)
    requires Inv(w) && e.sends == e.naked && e.onces == e.nakedOnce
    ensures Inv(Settled(w, p, e))
  {
    SettledShape(w, p, e);
    SettledTargets(w, p, e);
    var w' := Settled(w, p, e);
    SameShape(w, w');
    forall x | x in w'.ports && w'.ports[x].active && x != IO_NULL
      ensures SendGap(w', x) == 0 && OnceGap(w', x) == 0
    {
      SettledGaps(w, p, e, x);
    }
  }

  /** ipc_port_alloc: a new port, with its receive right in a new entry. */
  ghost function Born(w: World, k: Key, p: Object): World {
    w.(entries := w.entries[k := Right(Receive, 0, p, 0)], ports := w.ports[p := Port(true, At(k), 0, 0, 0, 0, IO_NULL, IO_NULL)])
  }

  lemma BornConserves(w: World, k: Key, p: Object)
    requires Inv(w) && k !in w.entries && p !in w.ports && p != IO_NULL
    ensures Conserved(Born(w, k, p))
  {
    var w' := Born(w, k, p);
    forall x | x in w'.ports && w'.ports[x].active && x != IO_NULL
      ensures SendGap(w', x) == 0 && OnceGap(w', x) == 0
    {
      assert SendKeys(w', x) == SendKeys(w, x) && OnceKeys(w', x) == OnceKeys(w, x) && DnKeys(w', x) == DnKeys(w, x);
      assert PdPorts(w', x) == PdPorts(w, x) && NsPorts(w', x) == NsPorts(w, x);
      if x == p {
        assert SendKeys(w, p) == {} && OnceKeys(w, p) == {} && DnKeys(w, p) == {} && PdPorts(w, p) == {} && NsPorts(w, p) == {};
      }
    }
  }

  lemma BornRequests(w: World, k: Key, p: Object)
    requires Shaped(w) && k !in w.entries && p !in w.ports && p != IO_NULL
    ensures RequestsOk(Born(w, k, p))
  {
    forall j
      ensures RequestOk(Born(w, k, p), j)
    {
      assert j in w.dn <==> Requests(w, j);
    }
    EachRequest(Born(w, k, p));
  }

  lemma BornInv(w: World, k: Key, p: Object)
    requires Inv(w) && k !in w.entries && p !in w.ports && p != IO_NULL
    ensures Inv(Born(w, k, p))
  {
    BornConserves(w, k, p);
    BornRequests(w, k, p);
    var w' := Born(w, k, p);
    forall i, j | i in w'.entries && j in w'.entries && Twins(w', i, j)
      ensures i == j
    {
      if i != k && j != k {
        assert Twins(w, i, j);
      }
    }
    assert EntriesOk(w') && TargetsOk(w') && ReceiversOk(w');
  }

  // ------------------------------------------------------------ requests

  /** A naked send-once right is registered as the dead-name request of the entry k, replacing any before it. */
  ghost function Registered(w: World, k: Key, q: Object): World
    requires k in w.entries && q in w.ports
  {
    var w1 := Adjust(Uncancelled(w, k), q, 0, 0, 0, -1);
    w1.(entries := w1.entries[k := w.entries[k].(request := 1)], dn := w1.dn[k := Request(w.entries[k].obj, q)])
  }

  /** The request of the entry k is cancelled. */
  ghost function Cancelled(w: World, k: Key): World
    requires k in w.entries
  {
    var w1 := Uncancelled(w, k);
    w1.(entries := w1.entries[k := w.entries[k].(request := 0)])
  }

  lemma RequestGaps(w: World, k: Key, r: Right, x: Object)
    requires k in w.entries && r == w.entries[k].(request := r.request) && x in w.ports
    ensures var w' := w.(entries := w.entries[k := r]); SendGap(w', x) == SendGap(w, x) && OnceGap(w', x) == OnceGap(w, x)
  {
    var w' := w.(entries := w.entries[k := r]);
    assert SendKeys(w', x) == SendKeys(w, x) && OnceKeys(w', x) == OnceKeys(w, x) && DnKeys(w', x) == DnKeys(w, x);
    assert PdPorts(w', x) == PdPorts(w, x) && NsPorts(w', x) == NsPorts(w, x);
  }

  lemma RegisteredGaps(w: World, k: Key, q: Object, x: Object)
    requires k in w.entries && q in w.ports && x in w.ports
    ensures SendGap(Registered(w, k, q), x) == SendGap(w, x) && OnceGap(Registered(w, k, q), x) == OnceGap(w, x)
  {
    CancelGaps(w, k, x);
    var w0 := Uncancelled(w, k);
    AdjustGaps(w0, q, 0, 0, 0, -1, x);
    var w1 := Adjust(w0, q, 0, 0, 0, -1);
    var w2 := w1.(dn := w1.dn[k := Request(w.entries[k].obj, q)]);
    assert k !in w1.dn;
    SetCount(DnKeys(w1, x), DnKeys(w2, x), k);
    assert SendKeys(w2, x) == SendKeys(w1, x) && OnceKeys(w2, x) == OnceKeys(w1, x);
    assert PdPorts(w2, x) == PdPorts(w1, x) && NsPorts(w2, x) == NsPorts(w1, x);
    RequestGaps(w2, k, w.entries[k].(request := 1), x);
  }

  lemma UncancelledShape(w: World, k: Key)
    ensures var w' := Uncancelled(w, k); SamePorts(w, w') && w'.entries == w.entries && w'.dn == w.dn - {k}
    ensures TargetsOk(w) ==> TargetsOk(Uncancelled(w, k))
  {
  }

  lemma RegisteredShape(w: World, k: Key, q: Object)
    requires k in w.entries && q in w.ports && TargetsOk(w)
    ensures var w' := Registered(w, k, q);
      SamePorts(w, w') && TargetsOk(w') && w'.entries == w.entries[k := w.entries[k].(request := 1)] && w'.dn == (w.dn - {k})[k := Request(w.entries[k].obj, q)]
  {
    UncancelledShape(w, k);
    var w1 := Adjust(Uncancelled(w, k), q, 0, 0, 0, -1);
    assert TargetsOk(w1);
  }

  lemma RegisteredInv(w: World, k: Key, q: Object)
    requires Inv(w) && k in w.entries && NamesPort(w.entries[k]) && Alive(w, w.entries[k].obj) && q in w.ports
    ensures Inv(Registered(w, k, q))
  {
    var w' := Registered(w, k, q);
    RegisteredShape(w, k, q);
    assert w'.dn - {k} == w.dn - {k};
    forall x | x in w'.ports && w'.ports[x].active && x != IO_NULL
      ensures SendGap(w', x) == 0 && OnceGap(w', x) == 0
    {
      RegisteredGaps(w, k, q, x);
    }
    RequestShaped(w, w', k);
  }

  /** A change of the request at k that is registered or not, as the entry says. */
  lemma RequestShaped(w: World, w': World, k: Key)
    requires Shaped(w) && k in w.entries && NamesPort(w.entries[k]) && Alive(w, w.entries[k].obj)
    requires k in w'.entries && w'.entries == w.entries[k := w.entries[k].(request := w'.entries[k].request)]
    requires SamePorts(w, w') && w'.dn - {k} == w.dn - {k} && TargetsOk(w') && (k in w'.dn <==> w'.entries[k].request != 0)
    requires k in w'.dn ==> w'.dn[k].port == w.entries[k].obj
    ensures Shaped(w')
  {
    forall j | j in w'.entries && Twins(w', j, k)
      ensures j == k
    {
      if j != k {
        assert Twins(w, j, k);
      }
    }
    OnlyAtShaped(w, w', k, IO_NULL);
  }

  lemma CancelledInv(w: World, k: Key)
    requires Inv(w) && k in w.entries && NamesPort(w.entries[k]) && Alive(w, w.entries[k].obj)
    ensures Inv(Cancelled(w, k))
  {
    var w' := Cancelled(w, k);
    UncancelledShape(w, k);
    forall x | x in w'.ports && w'.ports[x].active && x != IO_NULL
      ensures SendGap(w', x) == 0 && OnceGap(w', x) == 0
    {
      CancelGaps(w, k, x);
      RequestGaps(Uncancelled(w, k), k, w.entries[k].(request := 0), x);
    }
    RequestShaped(w, w', k);
  }

  /** ipc_port_pdrequest: the registered send-once right is handed out, and the naked one, if any, registered. */
  ghost function PdSet(w: World, p: Object, q: Object): World
    requires p in w.ports
  {
    var w1 := Hand(w, w.ports[p].pd);
    var w2 := w1.(ports := w1.ports[p := w1.ports[p].(pd := q)]);
    if q in w2.ports then Adjust(w2, q, 0, 0, 0, -1) else w2
  }

  lemma HandGaps(w: World, q: Object, x: Object)
    requires x in w.ports
    ensures SendGap(Hand(w, q), x) == SendGap(w, x) && OnceGap(Hand(w, q), x) == OnceGap(w, x) - Bit(x == q)
  {
    if q in w.ports {
      AdjustGaps(w, q, 0, 0, 0, 1, x);
    }
  }

  lemma PdGaps(w: World, p: Object, q: Object, x: Object)
    requires p in w.ports && x in w.ports
    ensures SendGap(PdSet(w, p, q), x) == SendGap(w, x) && OnceGap(PdSet(w, p, q), x) == OnceGap(w, x)
  {
    HandGaps(w, w.ports[p].pd, x);
    var w1 := Hand(w, w.ports[p].pd);
    var w2 := w1.(ports := w1.ports[p := w1.ports[p].(pd := q)]);
    SetCount(PdPorts(w1, x), PdPorts(w2, x), p);
    assert SendKeys(w2, x) == SendKeys(w1, x) && OnceKeys(w2, x) == OnceKeys(w1, x) && DnKeys(w2, x) == DnKeys(w1, x);
    assert NsPorts(w2, x) == NsPorts(w1, x);
    if q in w2.ports {
      AdjustGaps(w2, q, 0, 0, 0, -1, x);
    }
  }

  /** Only counts change. */
  ghost predicate OnlyCounts(w: World, w': World) {
    && w'.entries == w.entries && w'.dn == w.dn && SamePorts(w, w')
    && forall p :: p in w.ports ==> w'.ports[p].pd == w.ports[p].pd && w'.ports[p].ns == w.ports[p].ns
  }

  lemma HandCounts(w: World, q: Object, n: int)
    ensures OnlyCounts(w, Hand(w, q)) && (q in w.ports ==> OnlyCounts(w, Adjust(w, q, 0, 0, 0, n)))
  {
  }

  lemma CountsTargets(w: World, w': World)
    requires OnlyCounts(w, w') || w' == w
    ensures SamePorts(w, w') && (TargetsOk(w) ==> TargetsOk(w'))
  {
  }

  lemma PdShape(w: World, p: Object, q: Object)
    requires TargetsOk(w) && p in w.ports && (q == IO_NULL || q in w.ports)
    ensures var w' := PdSet(w, p, q); SamePorts(w, w') && w'.entries == w.entries && w'.dn == w.dn && TargetsOk(w')
  {
    HandCounts(w, w.ports[p].pd, 0);
    var w1 := Hand(w, w.ports[p].pd);
    var w2 := w1.(ports := w1.ports[p := w1.ports[p].(pd := q)]);
    assert SamePorts(w, w2) && TargetsOk(w2);
    HandCounts(w2, q, -1);
    CountsTargets(w2, PdSet(w, p, q));
  }

  lemma PdInv(w: World, p: Object, q: Object)
    requires Inv(w) && p in w.ports && (q == IO_NULL || q in w.ports)
    ensures Inv(PdSet(w, p, q))
  {
    var w' := PdSet(w, p, q);
    PdShape(w, p, q);
    SameShape(w, w');
    forall x | x in w'.ports && w'.ports[x].active && x != IO_NULL
      ensures SendGap(w', x) == 0 && OnceGap(w', x) == 0
    {
      PdGaps(w, p, q, x);
    }
  }

  /** ipc_port_nsrequest; an immediate notification leaves nothing registered. */
  ghost function NsSet(w: World, p: Object, q: Object): World
    requires p in w.ports
  {
    var w1 := Hand(w, w.ports[p].ns);
    var w2 := w1.(ports := w1.ports[p := w1.ports[p].(ns := q)]);
    if q in w2.ports then Adjust(w2, q, 0, 0, 0, -1) else w2
  }

  lemma NsSetGaps(w: World, p: Object, q: Object, x: Object)
    requires p in w.ports && x in w.ports
    ensures SendGap(NsSet(w, p, q), x) == SendGap(w, x) && OnceGap(NsSet(w, p, q), x) == OnceGap(w, x)
  {
    HandGaps(w, w.ports[p].ns, x);
    var w1 := Hand(w, w.ports[p].ns);
    var w2 := w1.(ports := w1.ports[p := w1.ports[p].(ns := q)]);
    SetCount(NsPorts(w1, x), NsPorts(w2, x), p);
    assert SendKeys(w2, x) == SendKeys(w1, x) && OnceKeys(w2, x) == OnceKeys(w1, x) && DnKeys(w2, x) == DnKeys(w1, x);
    assert PdPorts(w2, x) == PdPorts(w1, x);
    if q in w2.ports {
      AdjustGaps(w2, q, 0, 0, 0, -1, x);
    }
  }

  lemma NsShape(w: World, p: Object, q: Object)
    requires TargetsOk(w) && p in w.ports && (q == IO_NULL || q in w.ports)
    ensures var w' := NsSet(w, p, q); SamePorts(w, w') && w'.entries == w.entries && w'.dn == w.dn && TargetsOk(w')
  {
    HandCounts(w, w.ports[p].ns, 0);
    var w1 := Hand(w, w.ports[p].ns);
    var w2 := w1.(ports := w1.ports[p := w1.ports[p].(ns := q)]);
    assert SamePorts(w, w2) && TargetsOk(w2);
    HandCounts(w2, q, -1);
    CountsTargets(w2, NsSet(w, p, q));
  }

  lemma NsInv(w: World, p: Object, q: Object)
    requires Inv(w) && p in w.ports && (q == IO_NULL || q in w.ports)
    ensures Inv(NsSet(w, p, q))
  {
    var w' := NsSet(w, p, q);
    NsShape(w, p, q);
    SameShape(w, w');
    forall x | x in w'.ports && w'.ports[x].active && x != IO_NULL
      ensures SendGap(w', x) == 0 && OnceGap(w', x) == 0
    {
      NsSetGaps(w, p, q, x);
    }
  }

  // ------------------------------------------------------------ the death of a port

  /** The dead-name requests registered with p for the send-once right q. */
  ghost function Fired(w: World, p: Object, q: Object): set<Key> {
    set k | k in w.dn && w.dn[k] == Request(p, q)
  }

  /** All dead-name requests of p are handed out. */
  ghost function DnFired(w: World, p: Object): World {
    w.(ports := map q | q in w.ports :: w.ports[q].(nakedOnce := w.ports[q].nakedOnce + |Fired(w, p, q)|),
       dn := map k | k in w.dn && w.dn[k].port != p :: w.dn[k])
  }

  lemma DnFiredGaps(w: World, p: Object, x: Object)
    requires x in w.ports
    ensures SendGap(DnFired(w, p), x) == SendGap(w, x) && OnceGap(DnFired(w, p), x) == OnceGap(w, x)
  {
    var w' := DnFired(w, p);
    assert SendKeys(w', x) == SendKeys(w, x) && OnceKeys(w', x) == OnceKeys(w, x);
    assert PdPorts(w', x) == PdPorts(w, x) && NsPorts(w', x) == NsPorts(w, x);
    DnFiredKeys(w, p, x);
  }

  lemma DnFiredKeys(w: World, p: Object, x: Object)
    ensures |DnKeys(w, x)| == |DnKeys(DnFired(w, p), x)| + |Fired(w, p, x)|
  {
    var w' := DnFired(w, p);
    assert DnKeys(w, x) == DnKeys(w', x) + Fired(w, p, x) && DnKeys(w', x) !! Fired(w, p, x);
  }

  /** ipc_port_destroy of a port without a backup: its requests are handed out, and it is dead. */
  ghost function Killed(w: World, p: Object): World
    requires p in w.ports
  {
    Dead(DnFired(NsSet(PdSet(w, p, IO_NULL), p, IO_NULL), p), p)
  }

  ghost function Dead(w: World, p: Object): World
    requires p in w.ports
  {
    w.(ports := w.ports[p := w.ports[p].(active := false, receiver := Nowhere)])
  }

  lemma DeadGaps(w: World, p: Object, x: Object)
    requires p in w.ports && x in w.ports
    ensures SendGap(Dead(w, p), x) == SendGap(w, x) && OnceGap(Dead(w, p), x) == OnceGap(w, x)
  {
    SameRequests(w, Dead(w, p), x);
  }

  lemma KilledGaps(w: World, p: Object, x: Object)
    requires p in w.ports && x in w.ports
    ensures x in Killed(w, p).ports && SendGap(Killed(w, p), x) == SendGap(w, x) && OnceGap(Killed(w, p), x) == OnceGap(w, x)
  {
    PdGaps(w, p, IO_NULL, x);
    var w1 := PdSet(w, p, IO_NULL);
    NsSetGaps(w1, p, IO_NULL, x);
    var w2 := NsSet(w1, p, IO_NULL);
    DnFiredGaps(w2, p, x);
    DeadGaps(DnFired(w2, p), p, x);
  }

  /** The shape of the world, but for the requests registered with p. */
  ghost predicate ShapedBut(w: World, p: Object) {
    EntriesOk(w) && TargetsOk(w) && ReceiversOk(w) && OneName(w) && forall k :: RequestBut(w, p, k)
  }

  ghost predicate RequestBut(w: World, p: Object, k: Key) {
    && (k in w.dn && w.dn[k].port != p <==> Requests(w, k) && w.entries[k].obj != p)
    && (k in w.dn && w.dn[k].port != p && k in w.entries ==> w.dn[k].port == w.entries[k].obj)
  }

  /** The invariant, but for what concerns the port p alone: its counts and the requests registered with it. */
  ghost predicate InvBut(w: World, p: Object) {
    ShapedBut(w, p) && forall x :: x in w.ports && w.ports[x].active && x != p ==> SendGap(w, x) == 0 && OnceGap(w, x) == 0
  }

  lemma InvMeansBut(w: World, p: Object)
    requires Inv(w)
    ensures InvBut(w, p)
  {
    forall k
      ensures RequestBut(w, p, k)
    {
      assert RequestOk(w, k);
    }
  }

  lemma DeadRequests(w: World, p: Object, k: Key)
    requires p in w.ports && RequestBut(w, p, k)
    ensures RequestOk(Dead(DnFired(w, p), p), k)
  {
  }

  lemma DeadShaped(w: World, p: Object)
    requires ShapedBut(w, p) && p in w.ports && forall k :: k in w.entries && HasReceive(w.entries[k]) ==> w.entries[k].obj != p
    ensures Shaped(Dead(DnFired(w, p), p))
  {
    var w' := Dead(DnFired(w, p), p);
    assert EntriesOk(w') && TargetsOk(w') && ReceiversOk(w');
    forall k
      ensures RequestOk(w', k)
    {
      DeadRequests(w, p, k);
    }
    EachRequest(w');
    forall j, k | j in w'.entries && k in w'.entries && Twins(w', j, k)
      ensures j == k
    {
      assert Twins(w, j, k);
    }
  }

  lemma SameBut(w: World, w': World, p: Object)
    requires ShapedBut(w, p) && w'.entries == w.entries && w'.dn == w.dn && SamePorts(w, w') && TargetsOk(w')
    ensures ShapedBut(w', p)
  {
    forall k
      ensures RequestBut(w', p, k)
    {
      assert RequestBut(w, p, k);
    }
    assert forall j, k :: j in w.entries && k in w.entries ==> (Twins(w', j, k) <==> Twins(w, j, k));
  }

  /** A port whose receive right is in no space dies. */
  lemma KilledInv(w: World, p: Object)
    requires InvBut(w, p) && p in w.ports && forall k :: k in w.entries && HasReceive(w.entries[k]) ==> w.entries[k].obj != p
    ensures Inv(Killed(w, p))
  {
    PdShape(w, p, IO_NULL);
    var w1 := PdSet(w, p, IO_NULL);
    SameBut(w, w1, p);
    NsShape(w1, p, IO_NULL);
    var w2 := NsSet(w1, p, IO_NULL);
    SameBut(w1, w2, p);
    DeadShaped(w2, p);
    KilledActive(w, p);
    forall x | x in Killed(w, p).ports && Killed(w, p).ports[x].active && x != IO_NULL
      ensures SendGap(Killed(w, p), x) == 0 && OnceGap(Killed(w, p), x) == 0
    {
      KilledGaps(w, p, x);
    }
  }

  /** The port is dead, the others live as before. */
  lemma KilledActive(w: World, p: Object)
    requires TargetsOk(w) && p in w.ports
    ensures var w' := Killed(w, p); w'.ports.Keys == w.ports.Keys && w'.entries == w.entries && !Alive(w', p)
    ensures forall x :: x in w.ports && x != p ==> Killed(w, p).ports[x].active == w.ports[x].active
  {
    PdShape(w, p, IO_NULL);
    NsShape(PdSet(w, p, IO_NULL), p, IO_NULL);
  }

  // ------------------------------------------------------------ receive rights given up

  /** ipc_port_destroy: with a backup registered, and no cycle to fear, the receive right goes to it instead. */
  ghost predicate HasBackup(w: World, p: Object, circular: bool) {
    p in w.ports && w.ports[p].pd != IO_NULL && !circular
  }

  ghost function PortDestroyed(w: World, p: Object, circular: bool): World
    requires p in w.ports
  {
    if HasBackup(w, p, circular) then Limbo(PdSet(w, p, IO_NULL), p) else Killed(w, p)
  }

  lemma PortDestroyedInv(w: World, p: Object, circular: bool)
    requires Inv(w) && p in w.ports && forall k :: k in w.entries && HasReceive(w.entries[k]) ==> w.entries[k].obj != p
    ensures Inv(PortDestroyed(w, p, circular))
  {
    if HasBackup(w, p, circular) {
      PdInv(w, p, IO_NULL);
      PdShape(w, p, IO_NULL);
      LimboInv(PdSet(w, p, IO_NULL), p);
    } else {
      InvMeansBut(w, p);
      KilledInv(w, p);
    }
  }

  lemma DestroyedShape(w: World, p: Object, circular: bool)
    requires TargetsOk(w) && p in w.ports
    ensures var w' := PortDestroyed(w, p, circular); w'.entries == w.entries && p in w'.ports
    ensures Alive(PortDestroyed(w, p, circular), p) <==> Alive(w, p) && HasBackup(w, p, circular)
  {
    PdShape(w, p, IO_NULL);
    KilledActive(w, p);
  }

  /** Operations on entries leave a port's backup alone. */
  lemma AppliedPd(w: World, k: Key, p: Object, e: Effect)
    requires p in w.ports
    ensures p in Applied(w, k, p, e).ports && Applied(w, k, p, e).ports[p].pd == w.ports[p].pd
  {
  }

  /** ipc_right_destroy of the entry k, and of its port if it has the receive right. */
  ghost function EntryDestroyed(w: World, k: Key, circular: bool): World
    requires k in w.entries
  {
    var r := w.entries[k];
    var w' := Applied(w, k, r.obj, Destroyed(r, Alive(w, r.obj)));
    if HasReceive(r) && r.obj in w'.ports then PortDestroyed(w', r.obj, circular) else w'
  }

  lemma EntryDestroyedInv(w: World, k: Key, circular: bool)
    requires Inv(w) && k in w.entries
    ensures Inv(EntryDestroyed(w, k, circular))
  {
    var r := w.entries[k];
    var e := Destroyed(r, Alive(w, r.obj));
    DestroyKeeps(r, Alive(w, r.obj));
    AppliedInv(w, k, e);
    if HasReceive(r) {
      NoReceiverLeft(w, k, e);
      AppliedShape(w, k, r.obj, e);
      PortDestroyedInv(Applied(w, k, r.obj, e), r.obj, circular);
    }
  }

  /** The entry is gone and no other touched; its port dies exactly when it had the receive right and there is no backup. */
  lemma EntryDestroyedExact(w: World, k: Key, circular: bool)
    requires Inv(w) && k in w.entries
    ensures EntryDestroyed(w, k, circular).entries == w.entries - {k}
    ensures var p := w.entries[k].obj;
      Alive(EntryDestroyed(w, k, circular), p) <==> Alive(w, p) && !(HasReceive(w.entries[k]) && !HasBackup(w, p, circular))
  {
    var r := w.entries[k];
    var e := Destroyed(r, Alive(w, r.obj));
    AppliedShape(w, k, r.obj, e);
    TargetsKept(w, k, r.obj, e);
    if HasReceive(r) {
      AppliedPd(w, k, r.obj, e);
      DestroyedShape(Applied(w, k, r.obj, e), r.obj, circular);
    }
  }

  /** The entry k as ipc_right_delta of -1 for its receive right leaves it, before the port is destroyed. */
  ghost function Forgone(w: World, k: Key): World
    requires k in w.entries
  {
    Applied(w, k, w.entries[k].obj, ReceiveDelta(w.entries[k]))
  }

  /** ipc_right_delta of -1 for the receive right of the entry k: first the entry, then the port. */
  ghost function GivenUp(w: World, k: Key, circular: bool): World
    requires k in w.entries && w.entries[k].obj in w.ports
  {
    AppliedPd(w, k, w.entries[k].obj, ReceiveDelta(w.entries[k]));
    PortDestroyed(Forgone(w, k), w.entries[k].obj, circular)
  }

  /** A send right under the same name, and a backup that keeps the port alive. */
  ghost predicate Leaks(w: World, k: Key, circular: bool)
    requires k in w.entries
  {
    w.entries[k].kind == SendReceive && HasBackup(w, w.entries[k].obj, circular)
  }

  /** With a send right in the entry only the entry changes. */
  lemma ForgoneEntry(w: World, k: Key)
    requires Inv(w) && k in w.entries && w.entries[k].kind == SendReceive
    ensures var w', p := Forgone(w, k), w.entries[k].obj;
      && w'.entries == w.entries[k := Died(w.entries[k])] && w'.dn == w.dn && SamePorts(w, w') && TargetsOk(w')
      && Sane(Died(w.entries[k])) && p in w'.ports && w'.ports[p].pd == w.ports[p].pd
  {
    var r := w.entries[k];
    ReceiveDeltaKeeps(r);
    AppliedShape(w, k, r.obj, ReceiveDelta(r));
    AppliedPd(w, k, r.obj, ReceiveDelta(r));
    TargetsKept(w, k, r.obj, ReceiveDelta(r));
  }

  /** With a send right in the entry, only what concerns its port is out of order until the port is destroyed. */
  lemma ForgoneShaped(w: World, w': World, k: Key)
    requires Inv(w) && k in w.entries && w.entries[k].kind == SendReceive && Sane(Died(w.entries[k]))
    requires w'.entries == w.entries[k := Died(w.entries[k])] && w'.dn == w.dn && SamePorts(w, w') && TargetsOk(w')
    ensures ShapedBut(w', w.entries[k].obj)
  {
    forall j
      ensures RequestBut(w', w.entries[k].obj, j)
    {
      assert RequestOk(w, j);
    }
    forall i, j | i in w'.entries && j in w'.entries && Twins(w', i, j)
      ensures i == j
    {
      assert Twins(w, i, j);
    }
    assert EntriesOk(w') && ReceiversOk(w');
  }

  lemma ForgoneGaps(w: World, k: Key, x: Object)
    requires EntriesOk(w) && k in w.entries && w.entries[k].kind == SendReceive && x in w.ports
    ensures x in Forgone(w, k).ports && SendGap(Forgone(w, k), x) == SendGap(w, x) + Bit(x == w.entries[k].obj)
    ensures OnceGap(Forgone(w, k), x) == OnceGap(w, x)
  {
    var r := w.entries[k];
    var e := ReceiveDelta(r);
    SetEntryGaps(w, k, e.right, x);
    SettledGaps(SetEntry(w, k, e.right), r.obj, e, x);
  }

  lemma ForgoneBut(w: World, k: Key)
    requires Inv(w) && k in w.entries && w.entries[k].kind == SendReceive
    ensures InvBut(Forgone(w, k), w.entries[k].obj)
  {
    var w' := Forgone(w, k);
    ForgoneEntry(w, k);
    ForgoneShaped(w, w', k);
    forall x | x in w'.ports && w'.ports[x].active && x != w.entries[k].obj
      ensures SendGap(w', x) == 0 && OnceGap(w', x) == 0
    {
      ForgoneGaps(w, k, x);
    }
  }

  lemma ForgoneReceiver(w: World, k: Key)
    requires Inv(w) && k in w.entries && HasReceive(w.entries[k])
    ensures forall j :: j in Forgone(w, k).entries && HasReceive(Forgone(w, k).entries[j]) ==> Forgone(w, k).entries[j].obj != w.entries[k].obj
  {
    NoReceiverLeft(w, k, ReceiveDelta(w.entries[k]));
  }

  lemma GivenUpInv(w: World, k: Key, circular: bool)
    requires Inv(w) && k in w.entries && HasReceive(w.entries[k]) && !Leaks(w, k, circular)
    ensures Inv(GivenUp(w, k, circular))
  {
    var r := w.entries[k];
    ForgoneReceiver(w, k);
    AppliedPd(w, k, r.obj, ReceiveDelta(r));
    if r.kind == Receive {
      ReceiveDeltaKeeps(r);
      AppliedInv(w, k, ReceiveDelta(r));
      PortDestroyedInv(Forgone(w, k), r.obj, circular);
    } else {
      ForgoneBut(w, k);
      KilledInv(Forgone(w, k), r.obj);
    }
  }

  /** A backup takes the receive right: the port lives, and nothing else changes but who holds its request. */
  lemma BackedUp(w: World, p: Object, circular: bool)
    requires TargetsOk(w) && HasBackup(w, p, circular)
    ensures var w' := PortDestroyed(w, p, circular);
      && w'.entries == w.entries && w'.dn == w.dn && w'.ports.Keys == w.ports.Keys
      && (forall x :: x in w.ports ==> w'.ports[x].active == w.ports[x].active && (x != p ==> w'.ports[x].receiver == w.ports[x].receiver))
  {
    PdShape(w, p, IO_NULL);
  }

  lemma BackedGap(w: World, p: Object, circular: bool)
    requires TargetsOk(w) && HasBackup(w, p, circular)
    ensures var w' := PortDestroyed(w, p, circular); p in w'.ports && SendGap(w', p) == SendGap(w, p)
  {
    var w1 := PdSet(w, p, IO_NULL);
    PdShape(w, p, IO_NULL);
    PdGaps(w, p, IO_NULL, p);
    SameRequests(w1, Limbo(w1, p), p);
  }

  /** In the leaking case the port lives on with a send right too many. */
  lemma LeakGap(w: World, k: Key, circular: bool)
    requires Inv(w) && k in w.entries && Leaks(w, k, circular)
    ensures var w', p := GivenUp(w, k, circular), w.entries[k].obj; p in w'.ports && w'.ports[p].active && SendGap(w', p) == 1
  {
    var r, w1 := w.entries[k], Forgone(w, k);
    ForgoneGaps(w, k, r.obj);
    ForgoneEntry(w, k);
    BackedUp(w1, r.obj, circular);
    BackedGap(w1, r.obj, circular);
  }

  /** So send rights are conserved exactly when no backup takes the receive right away from a send right of its name. */
  lemma GivenUpConserves(w: World, k: Key, circular: bool)
    requires Inv(w) && k in w.entries && HasReceive(w.entries[k])
    ensures Conserved(GivenUp(w, k, circular)) <==> !Leaks(w, k, circular)
  {
    if Leaks(w, k, circular) {
      LeakGap(w, k, circular);
    } else {
      GivenUpInv(w, k, circular);
    }
  }

  /** What is registered and what entries say, in the leaking case: the port keeps a request for a name that is dead. */
  lemma LeakRequest(w: World, k: Key, circular: bool)
    requires Inv(w) && k in w.entries && Leaks(w, k, circular)
    ensures var w' := GivenUp(w, k, circular);
      && w'.dn == w.dn && k in w'.entries && w'.entries[k] == Died(w.entries[k]) && OnlyAt(w, w', k, w.entries[k].obj)
      && (k in w'.dn <==> w.entries[k].request != 0)
  {
    ForgoneEntry(w, k);
    BackedUp(Forgone(w, k), w.entries[k].obj, circular);
    UpdateMinus(w.entries, k, Died(w.entries[k]));
    assert RequestOk(w, k);
  }

  /** The requests registered are those of entries for live ports, but for a request left behind by the same leak. */
  lemma GivenUpRequests(w: World, k: Key, circular: bool)
    requires Inv(w) && k in w.entries && HasReceive(w.entries[k])
    ensures RequestsOk(GivenUp(w, k, circular)) <==> !(Leaks(w, k, circular) && w.entries[k].request != 0)
  {
    if Leaks(w, k, circular) {
      LeakRequest(w, k, circular);
      if w.entries[k].request == 0 {
        OnlyAtRequests(w, GivenUp(w, k, circular), k, w.entries[k].obj);
      }
    } else {
      GivenUpInv(w, k, circular);
    }
  }

  /** One space with a send and receive right for port 1, which has port 2 as its backup and a request registered for the name. */
  ghost function Leaky(): World {
    World(map[Key(0, 1) := Right(SendReceive, 1, 1, 1)],
          map[1 := Port(true, At(Key(0, 1)), 1, 0, 0, 0, 2, IO_NULL), 2 := Port(true, Nowhere, 0, 2, 0, 0, IO_NULL, IO_NULL)],
          map[Key(0, 1) := Request(1, 2)])
  }

  lemma LeakyInv()
    ensures Inv(Leaky())
  {
    var w, k := Leaky(), Key(0, 1);
    assert SendKeys(w, 1) == {k} && OnceKeys(w, 1) == {} && DnKeys(w, 1) == {} && PdPorts(w, 1) == {} && NsPorts(w, 1) == {};
    assert SendKeys(w, 2) == {} && OnceKeys(w, 2) == {} && DnKeys(w, 2) == {k} && PdPorts(w, 2) == {1} && NsPorts(w, 2) == {};
  }

  /** Both failures at once. */
  lemma LeakHappens()
    ensures Inv(Leaky()) && !Conserved(GivenUp(Leaky(), Key(0, 1), false)) && !RequestsOk(GivenUp(Leaky(), Key(0, 1), false))
  {
    LeakyInv();
    GivenUpConserves(Leaky(), Key(0, 1), false);
    GivenUpRequests(Leaky(), Key(0, 1), false);
  }

  // ------------------------------------------------------------ renaming

  /** The entry o, with its request and perhaps its receive right, moves to the unused name n. */
  ghost function Shunted(w: World, o: Key, n: Key): World
    requires o in w.entries
  {
    var r := w.entries[o];
    w.(entries := w.entries[n := r] - {o},
       dn := if o in w.dn then w.dn[n := w.dn[o]] - {o} else w.dn,
       ports := if HasReceive(r) && r.obj in w.ports then w.ports[r.obj := w.ports[r.obj].(receiver := At(n))] else w.ports)
  }

  /** ipc_right_rename */
  ghost function Renamed(w: World, o: Key, n: Key): World
    requires o in w.entries && Sane(w.entries[o])
  {
    var w1 := if w.entries[o].request != 0 then Operated(w, o, CheckOp) else w;
    if o in w1.entries then Shunted(w1, o, n) else w1
  }

  ghost function Formerly(o: Key, n: Key, k: Key): Key {
    if k == n then o else k
  }

  lemma ShuntedGaps(w: World, o: Key, n: Key, x: Object)
    requires o in w.entries && n !in w.entries && n !in w.dn && x in w.ports
    ensures var w' := Shunted(w, o, n); x in w'.ports && SendGap(w', x) == SendGap(w, x) && OnceGap(w', x) == OnceGap(w, x)
  {
    var r, w' := w.entries[o], Shunted(w, o, n);
    var w1 := w.(entries := w.entries[n := r]);
    var w2 := w1.(entries := w'.entries);
    SetCount(SendKeys(w, x), SendKeys(w1, x), n);
    SetCount(OnceKeys(w, x), OnceKeys(w1, x), n);
    SetCount(SendKeys(w1, x), SendKeys(w2, x), o);
    SetCount(OnceKeys(w1, x), OnceKeys(w2, x), o);
    ShuntedRequests(w, o, n, x);
    SameRequests(w.(entries := w'.entries, dn := w'.dn), w', x);
    assert SendKeys(w2, x) == SendKeys(w', x) && OnceKeys(w2, x) == OnceKeys(w', x);
    assert PdPorts(w', x) == PdPorts(w, x) && NsPorts(w', x) == NsPorts(w, x);
  }

  lemma ShuntedRequests(w: World, o: Key, n: Key, x: Object)
    requires o in w.entries && n !in w.dn && n != o
    ensures |DnKeys(Shunted(w, o, n), x)| == |DnKeys(w, x)|
  {
    if o in w.dn {
      var w1 := w.(dn := w.dn[n := w.dn[o]]);
      var w' := Shunted(w, o, n);
      SetCount(DnKeys(w, x), DnKeys(w1, x), n);
      SetCount(DnKeys(w1, x), DnKeys(w', x), o);
    } else {
      assert DnKeys(Shunted(w, o, n), x) == DnKeys(w, x);
    }
  }

  lemma ShuntedAt(w: World, o: Key, n: Key, k: Key)
    requires Shaped(w) && o in w.entries && n !in w.entries
    ensures var w', j := Shunted(w, o, n), Formerly(o, n, k);
      && (k in w'.entries <==> k != o && j in w.entries) && (k in w'.entries ==> w'.entries[k] == w.entries[j])
      && (k in w'.dn <==> k != o && j in w.dn) && (k in w'.dn ==> w'.dn[k] == w.dn[j])
      && (Requests(w', k) <==> k != o && Requests(w, j))
  {
    assert n !in w.dn by {
      assert !Requests(w, n);
    }
  }

  lemma ShuntedShaped(w: World, o: Key, n: Key)
    requires Shaped(w) && o in w.entries && n !in w.entries && n.space == o.space
    ensures Shaped(Shunted(w, o, n))
  {
    var w' := Shunted(w, o, n);
    forall k
      ensures k in w'.entries ==> k != o && Formerly(o, n, k) in w.entries && w'.entries[k] == w.entries[Formerly(o, n, k)]
      ensures k in w'.dn ==> k != o && Formerly(o, n, k) in w.dn && w'.dn[k] == w.dn[Formerly(o, n, k)]
      ensures k in w'.dn <==> Requests(w', k)
    {
      ShuntedAt(w, o, n, k);
      assert Formerly(o, n, k) in w.dn <==> Requests(w, Formerly(o, n, k));
    }
    ShuntedReceivers(w, o, n);
    forall j, k | j in w'.entries && k in w'.entries && Twins(w', j, k)
      ensures j == k
    {
      assert Twins(w, Formerly(o, n, j), Formerly(o, n, k));
    }
    assert EntriesOk(w') && TargetsOk(w') && RequestsOk(w');
  }

  lemma ShuntedReceivers(w: World, o: Key, n: Key)
    requires Shaped(w) && o in w.entries && n !in w.entries
    ensures ReceiversOk(Shunted(w, o, n))
  {
    var w' := Shunted(w, o, n);
    forall k | k in w'.entries && HasReceive(w'.entries[k])
      ensures Alive(w', w'.entries[k].obj) && w'.ports[w'.entries[k].obj].receiver == At(k)
    {
      ShuntedAt(w, o, n, k);
    }
  }

  lemma ShuntedInv(w: World, o: Key, n: Key)
    requires Inv(w) && o in w.entries && n !in w.entries && n.space == o.space
    ensures Inv(Shunted(w, o, n))
  {
    var w' := Shunted(w, o, n);
    ShuntedShaped(w, o, n);
    assert n !in w.dn by {
      assert !Requests(w, n);
    }
    forall x | x in w'.ports && w'.ports[x].active && x != IO_NULL
      ensures SendGap(w', x) == 0 && OnceGap(w', x) == 0
    {
      ShuntedGaps(w, o, n, x);
    }
  }

  lemma RenamedInv(w: World, o: Key, n: Key)
    requires Inv(w) && o in w.entries && n !in w.entries && n.space == o.space
    ensures Inv(Renamed(w, o, n))
  {
    OperatedInv(w, o, CheckOp);
    var w1 := if w.entries[o].request != 0 then Operated(w, o, CheckOp) else w;
    AppliedShape(w, o, w.entries[o].obj, EffectOf(CheckOp, w.entries[o], Alive(w, w.entries[o].obj)));
    if o in w1.entries {
      ShuntedInv(w1, o, n);
    }
  }

  /** What arrives under the new name: a right with a request for a port that is dead is a dead name by then. */
  ghost function Arriving(w: World, o: Key): Right
    requires o in w.entries
  {
    var r := w.entries[o];
    if r.request != 0 && NamesPort(r) && !Alive(w, r.obj) then Died(r) else r
  }

  /** The new name has the old one's right, the old name none, and no other changes. */
  lemma RenamedExact(w: World, o: Key, n: Key, k: Key)
    requires Inv(w) && o in w.entries && n !in w.entries && n.space == o.space
    ensures Entry(Renamed(w, o, n), k) == (if k == n then Arriving(w, o) else if k == o then NO_RIGHT else Entry(w, k))
  {
    CheckedAt(w, o);
    OperatedInv(w, o, CheckOp);
    var w1 := if w.entries[o].request != 0 then Operated(w, o, CheckOp) else w;
    ShuntedAt(w1, o, n, k);
  }

  lemma CheckedAt(w: World, o: Key)
    requires Inv(w) && o in w.entries
    ensures var r := w.entries[o]; Operated(w, o, CheckOp).entries == w.entries[o := if NamesPort(r) && !Alive(w, r.obj) then Died(r) else r]
  {
    var r := w.entries[o];
    AppliedShape(w, o, r.obj, EffectOf(CheckOp, r, Alive(w, r.obj)));
  }

  // ------------------------------------------------------------ runs

  /** Everything that happens to rights, each under the locks that make it one step. */
  datatype Step =
    | OnEntry(k: Key, op: Op) | Give(k: Key, circular: bool) | Destroy(k: Key, circular: bool) | Rename(k: Key, n: Key)
    | SendOut(k: Key, p: Object, overflow: bool) | OnceOutTo(k: Key, p: Object) | ReceiveOut(k: Key, p: Object)
    | Allocate(k: Key, p: Object) | Discard(p: Object, circular: bool)
    | MakeSendFor(p: Object) | CopySendFor(p: Object) | ReleaseSend(p: Object) | MakeOnceFor(p: Object) | ReleaseOnce(p: Object)
    | Ask(k: Key, q: Object) | Cancel(k: Key) | SetPd(p: Object, q: Object) | SetNs(p: Object, q: Object)

  /** What the callers in the source see to, and, in Give, that no send right is leaked. */
  ghost predicate Enabled(w: World, s: Step) {
    match s
    case OnEntry(k, op) => k in w.entries
    case Give(k, circular) => k in w.entries && HasReceive(w.entries[k]) && !Leaks(w, k, circular)
    case Destroy(k, circular) => k in w.entries
    case Rename(k, n) => k in w.entries && n !in w.entries && n.space == k.space
    case SendOut(k, p, overflow) => Chosen(w, k, p) && w.ports[p].naked > 0
    case OnceOutTo(k, p) => k !in w.entries && Alive(w, p) && w.ports[p].nakedOnce > 0
    case ReceiveOut(k, p) => Chosen(w, k, p) && w.ports[p].receiver == Nowhere
    case Allocate(k, p) => k !in w.entries && p !in w.ports && p != IO_NULL
    case Discard(p, circular) => Alive(w, p) && w.ports[p].receiver == Nowhere
    case MakeSendFor(p) => Alive(w, p)
    case CopySendFor(p) => Alive(w, p)
    case ReleaseSend(p) => p in w.ports && w.ports[p].naked > 0
    case MakeOnceFor(p) => Alive(w, p)
    case ReleaseOnce(p) => p in w.ports && w.ports[p].nakedOnce > 0
    case Ask(k, q) => k in w.entries && NamesPort(w.entries[k]) && Alive(w, w.entries[k].obj) && q in w.ports && w.ports[q].nakedOnce > 0
    case Cancel(k) => k in w.entries && NamesPort(w.entries[k]) && Alive(w, w.entries[k].obj)
    case SetPd(p, q) => Alive(w, p) && (q == IO_NULL || (q in w.ports && w.ports[q].nakedOnce > 0))
    case SetNs(p, q) => Alive(w, p) && (q == IO_NULL || (q in w.ports && w.ports[q].nakedOnce > 0))
  }

  /** The change of counts alone. */
  function Counts(sends: int, onces: int): Effect {
    Effect(NO_RIGHT, sends, onces, sends, onces, false, Keep)
  }

  ghost function Next(w: World, s: Step): World
    requires Inv(w) && Enabled(w, s)
  {
    match s
    case OnEntry(k, op) => Operated(w, k, op)
    case Give(k, circular) => GivenUp(w, k, circular)
    case Destroy(k, circular) => EntryDestroyed(w, k, circular)
    case Rename(k, n) => Renamed(w, k, n)
    case SendOut(k, p, overflow) => SentOut(w, k, p, overflow)
    case OnceOutTo(k, p) => OnceOut(w, k, p)
    case ReceiveOut(k, p) => ReceivedOut(w, k, p)
    case Allocate(k, p) => Born(w, k, p)
    case Discard(p, circular) => PortDestroyed(w, p, circular)
    case MakeSendFor(p) => Settled(w, p, Counts(1, 0))
    case CopySendFor(p) => Settled(w, p, Counts(1, 0))
    case ReleaseSend(p) => Settled(w, p, Counts(-1, 0))
    case MakeOnceFor(p) => Settled(w, p, Counts(0, 1))
    case ReleaseOnce(p) => Settled(w, p, Counts(0, -1))
    case Ask(k, q) => Registered(w, k, q)
    case Cancel(k) => Cancelled(w, k)
    case SetPd(p, q) => PdSet(w, p, q)
    case SetNs(p, q) => NsSet(w, p, q)
  }

  lemma NextInv(w: World, s: Step)
    requires Inv(w) && Enabled(w, s)
    ensures Inv(Next(w, s))
  {
    match s
    case OnEntry(k, op) => OperatedInv(w, k, op);
    case Give(k, circular) => GivenUpInv(w, k, circular);
    case Destroy(k, circular) => EntryDestroyedInv(w, k, circular);
    case Rename(k, n) => RenamedInv(w, k, n);
    case SendOut(k, p, overflow) => SentOutInv(w, k, p, overflow);
    case OnceOutTo(k, p) => OnceOutInv(w, k, p);
    case ReceiveOut(k, p) => ReceivedOutInv(w, k, p);
    case Allocate(k, p) => BornInv(w, k, p);
    case Discard(p, circular) => PortDestroyedInv(w, p, circular);
    case MakeSendFor(p) => AdjustInv(w, p, Counts(1, 0));
    case CopySendFor(p) => AdjustInv(w, p, Counts(1, 0));
    case ReleaseSend(p) => AdjustInv(w, p, Counts(-1, 0));
    case MakeOnceFor(p) => AdjustInv(w, p, Counts(0, 1));
    case ReleaseOnce(p) => AdjustInv(w, p, Counts(0, -1));
    case Ask(k, q) => RegisteredInv(w, k, q);
    case Cancel(k) => CancelledInv(w, k);
    case SetPd(p, q) => PdInv(w, p, q);
    case SetNs(p, q) => NsInv(w, p, q);
  }

  // ------------------------------------------------------------ no right is used that is not there

  /** No fewer naked rights than before. */
  ghost predicate NoPoorer(w: World, w': World) {
    && w'.ports.Keys == w.ports.Keys
    && forall p :: p in w.ports ==> w'.ports[p].naked >= w.ports[p].naked && w'.ports[p].nakedOnce >= w.ports[p].nakedOnce
  }

  /** Nobody owes a naked right. */
  ghost predicate Solvent(w: World) {
    forall p :: p in w.ports ==> w.ports[p].naked >= 0 && w.ports[p].nakedOnce >= 0
  }

  lemma SettledRicher(w: World, p: Object, e: Effect)
    requires e.naked >= 0 && e.nakedOnce >= 0
    ensures NoPoorer(w, Settled(w, p, e))
  {
  }

  lemma AppliedRicher(w: World, k: Key, p: Object, e: Effect)
    requires e.naked >= 0 && e.nakedOnce >= 0
    ensures NoPoorer(w, Applied(w, k, p, e))
  {
    var w0 := if e.cancels then Uncancelled(w, k) else w;
    assert NoPoorer(w, w0);
    SettledRicher(SetEntry(w0, k, e.right), p, e);
  }

  lemma PdRicher(w: World, p: Object)
    requires p in w.ports && IO_NULL !in w.ports
    ensures NoPoorer(w, PdSet(w, p, IO_NULL))
  {
  }

  lemma NsRicher(w: World, p: Object)
    requires p in w.ports && IO_NULL !in w.ports
    ensures NoPoorer(w, NsSet(w, p, IO_NULL))
  {
  }

  lemma DnRicher(w: World, p: Object)
    requires p in w.ports
    ensures NoPoorer(w, Dead(DnFired(w, p), p)) && NoPoorer(w, Limbo(w, p))
  {
  }

  lemma PortDestroyedRicher(w: World, p: Object, circular: bool)
    requires p in w.ports && IO_NULL !in w.ports
    ensures NoPoorer(w, PortDestroyed(w, p, circular))
  {
    PdRicher(w, p);
    var w1 := PdSet(w, p, IO_NULL);
    DnRicher(w1, p);
    NsRicher(w1, p);
    DnRicher(NsSet(w1, p, IO_NULL), p);
  }

  /** Operations on entries make rights naked, never the other way. */
  lemma EffectsRicher(op: Op, r: Right, alive: bool)
    requires Sane(r)
    ensures EffectOf(op, r, alive).naked >= 0 && EffectOf(op, r, alive).nakedOnce >= 0
  {
  }

  lemma OperatedRicher(w: World, k: Key, op: Op)
    requires k in w.entries && Sane(w.entries[k])
    ensures NoPoorer(w, Operated(w, k, op))
  {
    var r := w.entries[k];
    EffectsRicher(op, r, Alive(w, r.obj));
    AppliedRicher(w, k, r.obj, EffectOf(op, r, Alive(w, r.obj)));
  }

  lemma GivenUpRicher(w: World, k: Key, circular: bool)
    requires Inv(w) && k in w.entries && HasReceive(w.entries[k])
    ensures NoPoorer(w, GivenUp(w, k, circular))
  {
    var r := w.entries[k];
    AppliedRicher(w, k, r.obj, ReceiveDelta(r));
    AppliedShape(w, k, r.obj, ReceiveDelta(r));
    PortDestroyedRicher(Forgone(w, k), r.obj, circular);
  }

  lemma EntryDestroyedRicher(w: World, k: Key, circular: bool)
    requires Inv(w) && k in w.entries
    ensures NoPoorer(w, EntryDestroyed(w, k, circular))
  {
    var r := w.entries[k];
    var e := Destroyed(r, Alive(w, r.obj));
    AppliedRicher(w, k, r.obj, e);
    AppliedShape(w, k, r.obj, e);
    if HasReceive(r) {
      PortDestroyedRicher(Applied(w, k, r.obj, e), r.obj, circular);
    }
  }

  lemma RenamedRicher(w: World, o: Key, n: Key)
    requires o in w.entries && Sane(w.entries[o])
    ensures NoPoorer(w, Renamed(w, o, n))
  {
    OperatedRicher(w, o, CheckOp);
  }

  /** A naked right is given up only where there is one. */
  lemma SettledSolvent(w: World, p: Object, e: Effect)
    requires Solvent(w) && p in w.ports && w.ports[p].naked + e.naked >= 0 && w.ports[p].nakedOnce + e.nakedOnce >= 0
    ensures Solvent(Settled(w, p, e))
  {
  }

  lemma AskedSolvent(w: World, k: Key, q: Object)
    requires Solvent(w) && k in w.entries && q in w.ports && w.ports[q].nakedOnce > 0
    ensures Solvent(Registered(w, k, q))
  {
    assert NoPoorer(w, Uncancelled(w, k)) && Solvent(Uncancelled(w, k));
  }

  lemma PdSolvent(w: World, p: Object, q: Object)
    requires Solvent(w) && p in w.ports && (q == IO_NULL || (q in w.ports && w.ports[q].nakedOnce > 0)) && IO_NULL !in w.ports
    ensures Solvent(PdSet(w, p, q))
  {
    assert NoPoorer(w, Hand(w, w.ports[p].pd));
  }

  lemma NsSolvent(w: World, p: Object, q: Object)
    requires Solvent(w) && p in w.ports && (q == IO_NULL || (q in w.ports && w.ports[q].nakedOnce > 0)) && IO_NULL !in w.ports
    ensures Solvent(NsSet(w, p, q))
  {
    assert NoPoorer(w, Hand(w, w.ports[p].ns));
  }

  lemma RicherSolvent(w: World, w': World)
    requires Solvent(w) && NoPoorer(w, w')
    ensures Solvent(w')
  {
  }

  lemma EntrySolvent(w: World, s: Step)
    requires Inv(w) && Enabled(w, s) && Solvent(w) && (s.OnEntry? || s.Give? || s.Destroy? || s.Rename?)
    ensures Solvent(Next(w, s))
  {
    match s {
      case OnEntry(k, op) => OperatedRicher(w, k, op);
      case Give(k, circular) => GivenUpRicher(w, k, circular);
      case Destroy(k, circular) => EntryDestroyedRicher(w, k, circular);
      case Rename(k, n) => RenamedRicher(w, k, n);
    }
    RicherSolvent(w, Next(w, s));
  }

  lemma SentOutSolvent(w: World, k: Key, p: Object, overflow: bool)
    requires Inv(w) && Solvent(w) && Chosen(w, k, p) && w.ports[p].naked > 0
    ensures Solvent(SentOut(w, k, p, overflow))
  {
    var e := SendCopiedOut(Entry(w, k), p, overflow).0;
    SettledSolvent(SetEntry(w, k, e.right), p, e);
  }

  lemma OutSolvent(w: World, s: Step)
    requires Inv(w) && Enabled(w, s) && Solvent(w) && (s.SendOut? || s.OnceOutTo? || s.ReceiveOut?)
    ensures Solvent(Next(w, s))
  {
    match s
    case SendOut(k, p, overflow) => SentOutSolvent(w, k, p, overflow);
    case OnceOutTo(k, p) => SettledSolvent(SetEntry(w, k, OnceCopiedOut(p).right), p, OnceCopiedOut(p));
    case ReceiveOut(k, p) =>
      AppliedRicher(w, k, p, ReceiveCopiedOut(Entry(w, k), p));
      RicherSolvent(w, ReceivedOut(w, k, p));
  }

  lemma CountSolvent(w: World, s: Step)
    requires Inv(w) && Enabled(w, s) && Solvent(w)
    requires s.MakeSendFor? || s.CopySendFor? || s.ReleaseSend? || s.MakeOnceFor? || s.ReleaseOnce?
    ensures Solvent(Next(w, s))
  {
    match s
    case MakeSendFor(p) => SettledSolvent(w, p, Counts(1, 0));
    case CopySendFor(p) => SettledSolvent(w, p, Counts(1, 0));
    case ReleaseSend(p) => SettledSolvent(w, p, Counts(-1, 0));
    case MakeOnceFor(p) => SettledSolvent(w, p, Counts(0, 1));
    case ReleaseOnce(p) => SettledSolvent(w, p, Counts(0, -1));
  }

  lemma CancelSolvent(w: World, k: Key)
    requires Solvent(w) && k in w.entries
    ensures Solvent(Cancelled(w, k))
  {
    assert NoPoorer(w, Uncancelled(w, k));
  }

  lemma NextSolvent(w: World, s: Step)
    requires Inv(w) && Enabled(w, s) && Solvent(w)
    ensures Solvent(Next(w, s))
  {
    if s.OnEntry? || s.Give? || s.Destroy? || s.Rename? {
      EntrySolvent(w, s);
    } else if s.SendOut? || s.OnceOutTo? || s.ReceiveOut? {
      OutSolvent(w, s);
    } else if s.MakeSendFor? || s.CopySendFor? || s.ReleaseSend? || s.MakeOnceFor? || s.ReleaseOnce? {
      CountSolvent(w, s);
    } else {
      match s
      case Allocate(k, p) =>
      case Discard(p, circular) =>
        PortDestroyedRicher(w, p, circular);
        RicherSolvent(w, PortDestroyed(w, p, circular));
      case Ask(k, q) => AskedSolvent(w, k, q);
      case Cancel(k) => CancelSolvent(w, k);
      case SetPd(p, q) => PdSolvent(w, p, q);
      case SetNs(p, q) => NsSolvent(w, p, q);
    }
  }

  /** What the code asserts of ip_srights and ip_sorights, wherever it takes a right out of an entry. */
  lemma CountsPositive(w: World, k: Key)
    requires Inv(w) && Solvent(w) && k in w.entries && Alive(w, w.entries[k].obj)
    ensures HasSend(w.entries[k]) ==> w.ports[w.entries[k].obj].srights > 0
    ensures HasOnce(w.entries[k]) ==> w.ports[w.entries[k].obj].sorights > 0
  {
    var p := w.entries[k].obj;
    assert HasSend(w.entries[k]) ==> k in SendKeys(w, p);
    assert HasOnce(w.entries[k]) ==> k in OnceKeys(w, p);
  }

  /** Before anything is allocated. */
  lemma StartInv()
    ensures Inv(World(map[], map[], map[])) && Solvent(World(map[], map[], map[]))
  {
  }

  /** The steps lead from w to w'. */
  ghost predicate Runs(w: World, steps: seq<Step>, w': World)
    requires Inv(w)
    decreases |steps|
  {
    if steps == [] then w' == w
    else Enabled(w, steps[0]) && (NextInv(w, steps[0]); Runs(Next(w, steps[0]), steps[1..], w'))
  }

  /**
   Over every run, ip_srights counts the entries with send rights and the naked send rights of a live port, and
   ip_sorights the entries, the naked rights and the registered requests; user references stay within their
   bits; a space has one name for a port it may send to or receive from; and no right is used that is not there.
   */
  lemma {:induction false} RunInv(w: World, steps: seq<Step>, w': World)
    requires Inv(w) && Solvent(w) && Runs(w, steps, w')
    ensures Conserved(w') && (forall k :: k in w'.entries ==> Sane(w'.entries[k])) && OneName(w') && RequestsOk(w')
    ensures Inv(w') && Solvent(w')
    decreases |steps|
  {
    if steps != [] {
      NextInv(w, steps[0]);
      NextSolvent(w, steps[0]);
      RunInv(Next(w, steps[0]), steps[1..], w');
    }
  }
}
