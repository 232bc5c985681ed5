/** Receive rights in transit: ipc_port_check_circularity of ipc/ipc_port.c. */
module Circular {
  import opened MachPort

  /** k destination links lead from p to q. */
  ghost predicate Leads<T>(g: map<T, T>, p: T, q: T, k: nat) {
    if k == 0 then p == q else p in g && Leads(g, g[p], q, k - 1)
  }

  ghost predicate Reaches<T>(g: map<T, T>, p: T, q: T) {
    exists k: nat :: Leads(g, p, q, k)
  }

  /** No port is, link by link, in transit to itself. */
  ghost predicate Acyclic<T>(g: map<T, T>) {
    forall p, k: nat :: p in g && k > 0 ==> !Leads(g, p, p, k)
  }

  lemma {:induction false} LeadsOn<T>(g: map<T, T>, p: T, q: T, r: T, j: nat, k: nat)
    requires Leads(g, p, q, j) && Leads(g, q, r, k)
    ensures Leads(g, p, r, j + k)
  {
    if j > 0 {
      LeadsOn(g, g[p], q, r, j - 1, k);
    }
  }

  /** A new link from p leaves the ways to p as they are. */
  lemma {:induction false} WayStays<T>(g: map<T, T>, p: T, d: T, x: T, k: nat)
    requires p !in g && Leads(g, x, p, k)
    ensures Leads(g[p := d], x, p, k)
  {
    if k > 0 {
      WayStays(g, p, d, g[x], k - 1);
    }
  }

  lemma {:induction false} WayWas<T>(g: map<T, T>, p: T, d: T, x: T, k: nat) returns (j: nat)
    requires p !in g && Leads(g[p := d], x, p, k)
    ensures Leads(g, x, p, j)
  {
    if x == p {
      j := 0;
    } else {
      j := WayWas(g, p, d, g[x], k - 1);
      j := j + 1;
    }
  }

  /** A way in the new graph is a way in the old one, or passes p. */
  lemma {:induction false} OldOrThrough<T>(g: map<T, T>, p: T, d: T, x: T, y: T, k: nat) returns (i: nat)
    requires p !in g && Leads(g[p := d], x, y, k)
    ensures Leads(g, x, y, k) || (i < k && Leads(g[p := d], x, p, i) && Leads(g[p := d], d, y, k - i - 1))
  {
    i := 0;
    if k > 0 && x != p {
      i := OldOrThrough(g, p, d, g[x], y, k - 1);
      i := i + 1;
    }
  }

  /** A link closes a cycle exactly when its end already leads back to its start. */
  lemma LinkCloses<T>(g: map<T, T>, p: T, d: T)
    requires Acyclic(g) && p !in g
    ensures Acyclic(g[p := d]) <==> !Reaches(g, d, p)
  {
    var g' := g[p := d];
    if Reaches(g, d, p) {
      var k: nat :| Leads(g, d, p, k);
      WayStays(g, p, d, d, k);
      assert Leads(g', p, p, k + 1);
    } else {
      forall x, k: nat | x in g' && k > 0 && Leads(g', x, x, k)
        ensures false
      {
        var i := OldOrThrough(g, p, d, x, x, k);
        if i < k && Leads(g', x, p, i) && Leads(g', d, x, k - i - 1) {
          LeadsOn(g', d, x, p, k - i - 1, i);
          var j := WayWas(g, p, d, d, k - i - 1 + i);
        }
      }
    }
  }

  lemma {:induction false} FewerWays<T>(g: map<T, T>, s: set<T>, x: T, y: T, k: nat)
    requires Leads(g - s, x, y, k)
    ensures Leads(g, x, y, k)
  {
    if k > 0 {
      FewerWays(g, s, (g - s)[x], y, k - 1);
    }
  }

  /** Taking links away closes nothing. */
  lemma UnlinkKeeps<T>(g: map<T, T>, s: set<T>)
    requires Acyclic(g)
    ensures Acyclic(g - s)
  {
    forall x, k: nat | x in g - s && k > 0 && Leads(g - s, x, x, k)
      ensures false
    {
      FewerWays(g, s, x, x, k);
    }
  }

  ghost predicate Ahead<T>(g: map<T, T>, x: T, y: T) {
    exists k: nat :: k > 0 && Leads(g, x, y, k)
  }

  /** A chain has one end. */
  lemma {:induction false} OneEnd<T>(g: map<T, T>, d: T, b: T, c: T, j: nat, k: nat)
    requires Leads(g, d, b, j) && Leads(g, d, c, k) && b !in g && c !in g
    ensures b == c
  {
    if j > 0 && k > 0 {
      OneEnd(g, g[d], b, c, j - 1, k - 1);
    }
  }

  class TransitPort {
    var active: bool                  // ip_active
    var receiverName: Name            // ip_receiver_name
    var destination: TransitPort?     // ip_destination, while the receive right has no name

    predicate InTransit()
      reads this
    {
      active && receiverName == NULL && destination != null
    }

    predicate InLimbo()
      reads this
    {
      active && receiverName == NULL && destination == null
    }

    constructor (name: Name)
      ensures active && receiverName == name && destination == null
    {
      active, receiverName, destination := true, name, null;
    }
  }

  /** The destination links among the ports of u. */
  ghost function Links(u: set<TransitPort>): map<TransitPort, TransitPort>
    reads u
  {
    map p | p in u && p.InTransit() :: p.destination
  }

  ghost predicate Closed(u: set<TransitPort>)
    reads u
  {
    forall p :: p in u && p.InTransit() ==> p.destination in u
  }

  /** Finds the end of the chain of ports in transit from dest. */
  method ChainEnd(dest: TransitPort, ghost u: set<TransitPort>) returns (base: TransitPort, ghost n: nat)
    requires dest in u && Closed(u) && Acyclic(Links(u))
    ensures base in u && !base.InTransit() && Leads(Links(u), dest, base, n)
  {
    base, n := dest, 0;
    ghost var g, passed := Links(u), {};
    while base.InTransit()
      invariant base in u && Leads(g, dest, base, n) && passed <= g.Keys
      invariant forall x :: x in passed ==> Ahead(g, x, base)
      decreases g.Keys - passed
    {
      ghost var was := base;
      assert was !in passed;
      base := base.destination;
      assert Leads(g, was, base, 1);
      LeadsOn(g, dest, was, base, n, 1);
      forall x | x in passed
        ensures Ahead(g, x, base)
      {
        var k: nat :| k > 0 && Leads(g, x, was, k);
        LeadsOn(g, x, was, base, k, 1);
      }
      assert Ahead(g, was, base);
      passed, n := passed + {was}, n + 1;
    }
  }

  /** ipc_port_check_circularity: true exactly when the new link would close a cycle; otherwise the link is made. */
  method CheckCircularity(port: TransitPort, dest: TransitPort, ghost u: set<TransitPort>) returns (circular: bool)
    requires port in u && dest in u && port.InLimbo() && Closed(u) && Acyclic(Links(u))
    modifies port`destination
    ensures circular <==> old(Reaches(Links(u), dest, port))
    ensures circular <==> !Acyclic(old(Links(u))[port := dest])
    ensures Links(u) == if circular then old(Links(u)) else old(Links(u))[port := dest]
    ensures Closed(u) && Acyclic(Links(u))
  {
    ghost var g := Links(u);
    LinkCloses(g, port, dest);
    if port == dest {
      assert Leads(g, dest, port, 0);
      return true;
    }
    var locked: bool := *;    // whether ip_lock_try(dest) succeeds
    if locked && !dest.InTransit() {
      circular := false;
      assert dest !in g;
      assert !Reaches(g, dest, port);
    } else {
      var base, n := ChainEnd(dest, u);
      circular := port == base;
      if circular {
        assert Leads(g, dest, port, n);
      } else if Reaches(g, dest, port) {
        var k: nat :| Leads(g, dest, port, k);
        OneEnd(g, dest, base, port, n, k);
      }
    }
    if !circular {
      port.destination := dest;
    }
  }

  /** The receive right leaves transit: ipc_right_copyout gives it a name, or ipc_port_destroy kills the port. */
  method Arrive(port: TransitPort, name: Name, ghost u: set<TransitPort>)
    requires port in u && name != NULL && Closed(u) && Acyclic(Links(u))
    modifies port
    ensures Links(u) == old(Links(u)) - {port} && Closed(u) && Acyclic(Links(u))
    ensures port.receiverName == name && port.active == old(port.active)
  {
    UnlinkKeeps(Links(u), {port});
    port.receiverName, port.destination := name, null;
    assert Links(u) == old(Links(u)) - {port};
  }

  method Die(port: TransitPort, ghost u: set<TransitPort>)
    requires port in u && Closed(u) && Acyclic(Links(u))
    modifies port`active
    ensures Links(u) == old(Links(u)) - {port} && Closed(u) && Acyclic(Links(u)) && !port.active
  {
    UnlinkKeeps(Links(u), {port});
    port.active := false;
    assert Links(u) == old(Links(u)) - {port};
  }

  /** What can happen to the links: a right is queued for a destination, or a port leaves transit. */
  datatype Step<T> = Queued(port: T, dest: T) | Unlinked(port: T)

  /** A right is queued only from limbo, and its link is made only if it closes no cycle. */
  ghost function Linked<T>(g: map<T, T>, s: Step<T>): map<T, T> {
    match s
    case Queued(p, d) => if p in g || Reaches(g, d, p) then g else g[p := d]
    case Unlinked(p) => g - {p}
  }

  ghost function Run<T>(g: map<T, T>, steps: seq<Step<T>>): map<T, T>
    decreases |steps|
  {
    if steps == [] then g else Run(Linked(g, steps[0]), steps[1..])
  }

  /** So the links are never cyclic. */
  lemma {:induction false} NeverCyclic<T>(g: map<T, T>, steps: seq<Step<T>>)
    requires Acyclic(g)
    ensures Acyclic(Run(g, steps))
    decreases |steps|
  {
    if steps != [] {
      match steps[0] {
        case Queued(p, d) => if p !in g { LinkCloses(g, p, d); }
        case Unlinked(p) => UnlinkKeeps(g, {p});
      }
      NeverCyclic(Linked(g, steps[0]), steps[1..]);
    }
  }
}
