/**
 ipc_port_check_circularity among other threads.  The walk along the chain of destinations locks one port at a
 time and keeps them locked; between two of its steps others may link ports by the quick check, which needs no
 more than the locks of its two ports, and ports may arrive or die.  Only one thread walks at a time.
 */
module CircularRuns {
  import opened Circular

  /** The thread that holds ipc_port_multiple_lock: the port it would link, where to, and the chain locked so far. */
  datatype Walk<T> = Idle | Walking(port: T, dest: T, trail: seq<T>)

  datatype Net<T> = Net(links: map<T, T>, walk: Walk<T>)

  ghost predicate Locked<T>(n: Net<T>, p: T) {
    n.walk.Walking? && p in n.walk.trail
  }

  /** A port in limbo whose receive right another thread holds, so that nobody else links it. */
  ghost predicate Busy<T>(n: Net<T>, p: T) {
    n.walk.Walking? && p == n.walk.port
  }

  datatype Move<T> =
    | Quick(port: T, dest: T)   // the quick check: the destination is not in transit
    | Begin(port: T, dest: T)   // the walk starts
    | Advance                   // it locks the next port of the chain
    | Finish                    // it has come to the end, locks its own port and links it, or finds the cycle
    | Leave(port: T)            // a port arrives in a space or dies

  /** The port the walk locks next. */
  ghost function Ahead<T>(n: Net<T>): T
    requires n.walk.Walking? && (n.walk.trail != [] ==> Last(n) in n.links)
  {
    if n.walk.trail == [] then n.walk.dest else n.links[Last(n)]
  }

  ghost function Last<T>(n: Net<T>): T
    requires n.walk.Walking? && n.walk.trail != []
  {
    n.walk.trail[|n.walk.trail| - 1]
  }

  /** The walk has come to a port that is not in transit. */
  ghost predicate AtEnd<T>(n: Net<T>) {
    n.walk.Walking? && n.walk.trail != [] && Last(n) !in n.links
  }

  ghost predicate Enabled<T>(n: Net<T>, m: Move<T>) {
    match m
    case Quick(p, d) => p !in n.links && d !in n.links && p != d && !Locked(n, p) && !Locked(n, d) && !Busy(n, p)
    case Begin(p, d) => n.walk.Idle? && p !in n.links && p != d
    case Advance => n.walk.Walking? && !AtEnd(n)
    case Finish => AtEnd(n)
    case Leave(p) => !Locked(n, p)
  }

  ghost function Next<T>(n: Net<T>, m: Move<T>): Net<T>
    requires Enabled(n, m)
  {
    match m
    case Quick(p, d) => n.(links := n.links[p := d])
    case Begin(p, d) => n.(walk := Walking(p, d, []))
    case Advance => n.(walk := n.walk.(trail := n.walk.trail + [Ahead(n)]))
    case Finish => if Last(n) == n.walk.port then n.(walk := Idle) else Net(n.links[n.walk.port := n.walk.dest], Idle)
    case Leave(p) => n.(links := n.links - {p})
  }

  /** The locked ports are a chain from the destination. */
  ghost predicate Chained<T>(links: map<T, T>, d: T, trail: seq<T>) {
    && (trail != [] ==> trail[0] == d)
    && (forall i :: 0 <= i < |trail| - 1 ==> trail[i] in links && links[trail[i]] == trail[i + 1])
  }

  ghost predicate Inv<T>(n: Net<T>) {
    && Acyclic(n.links)
    && (n.walk.Walking? ==> n.walk.port !in n.links && n.walk.port != n.walk.dest && Chained(n.links, n.walk.dest, n.walk.trail))
  }

  lemma {:induction false} ChainLeads<T>(links: map<T, T>, d: T, trail: seq<T>, i: nat, j: nat)
    requires Chained(links, d, trail) && i <= j < |trail|
    ensures Leads(links, trail[i], trail[j], j - i)
    decreases j - i
  {
    if i < j {
      ChainLeads(links, d, trail, i + 1, j);
    }
  }

  /** The quick check is enough: a destination that is not in transit leads nowhere. */
  lemma QuickSafe<T>(links: map<T, T>, p: T, d: T)
    requires Acyclic(links) && p !in links && d !in links && p != d
    ensures Acyclic(links[p := d])
  {
    LinkCloses(links, p, d);
  }

  /** At the end of the walk the answer is exact, whatever happened since it began. */
  lemma FinishExact<T>(n: Net<T>)
    requires Inv(n) && AtEnd(n)
    ensures Last(n) == n.walk.port <==> Reaches(n.links, n.walk.dest, n.walk.port)
    ensures Last(n) == n.walk.port <==> !Acyclic(n.links[n.walk.port := n.walk.dest])
  {
    var w := n.walk;
    LinkCloses(n.links, w.port, w.dest);
    ChainLeads(n.links, w.dest, w.trail, 0, |w.trail| - 1);
    if Reaches(n.links, w.dest, w.port) {
      var k: nat :| Leads(n.links, w.dest, w.port, k);
      OneEnd(n.links, w.dest, Last(n), w.port, |w.trail| - 1, k);
    }
  }

  /** The walk never comes back to a port it has locked. */
  lemma NeverLockedTwice<T>(n: Net<T>)
    requires Inv(n) && Enabled(n, Advance)
    ensures !Locked(n, Ahead(n))
  {
    var trail := n.walk.trail;
    if Ahead(n) in trail {
      var i :| 0 <= i < |trail| && trail[i] == Ahead(n);
      ChainLeads(n.links, n.walk.dest, trail, i, |trail| - 1);
      assert Leads(n.links, Last(n), Ahead(n), 1);
      LeadsOn(n.links, trail[i], Last(n), trail[i], |trail| - 1 - i, 1);
    }
  }

  lemma NextInv<T>(n: Net<T>, m: Move<T>)
    requires Inv(n) && Enabled(n, m)
    ensures Inv(Next(n, m))
  {
    match m
    case Quick(p, d) => QuickSafe(n.links, p, d);
    case Begin(p, d) =>
    case Advance =>
    case Finish => FinishExact(n);
    case Leave(p) => UnlinkKeeps(n.links, {p});
  }

  ghost predicate Runs<T(!new)>(n: Net<T>, moves: seq<Move<T>>, n': Net<T>)
    decreases |moves|
  {
    if moves == [] then n' == n else Enabled(n, moves[0]) && Runs(Next(n, moves[0]), moves[1..], n')
  }

  /** However the threads are interleaved, no port is ever in transit to itself. */
  lemma {:induction false} NeverCyclicAmong<T(!new)>(n: Net<T>, moves: seq<Move<T>>, n': Net<T>)
    requires Inv(n) && Runs(n, moves, n')
    ensures Inv(n') && Acyclic(n'.links)
    decreases |moves|
  {
    if moves != [] {
      NextInv(n, moves[0]);
      NeverCyclicAmong(Next(n, moves[0]), moves[1..], n');
    }
  }

  /** The walk itself is never stuck: it can always go on, and only as often as there are ports in transit. */
  lemma WalkBounded<T>(n: Net<T>)
    requires Inv(n) && n.walk.Walking?
    ensures Enabled(n, Advance) || Enabled(n, Finish)
    ensures |n.walk.trail| <= |n.links| + 1
  {
    var trail := n.walk.trail;
    if trail != [] {
      TrailInLinks(n.links, n.walk.dest, trail, |trail| - 1);
    }
  }

  /** All but the last of the locked ports are different ports in transit. */
  lemma {:induction false} TrailInLinks<T>(links: map<T, T>, d: T, trail: seq<T>, i: nat)
    requires Acyclic(links) && Chained(links, d, trail) && i < |trail|
    ensures var s := set j | 0 <= j < i :: trail[j]; s <= links.Keys && |s| == i && i <= |links|
  {
    if i > 0 {
      TrailInLinks(links, d, trail, i - 1);
      var s, s' := set j | 0 <= j < i - 1 :: trail[j], set j | 0 <= j < i :: trail[j];
      assert s' == s + {trail[i - 1]};
      forall j | 0 <= j < i - 1
        ensures trail[j] != trail[i - 1]
      {
        ChainLeads(links, d, trail, j, i - 1);
      }
      assert |s'| == i;
    }
    var s := set j | 0 <= j < i :: trail[j];
    assert s <= links.Keys;
    FitsIn(s, links.Keys);
    assert |links.Keys| == |links|;
  }

  lemma FitsIn<T>(a: set<T>, b: set<T>)
    requires a <= b
    ensures |a| <= |b|
  {
    assert b == a + (b - a);
  }
}
