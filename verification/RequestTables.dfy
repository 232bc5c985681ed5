/** A port's table of dead-name requests: ipc_port_dnrequest, dngrow, dncancel and dnrename of ipc/ipc_port.c. */
module RequestTables {
  import opened MachPort

  /** An ipc_port_request: the word is the registered send-once right, or, without a name, the next free slot. */
  datatype Ipr = Ipr(name: Name, word: nat)

  /** What is registered in a slot. */
  datatype Asked = Asked(name: Name, soright: Object)

  function At(free: seq<nat>, k: nat): nat {
    if k < |free| then free[k] else 0
  }

  /** The words from slot 0 on run through the slots of free, each without a name and there once. */
  ghost predicate Chained(s: seq<Ipr>, free: seq<nat>) {
    && |s| > 0 && s[0].word == At(free, 0)
    && (forall k {:trigger free[k]} :: 0 <= k < |free| ==> 0 < free[k] < |s| && s[free[k]] == Ipr(NULL, At(free, k + 1)))
    && (forall j, k :: 0 <= j < k < |free| ==> free[j] != free[k])
  }

  /** Every slot without a name is in the list. */
  ghost predicate Exact(s: seq<Ipr>, free: seq<nat>) {
    forall i :: 0 < i < |s| && s[i].name == NULL ==> i in free
  }

  ghost predicate Threaded(s: seq<Ipr>, free: seq<nat>) {
    Chained(s, free) && Exact(s, free)
  }

  /** The requests of a table, by slot. */
  ghost function Registered(s: seq<Ipr>): map<nat, Asked> {
    map i | 0 < i < |s| && s[i].name != NULL :: Asked(s[i].name, s[i].word)
  }

  /** The first slot i of the list is taken off it and filled. */
  ghost function Popped(s: seq<Ipr>, i: nat, x: Ipr): seq<Ipr>
    requires 0 < i < |s|
  {
    s[0 := s[0].(word := s[i].word)][i := x]
  }

  lemma RestAt(free: seq<nat>, k: nat)
    requires free != []
    ensures At(free[1..], k) == At(free, k + 1)
  {
  }

  lemma PopLink(s: seq<Ipr>, free: seq<nat>, x: Ipr, k: nat)
    requires Chained(s, free) && k + 1 < |free|
    ensures var n := free[k + 1]; 0 < n < |s| && n != free[0] && 0 < free[0] < |s| && Popped(s, free[0], x)[n] == Ipr(NULL, At(free, k + 2))
  {
    assert s[free[k + 1]] == Ipr(NULL, At(free, k + 2));
  }

  lemma PopChained(s: seq<Ipr>, free: seq<nat>, x: Ipr)
    requires Chained(s, free) && free != []
    ensures Chained(Popped(s, free[0], x), free[1..])
  {
    var s', rest := Popped(s, free[0], x), free[1..];
    RestAt(free, 0);
    forall k | 0 <= k < |rest|
      ensures 0 < rest[k] < |s| && s'[rest[k]] == Ipr(NULL, At(rest, k + 1))
    {
      PopLink(s, free, x, k);
      RestAt(free, k + 1);
    }
    forall j, k | 0 <= j < k < |rest|
      ensures rest[j] != rest[k]
    {
      assert rest[j] == free[j + 1] && rest[k] == free[k + 1];
    }
  }

  lemma PopExact(s: seq<Ipr>, free: seq<nat>, x: Ipr)
    requires Exact(s, free) && free != [] && x.name != NULL && 0 < free[0] < |s|
    ensures Exact(Popped(s, free[0], x), free[1..]) && Registered(Popped(s, free[0], x)) == Registered(s)[free[0] := Asked(x.name, x.word)]
  {
    forall i | 0 < i < |s| && Popped(s, free[0], x)[i].name == NULL
      ensures i in free[1..]
    {
      var k :| 0 <= k < |free| && free[k] == i;
      assert free[1..][k - 1] == i;
    }
  }

  /** A slot with a name is put in front of the list. */
  ghost function Pushed(s: seq<Ipr>, i: nat): seq<Ipr>
    requires 0 < i < |s|
  {
    s[i := Ipr(NULL, s[0].word)][0 := s[0].(word := i)]
  }

  lemma PushChained(s: seq<Ipr>, free: seq<nat>, i: nat)
    requires Chained(s, free) && 0 < i < |s| && s[i].name != NULL
    ensures Chained(Pushed(s, i), [i] + free)
  {
    var more, s' := [i] + free, Pushed(s, i);
    assert free == more[1..];
    forall k | 0 <= k < |more|
      ensures 0 < more[k] < |s| && s'[more[k]] == Ipr(NULL, At(more, k + 1))
    {
      RestAt(more, k);
      if k > 0 {
        PushLink(s, free, i, k - 1);
      }
    }
    forall j, k | 0 <= j < k < |more|
      ensures more[j] != more[k]
    {
      PushLink(s, free, i, k - 1);
    }
  }

  lemma PushLink(s: seq<Ipr>, free: seq<nat>, i: nat, k: nat)
    requires Chained(s, free) && 0 < i < |s| && s[i].name != NULL && k < |free|
    ensures 0 < free[k] < |s| && free[k] != i && Pushed(s, i)[free[k]] == Ipr(NULL, At(free, k + 1))
    ensures forall j :: 0 <= j < k ==> free[j] != free[k]
  {
    assert s[free[k]] == Ipr(NULL, At(free, k + 1));
  }

  lemma PushExact(s: seq<Ipr>, free: seq<nat>, i: nat)
    requires Exact(s, free) && 0 < i < |s|
    ensures Exact(Pushed(s, i), [i] + free) && Registered(Pushed(s, i)) == Registered(s) - {i}
  {
    forall j | 0 < j < |s| && Pushed(s, i)[j].name == NULL
      ensures j in [i] + free
    {
      assert j != i ==> j in free;
    }
  }

  /** The slots n-1, n-2, ... from to, in that order: what the growth loop threads. */
  ghost function Down(from: nat, n: nat): (d: seq<nat>)
    requires from <= n
    ensures |d| == n - from && forall k :: 0 <= k < |d| ==> d[k] == n - 1 - k
  {
    seq(n - from, (k: nat) => if k < n then n - 1 - k else 0)
  }

  lemma Replaced<K, V>(m: map<K, V>, k: K, x: V)
    ensures (m - {k})[k := x] == m[k := x]
  {
  }

  class RequestTable {
    var table: array?<Ipr>              // ip_dnrequests; its length is its_size
    ghost var free: seq<nat>
    ghost var requests: map<nat, Asked>

    ghost predicate Valid()
      reads this, table
    {
      if table == null then free == [] && requests == map[]
      else Threaded(table[..], free) && requests == Registered(table[..])
    }

    constructor ()
      ensures Valid() && requests == map[] && table == null
    {
      table, free, requests := null, [], map[];
    }

    /** ipc_port_dnrequest: a slot that was not in use, or none. */
    method Dnrequest(name: Name, soright: Object) returns (ok: bool, index: nat)
      requires Valid() && name != NULL
      modifies this, table
      ensures Valid() && table == old(table) && ok == (old(free) != [])
      ensures ok ==> free == old(free)[1..] && index == old(free)[0] != 0 && index !in old(requests) && requests == old(requests)[index := Asked(name, soright)]
      ensures !ok ==> requests == old(requests) && free == old(free)
    {
      if table == null {
        return false, 0;
      }
      index := table[0].word;
      if index == 0 {
        return false, 0;
      }
      PopChained(table[..], free, Ipr(name, soright));
      PopExact(table[..], free, Ipr(name, soright));
      table[0] := table[0].(word := table[index].word);
      table[index] := Ipr(name, soright);
      requests, free := requests[index := Asked(name, soright)], free[1..];
      return true, index;
    }

    /** ipc_port_dncancel: the registered right is given back, and the slot is the next to be used. */
    method Dncancel(name: Name, index: nat) returns (soright: Object)
      requires Valid() && index in requests && requests[index].name == name
      modifies this, table
      ensures Valid() && table == old(table) && soright == old(requests)[index].soright
      ensures requests == old(requests) - {index} && free == [index] + old(free)
    {
      PushChained(table[..], free, index);
      PushExact(table[..], free, index);
      soright := table[index].word;
      table[index] := Ipr(NULL, table[0].word);
      table[0] := table[0].(word := index);
      requests, free := requests - {index}, [index] + free;
    }

    /** The switch in ipc_right_dnrequest: a request that replaces another takes its slot, and never fails. */
    method Switch(name: Name, index: nat, soright: Object) returns (previous: Object)
      requires Valid() && index in requests && requests[index].name == name
      modifies this, table
      ensures Valid() && previous == old(requests)[index].soright && free == old(free)
      ensures requests == old(requests)[index := Asked(name, soright)]
    {
      ghost var was, list := requests, free;
      previous := Dncancel(name, index);
      var ok, again := Dnrequest(name, soright);
      assert ok && again == index && ([index] + list)[1..] == list;
      Replaced(was, index, Asked(name, soright));
    }

    /** ipc_port_dnrename */
    method Dnrename(index: nat, oname: Name, nname: Name)
      requires Valid() && index in requests && requests[index].name == oname && nname != NULL
      modifies this, table
      ensures Valid() && requests == old(requests)[index := old(requests)[index].(name := nname)] && free == old(free)
    {
      table[index] := table[index].(name := nname);
      requests := requests[index := requests[index].(name := nname)];
      assert requests == Registered(table[..]);
    }

    /** ipc_port_dngrow, once it has the memory: the requests keep their slots, and there is room. */
    method Dngrow(size: nat)
      requires Valid() && size > 1 && (table != null ==> size > table.Length)
      modifies this
      ensures Valid() && fresh(table) && table.Length == size && requests == old(requests)
      ensures free == Down(if old(table) == null then 1 else old(table.Length), size) + old(free) && free != []
    {
      var ntable, osize, head, was := Copied(size);
      Thread(ntable, osize, head, was, free);
      requests, free, table := requests, Down(osize, size) + free, ntable;
    }

    /** The new table with the old slots in it; a port without a table has one of slot 0 only. */
    method Copied(size: nat) returns (ntable: array<Ipr>, osize: nat, head: nat, ghost was: seq<Ipr>)
      requires Valid() && size > 1 && (table != null ==> size > table.Length)
      ensures fresh(ntable) && ntable.Length == size
      ensures osize == |was| == (if table == null then 1 else table.Length) && head == At(free, 0)
      ensures Threaded(was, free) && requests == Registered(was)
      ensures forall i :: 0 < i < osize ==> ntable[i] == was[i]
    {
      ntable := new Ipr[size](_ => Ipr(NULL, 0));
      osize, head, was := 1, 0, [Ipr(NULL, 0)];
      if table != null {
        osize, head, was := table.Length, table[0].word, table[..];
        forall i | 1 <= i < osize {
          ntable[i] := table[i];
        }
      }
    }

    /** The loop at the end of ipc_port_destroy: every request is answered once, with its own name. */
    method Fire() returns (told: seq<Asked>)
      requires Valid()
      ensures told == if table == null then [] else Answers(table[..], table.Length)
    {
      told := [];
      if table != null {
        for index := 1 to table.Length
          invariant told == Answers(table[..], index)
        {
          if table[index].name != NULL {
            told := told + [Asked(table[index].name, table[index].word)];
          }
        }
      }
    }
  }

  /** The slots below n with a request, in order, and what is answered for each. */
  ghost function Asking(s: seq<Ipr>, n: nat): seq<nat>
    requires n <= |s|
  {
    if n <= 1 then [] else Asking(s, n - 1) + if s[n - 1].name != NULL then [n - 1] else []
  }

  ghost function Answers(s: seq<Ipr>, n: nat): seq<Asked>
    requires n <= |s|
  {
    if n <= 1 then [] else Answers(s, n - 1) + if s[n - 1].name != NULL then [Asked(s[n - 1].name, s[n - 1].word)] else []
  }

  /** The slots are exactly those registered, each there once. */
  lemma {:induction false} AskingExact(s: seq<Ipr>, n: nat)
    requires n <= |s|
    ensures forall i :: i in Asking(s, n) <==> i in Registered(s) && i < n
    ensures forall j, k :: 0 <= j < k < |Asking(s, n)| ==> Asking(s, n)[j] < Asking(s, n)[k]
  {
    if n > 1 {
      AskingExact(s, n - 1);
      var less, more := Asking(s, n - 1), Asking(s, n);
      assert forall k :: 0 <= k < |less| ==> less[k] in less && more[k] == less[k];
    }
  }

  /** And each is answered with what is registered there. */
  lemma {:induction false} AnswersExact(s: seq<Ipr>, n: nat)
    requires n <= |s|
    ensures |Answers(s, n)| == |Asking(s, n)|
    ensures forall k :: 0 <= k < |Asking(s, n)| ==> Asking(s, n)[k] in Registered(s) && Answers(s, n)[k] == Registered(s)[Asking(s, n)[k]]
  {
    if n > 1 {
      AnswersExact(s, n - 1);
      var less, more := Asking(s, n - 1), Asking(s, n);
      assert forall k :: 0 <= k < |less| ==> more[k] == less[k];
    }
  }

  /** Threads the new slots in front of the free list. */
  method Thread(ntable: array<Ipr>, osize: nat, head: nat, ghost was: seq<Ipr>, ghost free: seq<nat>)
    requires 0 < osize == |was| < ntable.Length && Threaded(was, free) && head == At(free, 0)
    requires forall i :: 0 < i < osize ==> ntable[i] == was[i]
    modifies ntable
    ensures Threaded(ntable[..], Down(osize, ntable.Length) + free)
    ensures Registered(ntable[..]) == Registered(was)
  {
    Lengthen(ntable, osize, head, was, free);
    DownChained(ntable[..], was, free);
    DownExact(ntable[..], was, free);
  }

  method Lengthen(ntable: array<Ipr>, osize: nat, head: nat, ghost was: seq<Ipr>, ghost free: seq<nat>)
    requires 0 < osize == |was| < ntable.Length && head == At(free, 0)
    requires forall i :: 0 < i < osize ==> ntable[i] == was[i]
    modifies ntable
    ensures Lengthened(ntable[..], was, free)
  {
    var next, i := head, osize;
    while i < ntable.Length
      invariant osize <= i <= ntable.Length && next == if i == osize then head else i - 1
      invariant forall j :: 0 < j < osize ==> ntable[j] == was[j]
      invariant forall j :: osize <= j < i ==> ntable[j] == Ipr(NULL, if j == osize then head else j - 1)
    {
      ntable[i] := Ipr(NULL, next);
      next := i;
      i := i + 1;
    }
    ntable[0] := ntable[0].(word := next);
  }

  /** A table whose new part is threaded downwards in front of the old list. */
  ghost predicate Lengthened(s: seq<Ipr>, was: seq<Ipr>, free: seq<nat>) {
    && 0 < |was| < |s| && s[0].word == |s| - 1
    && (forall i :: 0 < i < |was| ==> s[i] == was[i])
    && (forall j :: |was| <= j < |s| ==> s[j] == Ipr(NULL, if j == |was| then At(free, 0) else j - 1))
  }

  lemma DownLink(s: seq<Ipr>, was: seq<Ipr>, free: seq<nat>, k: nat)
    requires Lengthened(s, was, free) && Chained(was, free) && k < |s| - |was| + |free|
    ensures var more := Down(|was|, |s|) + free; 0 < more[k] < |s| && s[more[k]] == Ipr(NULL, At(more, k + 1))
  {
    DownAt(|was|, |s|, free, k);
    DownAt(|was|, |s|, free, k + 1);
    if k >= |s| - |was| {
      assert free[k - (|s| - |was|)] < |was|;
    }
  }

  lemma DownAt(from: nat, n: nat, free: seq<nat>, k: nat)
    requires from <= n
    ensures At(Down(from, n) + free, k) == if k < n - from then n - 1 - k else At(free, k - (n - from))
  {
  }

  lemma DownApart(s: seq<Ipr>, was: seq<Ipr>, free: seq<nat>, j: nat, k: nat)
    requires |was| < |s| && Chained(was, free) && j < k < |s| - |was| + |free|
    ensures var more := Down(|was|, |s|) + free; more[j] != more[k]
  {
    var d := Down(|was|, |s|);
    var more := d + free;
    if k >= |d| {
      assert more[k] == free[k - |d|] < |was| && (j >= |d| ==> more[j] == free[j - |d|]);
    }
  }

  lemma DownChained(s: seq<Ipr>, was: seq<Ipr>, free: seq<nat>)
    requires Lengthened(s, was, free) && Chained(was, free)
    ensures Chained(s, Down(|was|, |s|) + free)
  {
    var more := Down(|was|, |s|) + free;
    forall k | 0 <= k < |more|
      ensures 0 < more[k] < |s| && s[more[k]] == Ipr(NULL, At(more, k + 1))
    {
      DownLink(s, was, free, k);
    }
    forall j, k | 0 <= j < k < |more|
      ensures more[j] != more[k]
    {
      DownApart(s, was, free, j, k);
    }
  }

  lemma DownExact(s: seq<Ipr>, was: seq<Ipr>, free: seq<nat>)
    requires Lengthened(s, was, free) && Exact(was, free)
    ensures Exact(s, Down(|was|, |s|) + free) && Registered(s) == Registered(was)
  {
    var d := Down(|was|, |s|);
    forall i | 0 < i < |s| && s[i].name == NULL
      ensures i in d + free
    {
      if i >= |was| {
        assert d[|s| - 1 - i] == i;
      } else {
        assert i in free;
      }
    }
  }
}
