/**
 The queues of kernel messages and of threads: circular, doubly linked, and reached through their first element.
 Elsewhere in this project they are sequences.
 */
module LinkedQueues {
  /** A kmsg or a thread, as its queue sees it. */
  class Link {
    var next: Link?
    var prev: Link?
  }

  function After(i: nat, n: nat): nat {
    if i + 1 == n then 0 else i + 1
  }

  /** The links run round the items, both ways, and no item is there twice. */
  ghost predicate Ring(items: seq<Link>)
    reads items
  {
    && (forall i, j :: 0 <= i < j < |items| ==> items[i] != items[j])
    && (forall i :: 0 <= i < |items| ==> items[i].next == items[After(i, |items|)])
    && (forall i :: 0 <= i < |items| ==> items[After(i, |items|)].prev == items[i])
  }

  ghost function Without(items: seq<Link>, i: nat): (rest: seq<Link>)
    requires i < |items|
    ensures |rest| == |items| - 1 && forall j :: 0 <= j < |rest| ==> rest[j] == items[if j < i then j else j + 1]
  {
    items[..i] + items[i + 1..]
  }

  class LinkedQueue {
    var base: Link?
    ghost var items: seq<Link>

    ghost predicate Valid()
      reads this, items
    {
      base == (if items == [] then null else items[0]) && Ring(items)
    }

    constructor ()
      ensures Valid() && items == []
    {
      base, items := null, [];
    }

    /** ipc_kmsg_enqueue_macro and ipc_thread_enqueue_macro */
    method Enqueue(k: Link)
      requires Valid() && k !in items
      modifies this, items, k
      ensures Valid() && items == old(items) + [k]
    {
      if base == null {
        base, k.next, k.prev := k, k, k;
      } else {
        var first := base;
        assert After(|items| - 1, |items|) == 0;
        var last := first.prev;
        assert last == items[|items| - 1];
        k.next := first;
        k.prev := last;
        first.prev := k;
        last.next := k;
      }
      items := items + [k];
    }

    /** ipc_thread_rmqueue, and ipc_kmsg_rmqueue but for the links of what is removed. */
    method Rmqueue(k: Link, ghost i: nat)
      requires Valid() && i < |items| && items[i] == k
      modifies this, items
      ensures Valid() && items == Without(old(items), i) && k.next == k && k.prev == k
    {
      var next := k.next;
      assert next == items[After(i, |items|)];
      if next == k {
        base := null;
      } else {
        if base == k {
          base := next;
        }
        Bridge(k, items, i);
        BridgedRing(items, i);
      }
      items := Without(items, i);
    }

    /** ipc_kmsg_dequeue and ipc_thread_dequeue */
    method Dequeue() returns (first: Link?)
      requires Valid()
      modifies this, items
      ensures Valid() && (first == null <==> old(items) == [])
      ensures first != null ==> [first] + items == old(items)
    {
      first := base;
      if first != null {
        Rmqueue(first, 0);
      }
    }

    /** ipc_kmsg_queue_next */
    method Next(k: Link, ghost i: nat) returns (next: Link?)
      requires Valid() && i < |items| && items[i] == k
      ensures next == if i + 1 < |items| then items[i + 1] else null
    {
      next := k.next;
      if base == next {
        next := null;
      }
    }
  }

  /** Whom item j points at once item i is passed over. */
  function Skip(j: nat, i: nat, n: nat): nat {
    if After(j, n) == i then After(i, n) else After(j, n)
  }

  /** Item i is passed over by its neighbours. */
  ghost predicate Bridged(items: seq<Link>, i: nat)
    requires i < |items|
    reads items
  {
    && (forall i, j :: 0 <= i < j < |items| ==> items[i] != items[j])
    && (forall j :: 0 <= j < |items| && j != i ==> items[j].next == items[Skip(j, i, |items|)])
    && (forall j :: 0 <= j < |items| && j != i ==> items[Skip(j, i, |items|)].prev == items[j])
  }

  /** The others are then a ring. */
  lemma BridgedRing(items: seq<Link>, i: nat)
    requires i < |items| && |items| > 1 && Bridged(items, i)
    ensures Ring(Without(items, i))
  {
    var n, rest := |items|, Without(items, i);
    forall j | 0 <= j < |rest|
      ensures rest[j].next == rest[After(j, n - 1)] && rest[After(j, n - 1)].prev == rest[j]
    {
      var o := if j < i then j else j + 1;
      assert rest[j] == items[o] && rest[After(j, n - 1)] == items[Skip(o, i, n)];
    }
  }

  /** Takes item i out of the links. */
  method Bridge(k: Link, ghost items: seq<Link>, ghost i: nat)
    requires Ring(items) && i < |items| && |items| > 1 && items[i] == k
    modifies items
    ensures Bridged(items, i) && k.next == k && k.prev == k
  {
    ghost var n := |items|;
    ghost var before := if i == 0 then n - 1 else i - 1;
    var next, prev := k.next, k.prev;
    assert next == items[After(i, n)] && After(before, n) == i && prev == items[before];
    next.prev := prev;
    prev.next := next;
    forall j | 0 <= j < n && j != i
      ensures items[j].next == items[Skip(j, i, n)] && items[Skip(j, i, n)].prev == items[j]
      ensures items[j] != k && items[Skip(j, i, n)] != k
    {
      assert items[j] == items[before] <==> j == before;
      assert items[Skip(j, i, n)] == next <==> Skip(j, i, n) == After(i, n);
    }
    k.next, k.prev := k, k;
  }
}
