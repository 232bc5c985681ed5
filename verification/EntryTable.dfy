/** The in-place half of a capability space: is_table, its free list and collision bits, and the cached counters. */
module EntryTables {
  import opened MachPort
  import opened SpaceView
  import opened SpaceGrow

  class EntryTable {
    var slots: array<Slot>    // is_table; its length is is_table_size
    var next: nat             // is_table_next->its_size
    var total: nat            // is_tree_total
    var small: nat            // is_tree_small
    ghost var view: Consistent

    /** The fields are those of v. */
    ghost predicate Is(v: View)
      reads this, slots
    {
      slots[..] == v.slots && next == v.next && total == v.total && small == v.small
    }

    ghost predicate Valid()
      reads this, slots
    {
      Is(view)
    }

    /** ipc_space_create */
    constructor (size: nat, next: nat)
      requires 0 < size <= next < INDICES
      ensures Valid() && view == Created(size, next) && fresh(slots)
    {
      CreatedInv(size, next);
      view := Created(size, next);
      slots := new Slot[size](i => Slot(GENERATIONS - 1, false, NO_RIGHT, i + 1));
      this.next, total, small := next, 0, 0;
      new;
      slots[size - 1] := slots[size - 1].(next := 0);
    }

    /** ipc_entry_get: a fresh name for a held slot, or nothing if the free list is empty. */
    method Get() returns (ok: bool, name: Name)
      requires Valid()
      modifies slots, `view
      ensures Valid() && ok == (old(view).free != [])
      ensures !ok ==> view == old(view)
      ensures old(view).slots != [] && (ok ==> old(view).free[0] < |old(view).slots| <= INDICES)
      ensures ok ==> view == Got(old(view)) && name == Issued(old(view))
    {
      SpaceView.Look(view);
      FirstOfFree(view);
      ok, name := slots[0].next != 0, NULL;
      if ok {
        GotInv(view);
        var i := PopFree(slots);
        view := Got(view);
        name := Make(i, slots[i].gen);
      }
    }

    /** ipc_entry_alloc_name, third case: rips the unused slot i out of the free list. */
    method Take(i: nat, gen: nat) returns (ghost k: nat)
      requires Valid() && 0 < i < |view.slots| && !view.Used(i) && gen < GENERATIONS
      modifies slots, `view
      ensures k < |old(view).free| && old(view).free[k] == i && (k > 0 ==> old(view).free[k - 1] < |old(view).slots|)
      ensures Valid() && view == TookSlot(old(view), k, gen) && SameRights(old(view), view)
    {
      SpaceView.Look(view);
      assert i in view.free;
      k := Unlink(slots, i, gen, view.free);
      TookSlotInv(view, k, gen);
      view := TookSlot(view, k, gen);
    }

    /** A slot given up without collisions goes back to the head of the free list. */
    method Free(i: nat)
      requires Valid() && i in view.held && i < |view.slots| && !view.slots[i].collision
      modifies slots, `view
      ensures Valid() && view == FreedSlot(old(view), i) && SameRights(old(view), view)
    {
      SpaceView.Look(view);
      FreedSlotInv(view, i);
      slots[i] := slots[i].(right := NO_RIGHT, next := slots[0].next);
      slots[0] := slots[0].(next := i);
      view := FreedSlot(view, i);
    }

    /** The tree entry n moves into its given-up slot. */
    method Migrate(n: Name, r: Right, more: bool)
      requires Valid() && n in view.tree && Index(n) in view.held && Index(n) < |view.slots|
      requires r == view.tree[n] && r.kind != None && more == HasIndex(view.tree.Keys - {n}, Index(n))
      modifies slots, `view, `total
      ensures Valid() && view == Migrated(old(view), n) && SameRights(old(view), view)
    {
      SpaceView.Look(view);
      assert n in view.tree.Keys;
      MigratedInv(view, n);
      var i := Index(n);
      slots[i] := slots[i].(gen := Gen(n), right := r, collision := more);
      total := total - 1;
      view := Migrated(view, n);
    }

    /** The counters and collision bit for a new tree entry n, before it is inserted. */
    method Plant(n: Name, collides: bool)
      requires Valid() && n !in view.tree && IsValid(n)
      requires 0 < Index(n) < |view.slots| ==> view.Used(Index(n)) && view.slots[Index(n)].gen != Gen(n)
      requires |view.slots| <= Index(n) < view.next ==> collides == HasIndex(view.tree.Keys, Index(n))
      modifies slots, this
      ensures Valid() && view == Planted(old(view), n) && SameRights(old(view), view) && slots == old(slots)
    {
      SpaceView.Look(view);
      PlantedInv(view, n);
      ghost var w := Planted(view, n);
      if Index(n) < slots.Length {
        slots[Index(n)] := slots[Index(n)].(collision := true);
      } else if Index(n) < next && !collides {
        small := small + 1;
      }
      assert slots[..] == w.slots;
      total := total + 1;
      view := w;
    }

    /** The counters and collision bit for a tree entry n, after it is deleted. */
    method Uproot(n: Name, collides: bool)
      requires Valid() && n in view.heldTree
      requires Index(n) < view.next ==> collides == HasIndex(view.tree.Keys - {n}, Index(n))
      modifies slots, this
      ensures Valid() && view == Uprooted(old(view), n) && SameRights(old(view), view) && slots == old(slots)
    {
      UprootedFacts(view, n);
      ghost var w := Uprooted(view, n);
      if Index(n) < slots.Length {
        if !collides {
          slots[Index(n)] := slots[Index(n)].(collision := false);
        }
      } else if Index(n) < next && !collides {
        small := small - 1;
      }
      assert slots[..] == w.slots;
      total := total - 1;
      view := w;
    }

    /** A larger table with the old entries and a zeroed new part; the entries' consistency is not yet restored. */
    method Extend(nnext: nat)
      requires Valid() && |view.slots| <= next <= nnext
      modifies `slots, `next
      ensures fresh(slots) && Is(Extended(view, old(next), nnext))
    {
      var table := new Slot[next](i requires 0 <= i < next reads this, slots =>
        if i < slots.Length then slots[i] else BLANK);
      slots, next := table, nnext;
    }

    /** A right is written into an allocated slot. */
    method SetSlot(i: nat, r: Right)
      requires Valid() && 0 < i < |view.slots| && view.Used(i) && Storable(r)
      modifies slots, `view
      ensures Valid() && view == SlotSet(old(view), i, r) && |old(view).slots| <= INDICES && old(view).slots[i].gen < GENERATIONS
      ensures RightSet(old(view), view, Make(i, old(view).slots[i].gen), r)
    {
      SpaceView.Look(view);
      SlotSetInv(view, i, r);
      slots[i] := slots[i].(right := r);
      view := SlotSet(view, i, r);
    }

    /** A right is written into the tree entry n. */
    method SetTree(n: Name, r: Right)
      requires Valid() && n in view.tree && Storable(r)
      modifies `view
      ensures Valid() && view == TreeSet(old(view), n, r) && RightSet(old(view), view, n, r)
    {
      SpaceView.Look(view);
      TreeSetInv(view, n, r);
      view := TreeSet(view, n, r);
    }
  }

  lemma UprootedFacts(v: Consistent, n: Name)
    requires n in v.heldTree
    ensures v.total > 0 && (CountsSmall(v, n) && !HasIndex(v.tree.Keys - {n}, Index(n)) ==> v.small > 0)
    ensures Sound(Uprooted(v, n)) && SameRights(v, Uprooted(v, n)) && |v.slots| <= v.next
    ensures Index(n) < |v.slots| ==> v.slots[Index(n)].(collision := true) == v.slots[Index(n)]
  {
    SpaceView.Look(v);
    UprootedInv(v, n);
    assert HasIndex(v.tree.Keys, Index(n));
  }

  method PopFree(slots: array<Slot>) returns (i: nat)
    requires slots.Length > 0 && 0 < slots[0].next < slots.Length
    modifies slots
    ensures i == old(slots[0].next) && slots[..] == Popped(old(slots[..]))
  {
    i := slots[0].next;
    slots[0] := slots[0].(next := slots[i].next);
    slots[i] := Taken(slots[i], (slots[i].gen + 1) % GENERATIONS);
  }

  /** Finds i along the free list and unlinks it. */
  method Unlink(slots: array<Slot>, i: nat, gen: nat, ghost free: seq<nat>) returns (ghost k: nat)
    requires Chain(slots[..], free) && i in free
    modifies slots
    ensures k < |free| && free[k] == i && slots[..] == Unlinked(old(slots[..]), free, k, Taken(old(slots[..])[i], gen))
  {
    var prev, at := 0, slots[0].next;
    k := 0;
    while at != i
      invariant k < |free| && at == free[k] && i in free[k..]
      invariant prev == if k == 0 then 0 else free[k - 1]
      decreases |free| - k
    {
      assert slots[..][free[k]].next == At(free, k + 1);
      prev, at, k := at, slots[at].next, k + 1;
    }
    slots[prev] := slots[prev].(next := slots[at].next);
    slots[i] := Taken(slots[i], gen);
  }
}
