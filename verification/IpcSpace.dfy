/** A whole capability space: the forward map of ipc/ipc_entry.c and its inverse of ipc/ipc_hash.c, kept together. */
module IpcSpaces {
  import opened MachPort
  import opened TableSizes
  import opened SpaceView
  import opened SpaceGrow
  import opened SplayShape
  import opened Spaces
  import opened GrowTables
  import opened GlobalHash
  import opened ReverseTable

  /** n names a send right, and nothing more, for the object. */
  ghost predicate Sends(v: View, n: Name, o: Object) {
    v.RightOf(n).kind == Send && v.RightOf(n).obj == o
  }

  /** Where the send rights are. */
  lemma SendPlaces(v: Consistent, n: Name, o: Object)
    ensures Sends(v, n, o) <==>
      || (Index(n) in SendSlots(v.slots) && v.slots[Index(n)].gen == Gen(n) && v.slots[Index(n)].right.obj == o)
      || (n in SendNames(v.tree) && SendNames(v.tree)[n] == o)
    ensures 0 !in SendSlots(v.slots) && 0 < |v.slots| <= INDICES && forall i :: 0 <= i < |v.slots| ==> v.slots[i].gen < GENERATIONS
  {
    SpaceView.Look(v);
  }

  /** Steps that touch no send right. */
  ghost predicate Quiet(v: View, w: View) {
    && |w.slots| == |v.slots| && (forall i :: 0 <= i < |v.slots| ==> w.slots[i].right == v.slots[i].right)
    && SendNames(w.tree) == SendNames(v.tree)
  }

  /** The requests for memory numbered from up to to were met, but for the last of them if that left the caller short. */
  ghost predicate Met(supply: nat -> bool, from: nat, to: nat, short: bool) {
    if short then from < to && AllMet(supply, from, to - 1) && !supply(to - 1) else from <= to && AllMet(supply, from, to)
  }

  ghost predicate AllMet(supply: nat -> bool, from: nat, to: nat) {
    from >= to || (supply(to - 1) && AllMet(supply, from, to - 1))
  }

  lemma {:induction false} MetEach(supply: nat -> bool, from: nat, to: nat)
    ensures AllMet(supply, from, to) <==> forall k :: from <= k < to ==> supply(k)
  {
    if from < to {
      MetEach(supply, from, to - 1);
    }
  }

  lemma MetNext(supply: nat -> bool, from: nat, to: nat, memory: bool)
    requires Met(supply, from, to, false) && memory == supply(to)
    ensures Met(supply, from, to + 1, !memory)
  {
  }

  lemma MetMore(supply: nat -> bool, from: nat, mid: nat, to: nat, short: bool)
    requires Met(supply, from, mid, false) && Met(supply, mid, to, short)
    ensures Met(supply, from, to, short)
  {
    MetEach(supply, from, mid);
    MetEach(supply, mid, to);
    MetEach(supply, from, to);
    if short {
      MetEach(supply, mid, to - 1);
      MetEach(supply, from, to - 1);
    }
  }

  /** A larger table would take less memory than the tree entries it replaces. */
  ghost predicate Saves(v: View) {
    v.small > 0 && (v.next - |v.slots|) * ENTRY_BYTES < v.small * TREE_ENTRY_BYTES
  }

  /** And so it would with the name n besides. */
  ghost predicate Crowded(v: View, n: Name) {
    |v.slots| <= Index(n) < v.next && (v.next - |v.slots|) * ENTRY_BYTES < (v.small + 1) * TREE_ENTRY_BYTES
  }

  /** Always true: an invariant stated to hold wherever this is mentioned is passed around whole elsewhere. */
  ghost predicate InsideIpc(s: IpcSpace, u: nat) {
    true
  }

  /** Always true, likewise for what growth has done so far. */
  ghost predicate InsideClimb(s: IpcSpace, u: nat) {
    true
  }

  class IpcSpace {
    const space: Space
    const reverse: Reverse

    ghost function View(): Consistent
      reads space.table
    {
      space.table.view
    }

    /** The tables of the inverse hold exactly the send rights of v. */
    ghost predicate Inverts(v: View)
      reads reverse, reverse.local, reverse.global.buckets
    {
      reverse.Is(v.slots, SendSlots(v.slots), SendNames(v.tree))
    }

    ghost predicate Intact()
      reads Parts()
    {
      space.Valid() && Inverts(View())
    }

    /** Intact, passed around whole. */
    ghost predicate Valid()
      reads Parts()
    {
      forall u: nat {:trigger InsideIpc(this, u)} :: InsideIpc(this, u) ==> Intact()
    }

    lemma Look()
      requires Valid()
      ensures Intact()
    {
      assert InsideIpc(this, 0);
    }

    lemma Fields()
      requires Valid()
      ensures space.table.Valid() && space.Leveled()
    {
      Look();
      space.Fields();
    }

    ghost function Parts(): set<object>
      reads space.table, space.tree.tree, reverse
    {
      {space, space.table, space.table.slots, space.tree, space.tree.tree, reverse, reverse.local, reverse.global.buckets} + Elems(space.tree.tree.entries)
    }

    /** ipc_space_create */
    constructor (sizes: seq<nat>, initial: nat, global: GlobalTable, id: nat, hash: Object -> nat)
      requires Filled(sizes) && initial < |sizes| - 1 && GlobalIs(global, id, map[])
      ensures Valid() && View() == Created(sizes[initial], sizes[initial + 1])
      ensures forall n: Name :: View().RightOf(n) == NO_RIGHT
    {
      space := new Space(sizes, initial);
      reverse := new Reverse(sizes[initial], global, id, hash, Created(sizes[initial], sizes[initial + 1]).slots);
      CreatedInv(sizes[initial], sizes[initial + 1]);
      assert SendSlots(Created(sizes[initial], sizes[initial + 1]).slots) == {};
      assert SendNames(map[]) == map[];
    }

    lemma QuietInverts(v: View, w: View)
      requires Inverts(v) && Quiet(v, w)
      ensures Inverts(w)
    {
      assert SendSlots(w.slots) == SendSlots(v.slots);
      reverse.Frame(v.slots, w.slots, SendSlots(v.slots), SendNames(v.tree));
    }

    /** ipc_hash_lookup: a name whose right is exactly a send right for the object, if there is one. */
    method ReverseLookup(o: Object) returns (found: bool, name: Name)
      requires Valid()
      modifies reverse.global.buckets
      ensures Valid()
      ensures found ==> Sends(View(), name, o)
      ensures !found ==> forall n: Name :: !Sends(View(), n, o)
    {
      Look();
      ghost var v := View();
      space.Fields();
      SendPlaces(v, NULL, o);
      found, name := reverse.Lookup(space.table.slots[..], o, SendSlots(v.slots), SendNames(v.tree));
      forall n: Name
        ensures found && n == name ==> Sends(v, n, o)
        ensures !found ==> !Sends(v, n, o)
      {
        SendPlaces(v, n, o);
      }
    }

    /** The entry r is the one of the name n: allocated under it, or looked up by it. */
    ghost predicate IsEntry(n: Name, r: Ref)
      reads space.table, space.tree.tree
    {
      && (HeldAt(View(), n, PlaceOf(r)) || (r != NoEntry && n != HIDDEN && PlaceOf(r) == Looked(View(), n)))
      && (r.TreeRef? ==> r.entry in space.tree.tree.entries)
    }

    /** ipc_entry_lookup: exact for every name but the hidden one. */
    method Lookup(n: Name) returns (r: Ref)
      requires Valid() && n !in View().heldTree
      modifies Parts()
      ensures Valid() && View() == old(View()) && space.tree.tree.entries == old(space.tree.tree.entries)
      ensures space.level == old(space.level) && Parts() == old(Parts())
      ensures r == NoEntry <==> n == HIDDEN || View().RightOf(n).kind == None
      ensures r != NoEntry ==> IsEntry(n, r)
    {
      Look();
      r := space.Lookup(n);
      Found(View(), n);
    }

    /** A table slot is given a right, with its place in the inverse. */
    method StoreSlot(n: Name, i: nat, right: Right)
      requires Valid() && Storable(right) && IsEntry(n, TableEntry(i))
      modifies space.table.slots, space.table`view, space.tree, reverse.local
      ensures Valid() && RightSet(old(View()), View(), n, right) && View() == SlotSet(old(View()), i, right)
    {
      Look();
      ghost var v := View();
      space.Fields();
      EntryFacts(v, n, InTable(i));
      reverse.DropLocal(space.table.slots[..], i, SendSlots(v.slots), SendNames(v.tree));
      WriteSlot(n, i, right);
    }

    /** A right is written into a table entry that is not in the inverse, and hashed if it is a send right. */
    method WriteSlot(n: Name, i: nat, right: Right)
      requires space.Valid() && reverse.Is(View().slots, SendSlots(View().slots) - {i}, SendNames(View().tree))
      requires Storable(right) && IsEntry(n, TableEntry(i))
      modifies space.table.slots, space.table`view, space.tree, reverse.local
      ensures Valid() && RightSet(old(View()), View(), n, right) && View() == SlotSet(old(View()), i, right)
    {
      ghost var v := View();
      space.Fields();
      EntryFacts(v, n, InTable(i));
      SlotSends(v, i, right);
      reverse.Frame(v.slots, SlotSet(v, i, right).slots, SendSlots(v.slots) - {i}, SendNames(v.tree));
      space.SetRight(n, TableEntry(i), right);
      space.Fields();
      reverse.AddLocal(space.table.slots[..], i, SendSlots(v.slots) - {i}, SendNames(v.tree));
    }

    /** A tree entry is given a right, with its place in the inverse. */
    method StoreTree(n: Name, e: TreeEntry, right: Right)
      requires Valid() && Storable(right) && IsEntry(n, TreeRef(e))
      modifies space.table.slots, space.table`view, space.tree, e, reverse`treeHash, reverse.global.buckets
      ensures Valid() && RightSet(old(View()), View(), n, right) && View() == TreeSet(old(View()), n, right)
    {
      Look();
      ghost var v := View();
      EntryFacts(v, n, InTree(n));
      space.Holding(e);
      var was := e.right;
      TreeSends(v, n, right);
      space.SetRight(n, TreeRef(e), right);
      HashTree(n, was, right, v);
    }

    /** The hash calls for a right that has been written into a tree entry. */
    method HashTree(n: Name, was: Right, right: Right, ghost v: Consistent)
      requires space.Valid() && Inverts(v) && n in v.tree && v.tree[n] == was && View() == TreeSet(v, n, right)
      requires SendNames(v.tree[n := right]) == if right.kind == Send then (SendNames(v.tree) - {n})[n := right.obj] else SendNames(v.tree) - {n}
      modifies reverse`treeHash, reverse.global.buckets
      ensures Valid() && View() == old(View())
    {
      reverse.ChangeGlobal(n, was, right, v.slots, SendSlots(v.slots), SendNames(v.tree));
      assert Inverts(View());
    }

    /** ipc_entry_dealloc of a table slot: it takes over a tree entry that collides with it, or goes to the free list. */
    method DeallocSlot(n: Name, i: nat)
      requires Valid() && HeldAt(View(), n, InTable(i)) && View().heldTree == {}
      modifies Parts()
      ensures Valid() && SameRights(old(View()), View())
      ensures View().held == old(View().held) - {i} && View().heldTree == {}
      ensures space.level == old(space.level) && fresh(Parts() - old(Parts()))
    {
      Look();
      ghost var v := View();
      space.Fields();
      HeldFacts(v, i);
      if space.table.slots[i].collision {
        TakeOver(i);
      } else {
        space.FreeSlot(i);
        QuietInverts(v, View());
      }
    }

    /** A tree entry that collides with the slot moves into it, and its hash entry with it. */
    method TakeOver(i: nat)
      requires Valid() && i in View().held && View().heldTree == {} && i < |View().slots| && View().slots[i].collision
      modifies Parts()
      ensures Valid() && SameRights(old(View()), View())
      ensures View().held == old(View().held) - {i} && View().heldTree == {}
      ensures space.level == old(space.level) && fresh(Parts() - old(Parts()))
    {
      Look();
      ghost var v := View();
      space.Fields();
      HeldFacts(v, i);
      var m := space.Migrate(i);
      space.Fields();
      MigratedSends(v, m);
      reverse.Frame(v.slots, View().slots, SendSlots(v.slots), SendNames(v.tree));
      if space.table.slots[i].right.kind == Send {
        reverse.MoveHash(space.table.slots[..], m, SendSlots(v.slots), SendNames(v.tree));
      }
      assert Inverts(View());
    }

    /** ipc_entry_dealloc of a tree entry. */
    method DeallocTree(n: Name, e: TreeEntry)
      requires Valid() && IsEntry(n, TreeRef(e)) && n in View().heldTree
      modifies Parts()
      ensures Valid() && SameRights(old(View()), View())
      ensures View().held == old(View().held) && View().heldTree == old(View().heldTree) - {n}
      ensures space.level == old(space.level) && fresh(Parts() - old(Parts()))
    {
      Look();
      ghost var v := View();
      space.DeallocTree(n, e);
      UprootedQuiet(v, n);
      QuietInverts(v, View());
    }

    /** ipc_entry_grow_table, once it has the memory: entries that move into the table change hash tables. */
    method Expand()
      requires Valid() && View().held == {} && View().heldTree == {} && space.level < |space.sizes| - 1
      modifies Parts()
      ensures Valid() && SameRights(old(View()), View()) && View().held == {} && View().heldTree == {}
      ensures space.level == old(space.level) + 1 && fresh(Parts() - old(Parts()))
    {
      Look();
      ghost var v := View();
      space.Fields();
      var osize := space.table.slots.Length;
      var gone, _ := space.GrowOnce();
      ghost var w := View();
      space.Fields();
      SameTree(v, w, gone);
      GoneMovable(v, w, gone);
      reverse.RehashOld(space.table.slots[..], osize, v.slots, SendSlots(v.slots), SendNames(v.tree));
      reverse.RehashMoved(space.table.slots[..], gone, SendSlots(w.slots[..osize]), SendNames(v.tree));
      GoneSends(v, w, gone);
    }

    /** As a space is whenever its lock is free: nothing is allocated without a right. */
    ghost predicate Calm()
      reads Parts()
    {
      Valid() && View().held == {} && View().heldTree == {}
    }

    /** A right is written into the entry of a name; without a right the entry is given back. */
    method Rewrite(n: Name, right: Right) returns (found: bool)
      requires Calm() && Storable(right)
      modifies Parts()
      ensures Calm() && space.level == old(space.level) && fresh(Parts() - old(Parts()))
      ensures found <==> n != HIDDEN && old(View()).RightOf(n).kind != None
      ensures if found then RightSet(old(View()), View(), n, right) else View() == old(View())
    {
      var r := Lookup(n);
      found := r != NoEntry;
      match r
      case NoEntry =>
      case TableEntry(i) => RewriteSlot(n, i, right);
      case TreeRef(e) => RewriteTree(n, e, right);
    }

    method RewriteSlot(n: Name, i: nat, right: Right)
      requires Valid() && View().held <= {i} && View().heldTree == {} && Storable(right) && IsEntry(n, TableEntry(i))
      modifies Parts()
      ensures Calm() && space.level == old(space.level) && fresh(Parts() - old(Parts()))
      ensures RightSet(old(View()), View(), n, right)
      ensures right.kind != None ==> View() == SlotSet(old(View()), i, right) && space.tree.tree.entries == old(space.tree.tree.entries)
    {
      EntryFacts(View(), n, InTable(i));
      StoreSlot(n, i, right);
      if right.kind == None {
        ghost var v := View();
        StoredHeld(old(View()), n, i);
        DeallocSlot(n, i);
        assert SameRights(v, View());
      }
    }

    method RewriteTree(n: Name, e: TreeEntry, right: Right)
      requires Valid() && View().held == {} && View().heldTree <= {n} && Storable(right) && IsEntry(n, TreeRef(e))
      modifies Parts()
      ensures Calm() && space.level == old(space.level) && fresh(Parts() - old(Parts()))
      ensures RightSet(old(View()), View(), n, right)
      ensures right.kind != None ==> View() == TreeSet(old(View()), n, right) && space.tree.tree.entries == old(space.tree.tree.entries)
    {
      assert e in Elems(space.tree.tree.entries);
      StoreTree(n, e, right);
      if right.kind == None {
        ghost var v := View();
        DeallocTree(n, e);
        assert SameRights(v, View());
      }
    }

    /** A new entry of the table is given a right. */
    method Enter(right: Right) returns (ok: bool, name: Name)
      requires Calm() && right.kind != None
      modifies Parts()
      ensures Calm() && space.level == old(space.level) && fresh(Parts() - old(Parts()))
    {
      ok, name := Get();
      if ok {
        RewriteSlot(name, Index(name), right);
      }
    }

    method EnterNew(n: Name, right: Right)
      requires Calm() && right.kind != None && IsValid(n) && Plantable(View(), n)
      modifies Parts()
      ensures Calm() && space.level == old(space.level) && fresh(Parts() - old(Parts()))
    {
      var entry := PlantNew(n);
      RewriteTree(n, entry, right);
    }

    /** A new entry of the tree is given a right, if the name has no entry and none would do in the table. */
    method EnterTree(n: Name, right: Right)
      requires Calm() && right.kind != None && IsValid(n)
      modifies Parts()
      ensures Calm() && space.level == old(space.level) && fresh(Parts() - old(Parts()))
    {
      var r := AllocHere(n);
      match r
      case NoEntry => EnterNew(n, right);
      case TableEntry(i) =>
        AnswerInTable(old(View()), View(), n, i);
        RewriteSlot(n, i, right);
      case TreeRef(_) =>
    }

    /** Something another thread does with the space locked. */
    method Deed(mayGrow: bool)
      requires Calm()
      modifies Parts()
      ensures Calm() && fresh(Parts() - old(Parts()))
      ensures space.level >= old(space.level) && (!mayGrow ==> space.level == old(space.level))
    {
      var which: int, name: Name, right: Right := *, *, *;
      Fields();
      if which == 0 && Storable(right) {
        var _ := Rewrite(name, right);
      } else if which == 1 && right.kind != None {
        var _, _ := Enter(right);
      } else if which == 2 && right.kind != None && IsValid(name) {
        EnterTree(name, right);
      } else if mayGrow && space.level < |space.sizes| - 1 {
        Expand();
      }
    }

    /** What other threads do while the lock is dropped: anything, any number of times.  Nobody grows a table that is being grown. */
    method Meanwhile(mayGrow: bool)
      requires Calm()
      modifies Parts()
      ensures Calm() && fresh(Parts() - old(Parts()))
      ensures space.level >= old(space.level) && (!mayGrow ==> space.level == old(space.level))
    {
      var n: nat := *;
      while n > 0
        invariant Calm() && fresh(Parts() - old(Parts()))
        invariant space.level >= old(space.level) && (!mayGrow ==> space.level == old(space.level))
      {
        Deed(mayGrow);
        n := n - 1;
      }
    }

    /**
     ipc_entry_grow_table: grows, and again as long as that saves memory.  The lock is dropped to get the memory
     for the new table and to free the old one; if others act they may do so then.  If the table is being grown
     already, by a thread that is busy with it, the call only waits.  The memory is request number asked.
     */
    method Grow(supply: nat -> bool, asked: nat, others: bool, busy: bool) returns (status: Status, asked': nat)
      requires Calm() && (busy ==> others && |View().slots| < View().next)
      modifies Parts()
      ensures Calm() && fresh(Parts() - old(Parts())) && Met(supply, asked, asked', status == Shortage)
      ensures space.level >= old(space.level) && (status == Success && !busy ==> space.level > old(space.level))
      ensures status == NoSpace <==> old(|View().slots| == View().next)
      ensures status == NoSpace ==> View() == old(View()) && asked' == asked
      ensures !others ==> (status == NoSpace || Grown(old(View()), old(space.level), status, asked' - asked, false))
    {
      Fields();
      NextSize(space.sizes, space.level);
      if busy {
        Meanwhile(true);
        return Success, asked;
      }
      if space.table.slots.Length == space.table.next {
        return NoSpace, asked;
      }
      status, asked' := GrowMore(supply, asked, others);
    }

    /** Growth by a thread alone: the same rights, and one level for every request met, until more would save nothing. */
    ghost predicate Grown(v: View, level: nat, status: Status, requests: int, again: bool)
      reads space, space.table
    {
      && SameRights(v, View()) && space.level == level + requests - (if status == Shortage then 1 else 0)
      && (status == Success ==> again == Saves(View()))
      && (status == Shortage ==> !again && (View() == v || (space.level > level && Saves(View()))))
    }

    /** The loop of ipc_entry_grow_table. */
    method GrowMore(supply: nat -> bool, asked: nat, others: bool) returns (status: Status, asked': nat)
      requires Calm() && space.level < |space.sizes| - 1
      modifies Parts()
      ensures Calm() && fresh(Parts() - old(Parts())) && status != NoSpace && Met(supply, asked, asked', status == Shortage)
      ensures space.level >= old(space.level) && (status == Success ==> space.level > old(space.level))
      ensures !others ==> Grown(old(View()), old(space.level), status, asked' - asked, false)
    {
      ClimbStarts(supply, asked, others);
      ghost var v, level := View(), space.level;
      status, asked' := GrowAgain(supply, asked, others, v, level);
      Climbed(supply, asked, asked', status, others, v, level);
    }

    method GrowAgain(supply: nat -> bool, asked: nat, others: bool, ghost v: View, ghost level: nat) returns (status: Status, asked': nat)
      requires Calm() && level == space.level < |space.sizes| - 1 && Climbing(supply, asked, asked, true, Success, others, v, level)
      modifies Parts()
      ensures Calm() && fresh(Parts() - old(Parts())) && Climbing(supply, asked, asked', false, status, others, v, level)
      ensures space.level >= level && (status == Success ==> space.level > level)
    {
      status, asked' := Success, asked;
      var again := true;
      while again
        invariant Valid() && View().held == {} && View().heldTree == {} && fresh(Parts() - old(Parts()))
        invariant space.level >= level && asked' >= asked && (again ==> status == Success && space.level < |space.sizes| - 1)
        invariant !again && status == Success ==> space.level > level
        invariant Climbing(supply, asked, asked', again, status, others, v, level)
        decreases |space.sizes| - space.level, again
      {
        status, again := GrowRound(supply, asked, asked', others, v, level);
        asked' := asked' + 1;
        assert fresh(Parts() - old(Parts()));
      }
    }

    /** What growth has asked for and done since it began in the space v. */
    ghost predicate Climbs(supply: nat -> bool, from: nat, to: nat, again: bool, status: Status, others: bool, v: View, level: nat)
      reads space, space.table
    {
      && Met(supply, from, to, status == Shortage) && status != NoSpace
      && (!others ==> if to == from then again && status == Success && View() == v && space.level == level else Grown(v, level, status, to - from, again))
    }

    /** Climbs, passed around whole. */
    ghost predicate Climbing(supply: nat -> bool, from: nat, to: nat, again: bool, status: Status, others: bool, v: View, level: nat)
      reads space, space.table
    {
      forall u: nat {:trigger InsideClimb(this, u)} :: InsideClimb(this, u) ==> Climbs(supply, from, to, again, status, others, v, level)
    }

    lemma ClimbStarts(supply: nat -> bool, asked: nat, others: bool)
      ensures Climbing(supply, asked, asked, true, Success, others, View(), space.level)
    {
    }

    lemma Climbed(supply: nat -> bool, from: nat, to: nat, status: Status, others: bool, v: View, level: nat)
      requires Climbing(supply, from, to, false, status, others, v, level)
      ensures Met(supply, from, to, status == Shortage) && status != NoSpace && (!others ==> Grown(v, level, status, to - from, false))
    {
      assert InsideClimb(this, 0);
    }

    /** One round of it. */
    method GrowRound(supply: nat -> bool, ghost from: nat, to: nat, others: bool, ghost v: View, ghost level: nat) returns (status: Status, again: bool)
      requires Calm() && space.level < |space.sizes| - 1 && from <= to && Climbing(supply, from, to, true, Success, others, v, level)
      modifies Parts()
      ensures Calm() && fresh(Parts() - old(Parts())) && (again ==> status == Success)
      ensures space.level >= old(space.level) && (status == Success ==> space.level > old(space.level) && (again ==> space.level < |space.sizes| - 1))
      ensures Climbing(supply, from, to + 1, again, status, others, v, level)
    {
      assert InsideClimb(this, 0);
      MetNext(supply, from, to, supply(to));
      if others {
        Meanwhile(false);
      }
      if !supply(to) {
        return Shortage, false;
      }
      status := Success;
      again := ExpandMore(others);
    }

    /** Grows, frees the old table, and says whether growing again saves memory; not if somebody else has grown it meanwhile. */
    method ExpandMore(others: bool) returns (again: bool)
      requires Calm() && space.level < |space.sizes| - 1
      modifies Parts()
      ensures Calm() && fresh(Parts() - old(Parts()))
      ensures space.level > old(space.level) && (again ==> space.level < |space.sizes| - 1)
      ensures !others ==> SameRights(old(View()), View()) && space.level == old(space.level) + 1 && again == Saves(View())
    {
      Expand();
      var next := space.level;
      if others {
        Meanwhile(true);
      }
      if space.level != next {
        return false;
      }
      Fields();
      NextSize(space.sizes, space.level);
      again := space.table.small > 0
        && (space.table.next - space.table.slots.Length) * ENTRY_BYTES < space.table.small * TREE_ENTRY_BYTES;
      if again {
        SmallMeansRoom(View());
      }
    }

    /** ipc_entry_get */
    method Get() returns (ok: bool, name: Name)
      requires Valid() && View().held == {}
      modifies Parts()
      ensures Valid() && SameRights(old(View()), View()) && View().heldTree == old(View().heldTree) && fresh(Parts() - old(Parts()))
      ensures ok == (old(View()).free != []) && space.level == old(space.level)
      ensures !ok ==> View() == old(View())
      ensures ok ==> IsValid(name) && old(View()).RightOf(name) == NO_RIGHT
      ensures ok ==> HeldAt(View(), name, InTable(Index(name))) && View().held == {Index(name)}
    {
      Look();
      ghost var v := View();
      ok, name := space.Get();
      if ok {
        GotName(v);
        GotRights(v);
        QuietInverts(v, View());
      }
    }

    /**
     ipc_entry_alloc: a fresh name, growing the table as needed.  The promise is about the space v as it was when
     the lock was last taken.  The call ends however often others take the entries it made room for, since the
     table grows each time; waits bounds only how often it finds others growing the table, in vain.  It asks for
     memory only when it has found the space without a free entry, as looked is, and is short only when refused.
     */
    method Alloc(supply: nat -> bool, others: bool, waits: nat) returns (status: Status, name: Name, asked: nat, ghost v: View, ghost looked: View)
      requires Calm()
      modifies Parts()
      ensures Valid() && View().heldTree == {} && SameRights(v, View()) && (!others ==> SameRights(old(View()), v))
      ensures Allocated(v, status, name) && (status != Success ==> View().held == {} && looked.free == [])
      ensures Met(supply, 0, asked, status == Shortage) && (old(View()).free != [] ==> status == Success && asked == 0)
      ensures status == Shortage && !others ==> View().free == [] || (space.level > old(space.level) && Saves(View()))
    {
      Fields();
      var again, left := true, waits;
      status, name, v, asked, looked := Success, NULL, View(), 0, View();
      TallyStarts(supply, others);
      while again
        invariant Valid() && View().heldTree == {} && fresh(Parts() - old(Parts())) && (!others ==> SameRights(old(View()), View()))
        invariant again || status != Success ==> View().held == {}
        invariant !again ==> Gave(v, status, name) && (!others ==> SameRights(old(View()), v))
        invariant Tally(supply, asked, again, status, looked, others, old(View()), old(space.level))
        invariant space.level < |space.sizes|
        decreases |space.sizes| - space.level + left, again
      {
        ghost var before := looked;
        looked := View();
        again, status, name, asked, left, v := AllocTurn(supply, asked, others, left, before, old(View()), old(space.level));
        assert fresh(Parts() - old(Parts()));
      }
      LookTally(supply, asked, status, looked, others, old(View()), old(space.level));
    }

    /** What ipc_entry_alloc has asked for since it began in the space v0. */
    ghost predicate Tallied(supply: nat -> bool, asked: nat, again: bool, status: Status, looked: View, others: bool, v0: View, level: nat)
      reads space, space.table
    {
      && Met(supply, 0, asked, status == Shortage) && space.level >= level
      && (again ==> status == Success) && (status != Success ==> looked.free == [])
      && (v0.free != [] ==> asked == 0 && status == Success && (again ==> View() == v0))
      && (status == Shortage && !others ==> View().free == [] || (space.level > level && Saves(View())))
    }

    /** Tallied, passed around whole. */
    ghost predicate Tally(supply: nat -> bool, asked: nat, again: bool, status: Status, looked: View, others: bool, v0: View, level: nat)
      reads space, space.table
    {
      forall u: nat {:trigger InsideClimb(this, u)} :: InsideClimb(this, u) ==> Tallied(supply, asked, again, status, looked, others, v0, level)
    }

    lemma TallyStarts(supply: nat -> bool, others: bool)
      ensures Tally(supply, 0, true, Success, View(), others, View(), space.level)
    {
    }

    lemma LookTally(supply: nat -> bool, asked: nat, status: Status, looked: View, others: bool, v0: View, level: nat)
      requires Tally(supply, asked, false, status, looked, others, v0, level)
      ensures Tallied(supply, asked, false, status, looked, others, v0, level)
    {
      assert InsideClimb(this, 0);
    }

    /** What ipc_entry_alloc promises: a held slot under a name that denoted nothing in v, or no room. */
    ghost predicate Allocated(v: View, status: Status, name: Name)
      reads space.table
    {
      match status
      case Success => IsValid(name) && v.RightOf(name) == NO_RIGHT && HeldAt(View(), name, InTable(Index(name))) && View().held == {Index(name)}
      case NoSpace => View().free == [] && |View().slots| == View().next
      case Shortage => true
    }

    /** The answer to the allocation of a name in the space v, and nothing else done to it. */
    ghost predicate Gave(v: View, status: Status, name: Name)
      reads space.table
    {
      SameRights(v, View()) && Allocated(v, status, name)
    }

    /** One round, in which the table may be found busy as often as left says. */
    method AllocTurn(supply: nat -> bool, asked: nat, others: bool, left: nat, ghost looked: View, ghost v0: View, ghost level: nat)
      returns (again: bool, status: Status, name: Name, asked': nat, left': nat, ghost v: View)
      requires Calm() && Tally(supply, asked, true, Success, looked, others, v0, level)
      modifies Parts()
      ensures Valid() && View().heldTree == {} && fresh(Parts() - old(Parts())) && (!others ==> SameRights(old(View()), View()))
      ensures again || status != Success ==> View().held == {}
      ensures !again ==> Gave(v, status, name) && (!others ==> SameRights(old(View()), v))
      ensures Tally(supply, asked', again, status, old(View()), others, v0, level)
      ensures space.level < |space.sizes| && (again ==> left' - space.level < left - old(space.level)) && left' - space.level <= left - old(space.level)
    {
      Fields();
      var busy: bool := *;
      busy := busy && others && left > 0 && space.table.slots.Length < space.table.next;
      again, status, name, asked', v := AllocOnce(supply, asked, others, busy, looked, v0, level);
      left' := if busy then left - 1 else left;
      Fields();
    }

    /** One round of ipc_entry_alloc: an entry, or growth. */
    method AllocOnce(supply: nat -> bool, asked: nat, others: bool, busy: bool, ghost looked: View, ghost v0: View, ghost level: nat)
      returns (again: bool, status: Status, name: Name, asked': nat, ghost v: View)
      requires Calm() && (busy ==> others && |View().slots| < View().next)
      requires Tally(supply, asked, true, Success, looked, others, v0, level)
      modifies Parts()
      ensures Valid() && View().heldTree == {} && fresh(Parts() - old(Parts())) && (!others ==> SameRights(old(View()), View()))
      ensures again || status != Success ==> View().held == {}
      ensures !again ==> Gave(v, status, name) && (!others ==> SameRights(old(View()), v))
      ensures space.level >= old(space.level) && (again && !busy ==> space.level > old(space.level))
      ensures Tally(supply, asked', again, status, old(View()), others, v0, level)
    {
      assert InsideClimb(this, 0);
      var ok;
      again, v, asked' := false, View(), asked;
      ok, name := Get();
      if ok {
        return false, Success, name, asked, v;
      }
      status, asked' := Grow(supply, asked, others, busy);
      again, v := status == Success, View();
      MetMore(supply, 0, asked, asked', status == Shortage);
    }

    /** The part of ipc_entry_alloc_name that needs no memory. */
    method AllocHere(n: Name) returns (r: Ref)
      requires Valid() && IsValid(n) && View().held == {} && View().heldTree == {}
      modifies Parts()
      ensures Valid() && SameRights(old(View()), View()) && fresh(Parts() - old(Parts())) && space.level == old(space.level)
      ensures r != NoEntry ==> Answers(old(View()), View(), n, r) && (r.TreeRef? ==> r.entry in space.tree.tree.entries)
      ensures r == NoEntry ==> View() == old(View()) && Plantable(View(), n)
      ensures r.TreeRef? ==> View() == old(View())
    {
      Look();
      ghost var v := View();
      r := space.AllocHere(n);
      QuietInverts(v, View());
    }

    method Plant(n: Name, e: TreeEntry)
      requires Valid() && IsValid(n) && e.name == n && e.right == NO_RIGHT && Plantable(View(), n)
      requires View().held == {} && View().heldTree == {}
      modifies Parts(), e
      ensures Valid() && SameRights(old(View()), View()) && e in space.tree.tree.entries
      ensures space.level == old(space.level) && Parts() == old(Parts()) + {e}
      ensures Answers(old(View()), View(), n, TreeRef(e))
    {
      Look();
      ghost var v := View();
      space.Plant(n, e);
      PlantedQuiet(v, n);
      QuietInverts(v, View());
      assert e in Elems(space.tree.tree.entries);
    }

    method PlantNew(n: Name) returns (entry: TreeEntry)
      requires Calm() && IsValid(n) && Plantable(View(), n)
      modifies Parts()
      ensures Valid() && SameRights(old(View()), View()) && space.level == old(space.level) && fresh(Parts() - old(Parts()))
      ensures View().held == {} && View().heldTree == {n} && IsEntry(n, TreeRef(entry)) && entry in space.tree.tree.entries
      ensures Answers(old(View()), View(), n, TreeRef(entry))
    {
      entry := new TreeEntry(n);
      Plant(n, entry);
    }

    /** The lock is dropped to get memory, and other threads come in. */
    method Unlocked(others: bool)
      requires Calm()
      modifies Parts()
      ensures Calm() && fresh(Parts() - old(Parts())) && old(space.level) <= space.level && (!others ==> View() == old(View()))
    {
      if others {
        Meanwhile(true);
      }
    }

    /** An entry for n has been found or made in the space v, and nothing else done to it. */
    ghost predicate Answered(v: View, n: Name, r: Ref)
      requires Valid()
      reads Parts()
    {
      SameRights(v, View()) && Answers(v, View(), n, r) && (r.TreeRef? ==> r.entry in space.tree.tree.entries)
    }

    /** A new tree entry is made only where a larger table would not save memory. */
    ghost predicate Sparing(v: View, n: Name, r: Ref) {
      r.TreeRef? && v.RightOf(n).kind == None ==> !Crowded(v, n)
    }

    /** When the table has no slot for the name: growth, a tree entry, or memory for one. */
    method AllocBeyond(n: Name, memory: bool, supply: nat -> bool, asked: nat, others: bool, busy: bool) returns (again: bool, memory': bool, status: Status, r: Ref, asked': nat)
      requires Calm() && IsValid(n) && Plantable(View(), n) && (busy ==> others && |View().slots| < View().next)
      modifies Parts()
      ensures Valid() && status != NoSpace && fresh(Parts() - old(Parts())) && (!others ==> SameRights(old(View()), View()))
      ensures again || status != Success ==> View().held == {} && View().heldTree == {}
      ensures !again && status == Success ==> Answered(old(View()), n, r)
      ensures again ==> old(space.level) < space.level || (!memory && memory') || busy
      ensures old(space.level) <= space.level && (memory ==> memory')
      ensures Met(supply, asked, asked', status == Shortage) && (again ==> status == Success)
      ensures !again && status == Success ==> asked' == asked && !Crowded(old(View()), n)
      ensures status == Shortage && !others ==> Plantable(View(), n) || Saves(View())
    {
      again, memory', status, r, asked' := false, memory, Success, NoEntry, asked;
      Fields();
      if Worthwhile(n) {
        status, asked' := Grow(supply, asked, others, busy);
        again := status == Success;
      } else if memory {
        var entry := PlantNew(n);
        r := TreeRef(entry);
      } else {
        MetNext(supply, asked, asked, supply(asked));
        Unlocked(others);
        memory', asked' := supply(asked), asked + 1;
        again, status := memory', if memory' then Success else Shortage;
      }
    }

    /** One round of ipc_entry_alloc_name: an answer, or growth, or memory for a tree entry. */
    method AllocRound(n: Name, memory: bool, supply: nat -> bool, asked: nat, others: bool, busy: bool, ghost v0: View)
      returns (again: bool, memory': bool, status: Status, r: Ref, asked': nat)
      requires Calm() && IsValid(n) && (busy ==> others && |View().slots| < View().next) && Search(n, supply, asked, true, Success, others, v0)
      modifies Parts()
      ensures Valid() && status != NoSpace && fresh(Parts() - old(Parts())) && (!others ==> SameRights(old(View()), View()))
      ensures again || status != Success ==> View().held == {} && View().heldTree == {}
      ensures !again && status == Success ==> Answered(old(View()), n, r)
      ensures again ==> status == Success && (old(space.level) < space.level || (!memory && memory') || busy)
      ensures old(space.level) <= space.level && (memory ==> memory')
      ensures !again && status == Success ==> Sparing(old(View()), n, r)
      ensures Search(n, supply, asked', again, status, others, v0)
    {
      assert InsideClimb(this, 0);
      again, memory', status, asked' := false, memory, Success, asked;
      r := AllocHere(n);
      if r == NoEntry {
        again, memory', status, r, asked' := AllocBeyond(n, memory, supply, asked, others, busy);
      }
      MetMore(supply, 0, asked, asked', status == Shortage);
    }

    /** What ipc_entry_alloc_name has asked for since it began in the space v0. */
    ghost predicate Searched(n: Name, supply: nat -> bool, asked: nat, again: bool, status: Status, others: bool, v0: View)
      reads space.table
    {
      && Met(supply, 0, asked, status == Shortage) && (again ==> status == Success)
      && (!Plantable(v0, n) ==> status == Success && asked == 0 && (again ==> View() == v0))
      && (status == Shortage && !others ==> Plantable(View(), n) || Saves(View()))
    }

    /** Searched, passed around whole. */
    ghost predicate Search(n: Name, supply: nat -> bool, asked: nat, again: bool, status: Status, others: bool, v0: View)
      reads space.table
    {
      forall u: nat {:trigger InsideClimb(this, u)} :: InsideClimb(this, u) ==> Searched(n, supply, asked, again, status, others, v0)
    }

    lemma SearchStarts(n: Name, supply: nat -> bool, others: bool)
      ensures Search(n, supply, 0, true, Success, others, View())
    {
    }

    lemma LookSearch(n: Name, supply: nat -> bool, asked: nat, status: Status, others: bool, v0: View)
      requires Search(n, supply, asked, false, status, others, v0)
      ensures Searched(n, supply, asked, false, status, others, v0)
    {
      assert InsideClimb(this, 0);
    }

    /**
     ipc_entry_alloc_name: the entry of the given name, found or newly allocated, in the space v as it was when
     the lock was last taken.  A name that has an entry, or a free slot of its own, needs no memory; for any other
     the call is short exactly when a request is refused.
     */
    method AllocName(n: Name, supply: nat -> bool, others: bool, waits: nat) returns (status: Status, r: Ref, asked: nat, ghost v: View)
      requires Calm() && IsValid(n)
      modifies Parts()
      ensures Valid() && status != NoSpace && fresh(Parts() - old(Parts())) && (!others ==> SameRights(old(View()), View()))
      ensures status == Success ==> SameRights(v, View()) && Answers(v, View(), n, r) && (r.TreeRef? ==> r.entry in space.tree.tree.entries)
      ensures status == Success && !others ==> Answers(old(View()), View(), n, r)
      ensures status != Success ==> View().held == {} && View().heldTree == {}
      ensures Met(supply, 0, asked, status == Shortage) && (!Plantable(old(View()), n) ==> status == Success && asked == 0)
      ensures status == Success ==> Sparing(v, n, r)
      ensures status == Shortage && !others ==> Plantable(View(), n) || Saves(View())
    {
      status, r, asked, v := AllocRounds(n, supply, others, waits);
      if status == Success && !others {
        AnswersSame(old(View()), v, View(), n, r);
      }
    }

    /** Its loop. */
    method AllocRounds(n: Name, supply: nat -> bool, others: bool, waits: nat) returns (status: Status, r: Ref, asked: nat, ghost v: View)
      requires Calm() && IsValid(n)
      modifies Parts()
      ensures Valid() && status != NoSpace && fresh(Parts() - old(Parts())) && (!others ==> SameRights(old(View()), View()))
      ensures status == Success ==> Answered(v, n, r) && (!others ==> SameRights(old(View()), v))
      ensures status != Success ==> View().held == {} && View().heldTree == {}
      ensures Met(supply, 0, asked, status == Shortage) && (!Plantable(old(View()), n) ==> status == Success && asked == 0)
      ensures status == Success ==> Sparing(v, n, r)
      ensures status == Shortage && !others ==> Plantable(View(), n) || Saves(View())
    {
      Fields();
      var again, memory, left := true, false, waits;
      status, r, asked, v := Success, NoEntry, 0, View();
      SearchStarts(n, supply, others);
      while again
        invariant Valid() && status != NoSpace && fresh(Parts() - old(Parts())) && (!others ==> SameRights(old(View()), View()))
        invariant again || status != Success ==> View().held == {} && View().heldTree == {}
        invariant !again && status == Success ==> Answered(v, n, r)
        invariant !others ==> SameRights(old(View()), v)
        invariant Search(n, supply, asked, again, status, others, old(View())) && (again ==> status == Success)
        invariant !again && status == Success ==> Sparing(v, n, r)
        invariant space.level < |space.sizes|
        decreases |space.sizes| - space.level + left + (if memory then 0 else 1), again
      {
        Fields();
        var busy: bool := *;
        busy := busy && others && left > 0 && space.table.slots.Length < space.table.next;
        v := View();
        again, memory, status, r, asked := AllocRound(n, memory, supply, asked, others, busy, old(View()));
        assert fresh(Parts() - old(Parts()));
        left := if busy then left - 1 else left;
        Fields();
      }
      LookSearch(n, supply, asked, status, others, old(View()));
    }

    /** The right in an entry. */
    method Read(n: Name, r: Ref) returns (right: Right)
      requires Valid() && r != NoEntry && IsEntry(n, r)
      ensures match PlaceOf(r)
        case Nowhere => false
        case InTable(i) => i < |View().slots| && right == View().slots[i].right
        case InTree(m) => m in View().tree && right == View().tree[m]
    {
      Look();
      space.Fields();
      EntryFacts(View(), n, PlaceOf(r));
      match r
      case TableEntry(i) => right := space.table.slots[i].right;
      case TreeRef(e) =>
        space.Holding(e);
        right := e.right;
    }

    /** The entry n, if any, is the only one without a right. */
    ghost predicate Bare(n: Name, r: Ref)
      reads Parts()
    {
      && Valid() && r != NoEntry && IsEntry(n, r)
      && View().held <= (if r.TableEntry? then {r.index} else {}) && View().heldTree <= (if r.TreeRef? then {n} else {})
    }

    /** A right is written into the entry r of the name n; without a right it is given back. */
    method Put(n: Name, r: Ref, right: Right)
      requires Bare(n, r) && Storable(right)
      modifies Parts()
      ensures Calm() && fresh(Parts() - old(Parts())) && RightSet(old(View()), View(), n, right)
      ensures right.kind != None ==> space.tree.tree.entries == old(space.tree.tree.entries)
      ensures right.kind != None ==> forall m: Name :: m != n ==> Looked(View(), m) == Looked(old(View()), m)
    {
      EntryFacts(View(), n, PlaceOf(r));
      match r
      case TableEntry(i) =>
        RewriteSlot(n, i, right);
        if right.kind != None {
          SlotLooked(old(View()), n, i, right);
        }
      case TreeRef(e) =>
        RewriteTree(n, e, right);
        if right.kind != None {
          TreeLooked(old(View()), n, right);
        }
    }

    /** ipc_right_inuse, on the entry ipc_entry_alloc_name gave. */
    method InUse(n: Name, r: Ref, ghost v: View) returns (used: bool)
      requires Valid() && Answers(v, View(), n, r) && (r.TreeRef? ==> r.entry in space.tree.tree.entries)
      ensures used <==> v.RightOf(n).kind != None
      ensures if used then Calm() else Bare(n, r) && HeldAt(View(), n, PlaceOf(r))
    {
      Look();
      space.Fields();
      match r
      case NoEntry => used := false;
      case TableEntry(i) =>
        used := space.table.slots[i].right.kind != None;
        AnswerUsed(v, View(), n, r);
      case TreeRef(e) =>
        space.Holding(e);
        used := e.right.kind != None;
        AnswerUsed(v, View(), n, r);
    }

    /** The right of the name o moves to the new entry r of the name n. */
    method RenameInto(o: Name, n: Name, r: Ref) returns (outcome: Renaming)
      requires Bare(n, r) && HeldAt(View(), n, PlaceOf(r))
      modifies Parts()
      ensures Calm() && (outcome == Renamed || outcome == InvalidName)
      ensures outcome == Renamed ==> o != n && old(View()).RightOf(o).kind != None && Moves(old(View()), View(), o, n)
      ensures outcome == InvalidName ==> SameRights(old(View()), View()) && (o == n || o == HIDDEN || old(View()).RightOf(o).kind == None)
    {
      HeldDenotes(View(), n, PlaceOf(r));
      if o == n {
        Put(n, r, NO_RIGHT);
        return InvalidName;
      }
      var found := Lookup(o);
      if found == NoEntry {
        Put(n, r, NO_RIGHT);
        return InvalidName;
      }
      FoundRight(View(), o);
      var right := Read(o, found);
      ghost var v := View();
      Put(n, r, right);
      ghost var w := View();
      assert IsEntry(o, found);
      Put(o, found, NO_RIGHT);
      MovesTwice(v, w, View(), o, n, right);
      return Renamed;
    }

    /** ipc_object_rename and ipc_right_rename, about the space v as it was when the lock was last taken. */
    method Rename(o: Name, n: Name, supply: nat -> bool, others: bool, waits: nat) returns (outcome: Renaming, asked: nat, ghost v: View)
      requires Calm() && IsValid(n)
      modifies Parts()
      ensures Calm() && (!others ==> SameRights(old(View()), v))
      ensures outcome == Renamed ==> o != n && v.RightOf(o).kind != None && v.RightOf(n).kind == None && Moves(v, View(), o, n)
      ensures outcome != Renamed ==> SameRights(v, View())
      ensures outcome == NameExists ==> v.RightOf(n).kind != None
      ensures outcome == InvalidName ==> v.RightOf(n).kind == None && (o == n || o == HIDDEN || v.RightOf(o).kind == None)
      ensures Met(supply, 0, asked, outcome == NoMemory) && (!Plantable(old(View()), n) ==> outcome != NoMemory && asked == 0)
    {
      var status, r;
      status, r, asked, v := AllocName(n, supply, others, waits);
      if status != Success {
        v := View();
        return NoMemory, asked, v;
      }
      var used := InUse(n, r, v);
      if used {
        return NameExists, asked, v;
      }
      ghost var w := View();
      outcome := RenameInto(o, n, r);
      MovesSame(v, w, View(), o, n);
    }

    /** The growth test of ipc_entry_alloc_name. */
    predicate Worthwhile(n: Name)
      reads space.table, space.table.slots
    {
      && space.table.slots.Length <= Index(n) < space.table.next
      && (space.table.next - space.table.slots.Length) * ENTRY_BYTES < (space.table.small + 1) * TREE_ENTRY_BYTES
    }
  }

  /** An entry made to give up its right is held under its name. */
  lemma StoredHeld(v: Consistent, n: Name, i: nat)
    requires HeldAt(v, n, InTable(i)) || (n != HIDDEN && InTable(i) == Looked(v, n))
    ensures i < |v.slots| && HeldAt(SlotSet(v, i, NO_RIGHT), n, InTable(i))
  {
    EntryFacts(v, n, InTable(i));
    SpaceView.Look(v);
  }

  /** The answers of ipc_object_rename. */
  datatype Renaming = Renamed | NameExists | InvalidName | NoMemory

  /** The right of o is under n instead, and nothing else changed. */
  ghost predicate Moves(v: View, w: View, o: Name, n: Name) {
    forall m: Name :: w.RightOf(m) == if m == n then v.RightOf(o) else if m == o then NO_RIGHT else v.RightOf(m)
  }

  lemma MovesTwice(v: View, w: View, x: View, o: Name, n: Name, right: Right)
    requires o != n && right == v.RightOf(o) && RightSet(v, w, n, right) && RightSet(w, x, o, NO_RIGHT)
    ensures Moves(v, x, o, n)
  {
  }

  lemma MovesSame(v: View, w: View, x: View, o: Name, n: Name)
    requires SameRights(v, w)
    ensures Moves(w, x, o, n) ==> Moves(v, x, o, n)
    ensures SameRights(w, x) ==> SameRights(v, x)
    ensures v.RightOf(o) == w.RightOf(o)
  {
  }

  lemma FoundRight(v: Consistent, n: Name)
    requires n != HIDDEN
    ensures RightAt(v, Looked(v, n)) == v.RightOf(n)
  {
    SpaceView.Look(v);
    LookupExact(v, n);
  }

  /** A held entry denotes nothing. */
  lemma HeldDenotes(v: Consistent, n: Name, p: Place)
    requires HeldAt(v, n, p)
    ensures v.RightOf(n) == NO_RIGHT
  {
    SpaceView.Look(v);
  }

  /** The entry given for a name has a right exactly when the name denoted one. */
  lemma AnswerUsed(v: View, w: Consistent, n: Name, r: Ref)
    requires Answers(v, w, n, r)
    ensures r != NoEntry && (r.TableEntry? ==> r.index < |w.slots|) && (r.TreeRef? ==> r.entry.name in w.tree)
    ensures RightAt(w, PlaceOf(r)).kind != None <==> v.RightOf(n).kind != None
    ensures v.RightOf(n).kind == None ==> HeldAt(w, n, PlaceOf(r)) && w.held <= (if r.TableEntry? then {r.index} else {}) && w.heldTree <= (if r.TreeRef? then {n} else {})
  {
    SpaceView.Look(w);
  }

  /** Writing a right into one entry changes where no other name is looked up. */
  lemma SlotLooked(v: Consistent, n: Name, i: nat, right: Right)
    requires 0 < i == Index(n) < |v.slots| && v.Used(i) && v.slots[i].gen == Gen(n)
    ensures forall m: Name :: m != n ==> Looked(SlotSet(v, i, right), m) == Looked(v, m)
  {
    forall m: Name | m != n
      ensures Looked(SlotSet(v, i, right), m) == Looked(v, m)
    {
      MakeOfParts(m);
      MakeOfParts(n);
    }
  }

  lemma TreeLooked(v: Consistent, n: Name, right: Right)
    requires n in v.tree
    ensures forall m: Name :: m != n ==> Looked(TreeSet(v, n, right), m) == Looked(v, m)
  {
  }

  lemma AnswerInTable(v: View, w: View, n: Name, i: nat)
    requires Answers(v, w, n, TableEntry(i))
    ensures w.held <= {i} && w.heldTree == {} && (HeldAt(w, n, InTable(i)) || (n != HIDDEN && InTable(i) == Looked(w, n)))
  {
  }

  lemma AnswersSame(v: View, v': View, w: View, n: Name, r: Ref)
    requires SameRights(v, v') && Answers(v', w, n, r)
    ensures Answers(v, w, n, r)
  {
  }

  lemma PlantedQuiet(v: View, n: Name)
    requires n !in v.tree
    ensures Quiet(v, Planted(v, n))
  {
    assert SendNames(v.tree[n := NO_RIGHT]) == SendNames(v.tree);
  }

  lemma MigratedSends(v: Consistent, n: Name)
    requires n in v.tree && Index(n) in v.held && Index(n) < |v.slots|
    ensures var w, i := Migrated(v, n), Index(n);
      && i !in SendSlots(v.slots) && (forall j :: j in SendSlots(v.slots) ==> w.slots[j] == v.slots[j])
      && SendSlots(w.slots) == (if v.tree[n].kind == Send then SendSlots(v.slots) + {i} else SendSlots(v.slots))
      && SendNames(w.tree) == (if v.tree[n].kind == Send then SendNames(v.tree) - {n} else SendNames(v.tree))
      && (v.tree[n].kind == Send ==> n in SendNames(v.tree) && SendNames(v.tree)[n] == v.tree[n].obj)
  {
    HeldFacts(v, Index(n));
  }

  lemma UprootedQuiet(v: Consistent, n: Name)
    requires n in v.heldTree
    ensures Quiet(v, Uprooted(v, n))
  {
    SpaceView.Look(v);
    assert SendNames(v.tree - {n}) == SendNames(v.tree);
  }

  /** What growth did to a space, as far as names and rights go. */
  ghost predicate Grew(v: View, w: View, gone: seq<Name>) {
    v.held == {} && v.heldTree == {} && w.held == {} && |v.slots| <= |w.slots| && SameRights(v, w) && Gone(v.tree, w.tree, gone)
  }

  lemma OldSlots(v: Consistent, w: Consistent, gone: seq<Name>, i: nat)
    requires Grew(v, w, gone) && 0 < i < |v.slots| && v.slots[i].right.kind != None
    ensures w.slots[i].gen == v.slots[i].gen
  {
    SpaceView.Look(v);
    SpaceView.Look(w);
    var m := Make(i, v.slots[i].gen);
    assert v.RightOf(m) == v.slots[i].right && w.RightOf(m) == v.RightOf(m);
  }

  /** The names that moved into the table have slots in its new part. */
  lemma GoneSlots(v: Consistent, w: Consistent, gone: seq<Name>, n: Name)
    requires Grew(v, w, gone) && n in gone
    ensures |v.slots| <= Index(n) < |w.slots| && w.slots[Index(n)].gen == Gen(n) && n in v.tree && w.slots[Index(n)].right == v.tree[n]
  {
    SpaceView.Look(v);
    SpaceView.Look(w);
    assert v.RightOf(n) == v.tree[n] && w.RightOf(n) == v.RightOf(n);
    if 0 < Index(n) < |v.slots| {
      OldSlots(v, w, gone, Index(n));
    }
  }

  lemma NewSlots(v: Consistent, w: Consistent, gone: seq<Name>, i: nat)
    requires Grew(v, w, gone) && |v.slots| <= i < |w.slots| && w.slots[i].right.kind != None
    ensures i < INDICES && w.slots[i].gen < GENERATIONS && Make(i, w.slots[i].gen) in gone
  {
    SpaceView.Look(v);
    SpaceView.Look(w);
    var m := Make(i, w.slots[i].gen);
    assert w.RightOf(m) == w.slots[i].right && v.RightOf(m) == w.RightOf(m);
  }

  lemma SameTree(v: Consistent, w: Consistent, gone: seq<Name>)
    requires Grew(v, w, gone)
    ensures forall n :: n in w.tree ==> n in v.tree && w.tree[n] == v.tree[n]
    ensures 0 < |v.slots| && w.slots[0].right.kind != Send
  {
    SpaceView.Look(v);
    SpaceView.Look(w);
    forall n | n in w.tree
      ensures w.tree[n] == v.tree[n]
    {
      assert v.RightOf(n) == v.tree[n] && w.RightOf(n) == v.RightOf(n);
    }
  }

  lemma GoneMovable(v: Consistent, w: Consistent, gone: seq<Name>)
    requires Grew(v, w, gone)
    ensures Movable(w.slots, gone, SendSlots(w.slots[..|v.slots|]), SendNames(v.tree))
  {
    SameTree(v, w, gone);
    forall k | 0 <= k < |gone|
      ensures |v.slots| <= Index(gone[k]) < |w.slots| && w.slots[Index(gone[k])].gen == Gen(gone[k])
      ensures gone[k] in v.tree && w.slots[Index(gone[k])].right == v.tree[gone[k]]
    {
      GoneSlots(v, w, gone, gone[k]);
    }
    forall j, k | 0 <= j < k < |gone|
      ensures Index(gone[j]) != Index(gone[k])
    {
      if Index(gone[j]) == Index(gone[k]) {
        SameName(gone[j], gone[k]);
      }
    }
  }

  lemma GoneSends(v: Consistent, w: Consistent, gone: seq<Name>)
    requires Grew(v, w, gone)
    ensures SendSlots(w.slots[..|v.slots|]) + SendIndices(w.slots, gone) == SendSlots(w.slots)
    ensures SendNames(v.tree) - SendGone(w.slots, gone) == SendNames(w.tree)
  {
    SameTree(v, w, gone);
    forall n | n in gone
      ensures |v.slots| <= Index(n) < |w.slots| && w.slots[Index(n)].gen == Gen(n) && n in v.tree && w.slots[Index(n)].right == v.tree[n]
    {
      GoneSlots(v, w, gone, n);
    }
    forall i | i in SendSlots(w.slots) && i >= |v.slots|
      ensures i in SendIndices(w.slots, gone)
    {
      NewSlots(v, w, gone, i);
      assert Make(i, w.slots[i].gen) in SendGone(w.slots, gone);
    }
  }

  /** A table of two slots that is full, and a tree with a name two indices beyond it and none just beyond it. */
  ghost predicate Tight(v: View) {
    && |v.slots| == 2 && v.next == 3 && v.free == []
    && v.RightOf(Make(3, 0)).kind != None && forall n: Name :: Index(n) == 2 ==> v.RightOf(n) == NO_RIGHT
  }

  /** A full table of two slots. */
  ghost function FullTable(): View {
    SlotSet(Got(Created(2, 3)), 1, Right(Send, 1, 7, 0))
  }

  lemma FullTableInv()
    ensures FullTable().Inv() && |FullTable().slots| == 2 && FullTable().next == 3 && FullTable().free == [] && FullTable().tree == map[]
    ensures FullTable().held == {} && FullTable().heldTree == {}
  {
    var v := Created(2, 3);
    CreatedInv(2, 3);
    assert v.free[0] == 1;
    GotInv(v);
    SlotSetInv(Got(v), 1, Right(Send, 1, 7, 0));
  }

  lemma TightSpace()
    ensures var v := TreeSet(Planted(FullTable(), Make(3, 0)), Make(3, 0), Right(Send, 1, 8, 0));
      v.Inv() && Tight(v) && v.held == {} && v.heldTree == {}
  {
    FullTableInv();
    PlantedInv(FullTable(), Make(3, 0));
    TreeSetInv(Planted(FullTable(), Make(3, 0)), Make(3, 0), Right(Send, 1, 8, 0));
  }

  /** Growth of such a space that is refused its second request says that memory is short, though the first has made room. */
  method ShortWithRoom(s: IpcSpace) returns (status: Status)
    requires s.Calm() && Tight(s.View()) && s.space.sizes == [2, 3, 4, 4]
    modifies s.Parts()
    ensures s.Calm() && status == Shortage && 2 in s.View().free
  {
    s.Fields();
    ghost var v := s.View();
    var supply: nat -> bool := (k: nat) => k == 0;
    var asked;
    assert s.space.level == 1 && supply(0) && !supply(1);
    status, asked := s.Grow(supply, 0, false, false);
    MetEach(supply, 0, asked);
    MetEach(supply, 0, if asked == 0 then 0 else asked - 1);
    assert asked == if status == Shortage then 2 else 1;
    s.Fields();
    TightGrown(v, s.View());
  }

  /** After one growth the new slot is free, and another would save memory. */
  lemma TightGrown(v: View, w: Consistent)
    requires Tight(v) && SameRights(v, w) && w.held == {} && |w.slots| == 3 && w.next == 4
    ensures Saves(w) && 2 in w.free
  {
    SpaceView.Look(w);
    var far := Make(3, 0);
    assert far in w.tree && 3 in IndicesIn(w.tree.Keys, 3, 4);
    assert w.RightOf(Make(2, w.slots[2].gen)) == NO_RIGHT;
  }

  lemma Found(v: Consistent, n: Name)
    requires n !in v.heldTree
    ensures Looked(v, n) == Nowhere <==> n == HIDDEN || v.RightOf(n).kind == None
  {
    SpaceView.Look(v);
    LookupExact(v, n);
  }

  lemma SlotSends(v: View, i: nat, right: Right)
    requires i < |v.slots|
    ensures SendSlots(SlotSet(v, i, right).slots) == if right.kind == Send then SendSlots(v.slots) - {i} + {i} else SendSlots(v.slots) - {i}
  {
  }

  lemma TreeSends(v: View, n: Name, right: Right)
    requires n in v.tree
    ensures SendNames(v.tree[n := right]) == if right.kind == Send then (SendNames(v.tree) - {n})[n := right.obj] else SendNames(v.tree) - {n}
  {
  }
}
