/**
 Two names in one header: ipc_kmsg_copyin_header looks both up, copies both in, gives the reply entry back if it
 has no right left, and only then looks at the destination entry again, through the pointer it has.
 */
module HeaderNames {
  import opened MachPort
  import opened SpaceView
  import opened Spaces
  import opened FastHeaders

  /** Where the entry of the name n is, with or without a right. */
  ghost function Sits(v: View, n: Name): Place {
    if 0 < Index(n) < |v.slots| && v.slots[Index(n)].gen == Gen(n) && v.Used(Index(n)) then InTable(Index(n))
    else if n in v.tree then InTree(n)
    else Nowhere
  }

  /** A lookup finds the entry where it is. */
  lemma LookedSits(v: Consistent, n: Name)
    requires Looked(v, n) != Nowhere
    ensures Sits(v, n) == Looked(v, n) && n != HIDDEN
  {
    SpaceView.Look(v);
    LookupExact(v, n);
  }

  lemma NoneCollide(v: Consistent, i: nat)
    requires i in v.held && i < |v.slots| && !v.slots[i].collision
    ensures forall n :: n in v.tree ==> Index(n) != i
  {
    HeldFacts(v, i);
    assert forall n :: n in v.tree && Index(n) == i ==> HasIndex(v.tree.Keys, i);
  }

  /** A slot without collisions is given back. */
  lemma FreedSits(v: Consistent, r: Name, d: Name)
    requires HeldAt(v, r, InTable(Index(r))) && d != r && !v.slots[Index(r)].collision
    ensures Sits(FreedSlot(v, Index(r)), d) == Sits(v, d)
  {
    NoneCollide(v, Index(r));
    MakeOfParts(r);
    MakeOfParts(d);
  }

  /** A tree entry n takes over the slot: every other entry stays where it is, and n does not. */
  lemma MigratedSits(v: Consistent, r: Name, n: Name, d: Name)
    requires HeldAt(v, r, InTable(Index(r))) && d != r && n in v.tree && Index(n) == Index(r) && Sits(v, d) != Nowhere
    ensures Sits(Migrated(v, n), d) == Sits(v, d) <==> d != n
  {
    SpaceView.Look(v);
    MakeOfParts(r);
    MakeOfParts(d);
    MakeOfParts(n);
  }

  /** A tree entry is given back. */
  lemma UprootedSits(v: Consistent, r: Name, d: Name)
    requires r in v.tree && d != r
    ensures Sits(Uprooted(v, r), d) == Sits(v, d)
  {
    SpaceView.Look(v);
  }

  /** The entry of d moves exactly when it is in the tree, picked to take over the slot of r. */
  lemma ClearedSits(v: Consistent, w: View, r: Name, q: Place, d: Name)
    requires HeldAt(v, r, q) && d != r && Sits(v, d) != Nowhere && Cleared(v, w, q)
    ensures Sits(w, d) == Sits(v, d) <==> !(q.InTable? && d in v.tree && Index(d) == Index(r) && w == Migrated(v, d))
  {
    if q.InTree? {
      TreeFacts(v);
      HeldNothing(v, r);
      UprootedSits(v, r, d);
    } else if v.slots[q.index].collision {
      HeldFacts(v, q.index);
      var n :| n in v.tree && Index(n) == q.index && w == Migrated(v, n);
      MigratedSits(v, r, n, d);
      if d in v.tree && Index(d) == Index(r) && d != n {
        MigratedApart(v, n, d);
      }
    } else {
      HeldFacts(v, q.index);
      FreedSits(v, r, d);
      NoneCollide(v, q.index);
    }
  }

  lemma HeldNothing(v: Consistent, r: Name)
    requires r in v.heldTree
    ensures r in v.tree && v.tree[r].kind == None
  {
    SpaceView.Look(v);
  }

  lemma MigratedApart(v: View, n: Name, d: Name)
    requires n in v.tree && d in v.tree && n != d && Index(n) < |v.slots| && Index(d) < |v.slots|
    ensures Migrated(v, n) != Migrated(v, d)
  {
    assert d in Migrated(v, n).tree && d !in Migrated(v, d).tree;
  }

  /** The destination's entry is sure to stay where it is, unless it is in the tree and the reply's in the table under the same index. */
  lemma PointerStays(v: Consistent, r: Name, q: Place, d: Name)
    requires HeldAt(v, r, q) && d != r && Sits(v, d) != Nowhere
    ensures (forall w :: Cleared(v, w, q) ==> Sits(w, d) == Sits(v, d)) <==> !(q.InTable? && Sits(v, d).InTree? && Index(d) == Index(r))
  {
    if q.InTable? && Sits(v, d).InTree? && Index(d) == Index(r) {
      TakesOver(v, r, q, d);
      ClearedSits(v, Migrated(v, d), r, q, d);
    } else {
      forall w | Cleared(v, w, q)
        ensures Sits(w, d) == Sits(v, d)
      {
        ClearedSits(v, w, r, q, d);
        if q.InTable? && d in v.tree && Index(d) == Index(r) {
          SitsInTree(v, r, q, d);
        }
      }
    }
  }

  lemma TakesOver(v: Consistent, r: Name, q: Place, d: Name)
    requires HeldAt(v, r, q) && q.InTable? && d in v.tree && Index(d) == Index(r)
    ensures Cleared(v, Migrated(v, d), q)
  {
    HeldFacts(v, q.index);
    assert HasIndex(v.tree.Keys, q.index);
  }

  /** A name that collides with a slot in use by another is in the tree. */
  lemma SitsInTree(v: Consistent, r: Name, q: Place, d: Name)
    requires HeldAt(v, r, q) && q.InTable? && d != r && d in v.tree && Index(d) == Index(r)
    ensures Sits(v, d) == InTree(d)
  {
    SpaceView.Look(v);
    MakeOfParts(r);
    MakeOfParts(d);
  }

  /** The space after both copyins: whatever is left of the destination's right, nothing of the reply's. */
  ghost function BothIn(v: View, d: Name, r: Name, left: Right): View {
    Stored(Stored(v, Looked(v, d), left), Looked(v, r), NO_RIGHT)
  }

  lemma StoredSound(v: Consistent, n: Name, p: Place, x: Right)
    requires Storable(x) && Sits(v, n) == p != Nowhere
    ensures Sound(Stored(v, p, x))
  {
    SpaceView.Look(v);
    if p.InTable? {
      SlotSetInv(v, p.index, x);
    } else {
      TreeSetInv(v, n, x);
    }
  }

  lemma StoredSits(v: Consistent, n: Name, p: Place, x: Right, d: Name)
    requires Storable(x) && Sits(v, n) == p != Nowhere
    ensures Sits(Stored(v, p, x), d) == Sits(v, d) && (x.kind == None ==> HeldAt(Stored(v, p, x), n, p))
  {
  }

  /**
   So the header copyin may use its pointer to the destination's entry after the reply's is given back, whatever
   tree entry is picked to take over the slot, exactly when the names do not share an index with the reply in the
   table and the destination in the tree.
   */
  lemma SecondLookSafe(v: Consistent, d: Name, r: Name, left: Right)
    requires d != r && Looked(v, d) != Nowhere && Looked(v, r) != Nowhere && Storable(left)
    ensures (forall w :: Cleared(BothIn(v, d, r, left), w, Looked(v, r)) ==> Sits(w, d) == Looked(v, d)) <==>
            !(Looked(v, r).InTable? && Looked(v, d).InTree? && Index(d) == Index(r))
  {
    var p, q := Looked(v, d), Looked(v, r);
    LookedSits(v, d);
    LookedSits(v, r);
    StoredSound(v, d, p, left);
    StoredSits(v, d, p, left, d);
    StoredSits(v, d, p, left, r);
    var v1 := Stored(v, p, left);
    StoredSound(v1, r, q, NO_RIGHT);
    StoredSits(v1, r, q, NO_RIGHT, d);
    PointerStays(Stored(v1, q, NO_RIGHT), r, q, d);
  }

  /** A caller can tell from the names alone that it is safe. */
  lemma DistinctIndicesSafe(v: Consistent, d: Name, r: Name, left: Right, w: View)
    requires Looked(v, d) != Nowhere && Looked(v, r) != Nowhere && Storable(left) && Index(d) != Index(r)
    requires Cleared(BothIn(v, d, r, left), w, Looked(v, r))
    ensures Sits(w, d) == Looked(v, d)
  {
    SecondLookSafe(v, d, r, left);
  }

  /** A space of two slots with a right for the name of index 1 and generation 0. */
  ghost function Single(): View {
    SlotSet(Got(Created(2, 3)), 1, Right(Send, 1, 7, 0))
  }

  /** And with one in the tree for generation 5. */
  ghost function Shared(): View {
    TreeSet(Planted(Single(), Make(1, 5)), Make(1, 5), Right(Send, 1, 8, 0))
  }

  lemma SingleInv()
    ensures Single().Inv() && Single().slots[1] == Slot(0, false, Right(Send, 1, 7, 0), 0) && |Single().slots| == 2 && Single().tree == map[]
  {
    CreatedInv(2, 3);
    GotInv(Created(2, 3));
    GotFirst();
    SlotSetInv(Got(Created(2, 3)), 1, Right(Send, 1, 7, 0));
  }

  lemma GotFirst()
    ensures var v := Got(Created(2, 3)); |v.slots| == 2 && v.slots[1] == Slot(0, false, NO_RIGHT, 0) && 1 in v.held && v.tree == map[]
  {
    assert Created(2, 3).free[0] == 1;
    assert Created(2, 3).slots[0].next == 1 && Created(2, 3).slots[1] == Slot(GENERATIONS - 1, false, NO_RIGHT, 0);
  }

  lemma SharedSound()
    ensures Sound(Shared()) && Looked(Shared(), Make(1, 0)) == InTable(1) && Looked(Shared(), Make(1, 5)) == InTree(Make(1, 5))
  {
    SingleInv();
    PlantedInv(Single(), Make(1, 5));
    TreeSetInv(Planted(Single(), Make(1, 5)), Make(1, 5), Right(Send, 1, 8, 0));
  }

  /** There the destination's entry can move away while the pointer to it is held. */
  lemma PointerLost()
    ensures Sound(Shared()) && exists w :: Cleared(BothIn(Shared(), Make(1, 5), Make(1, 0), Right(Send, 1, 8, 0)), w, InTable(1)) && Sits(w, Make(1, 5)) != InTree(Make(1, 5))
  {
    SharedSound();
    SecondLookSafe(Shared(), Make(1, 5), Make(1, 0), Right(Send, 1, 8, 0));
  }
}
