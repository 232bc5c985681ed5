/** A capability space: ipc/ipc_entry.c and ipc/ipc_space.c over a table, a splay tree and their counters. */
module Spaces {
  import opened MachPort
  import opened TableSizes
  import opened SpaceView
  import opened SpaceGrow
  import opened SplayShape
  import opened SplayTrees
  import opened EntryTables
  import opened EntryTrees
  import opened GrowTables

  /** ipc_entry_t: an element of the table, an entry of the tree, or IE_NULL. */
  datatype Ref = NoEntry | TableEntry(index: nat) | TreeRef(entry: TreeEntry)

  function PlaceOf(r: Ref): Place {
    match r
    case NoEntry => Nowhere
    case TableEntry(i) => InTable(i)
    case TreeRef(e) => InTree(e.name)
  }

  datatype Status = Success | NoSpace | Shortage

  /** sizeof(struct ipc_entry) and sizeof(struct ipc_tree_entry) */
  const ENTRY_BYTES := 16
  const TREE_ENTRY_BYTES := 32

  /** Always true: an invariant stated to hold wherever this is mentioned is passed around whole elsewhere. */
  ghost predicate InsideSpace(s: Space, u: nat) {
    true
  }

  class Space {
    const sizes: seq<nat>     // ipc_table_entries
    var level: nat            // is_table_next, as an index into sizes
    const table: EntryTable
    const tree: EntryTree

    ghost predicate Leveled()
      reads this, table
    {
      Filled(sizes) && 0 < level < |sizes| && |table.view.slots| == sizes[level - 1] && table.view.next == sizes[level]
    }

    ghost predicate Intact()
      reads this, table, table.slots, tree, tree.tree, Elems(tree.tree.entries)
    {
      table.Valid() && tree.Valid() && tree.rights == table.view.tree && Leveled()
    }

    /** Intact, passed around whole. */
    ghost predicate Valid()
      reads this, table, table.slots, tree, tree.tree, Elems(tree.tree.entries)
    {
      forall u: nat {:trigger InsideSpace(this, u)} :: InsideSpace(this, u) ==> Intact()
    }

    lemma Look()
      requires Valid()
      ensures Intact()
    {
      assert InsideSpace(this, 0);
    }

    lemma Fields()
      requires Valid()
      ensures table.Valid() && Leveled()
    {
      Look();
    }

    lemma Holding(e: TreeEntry)
      requires Valid() && e in tree.tree.entries
      ensures e.name in table.view.tree && table.view.tree[e.name] == e.right
    {
      Look();
      tree.Holding(e);
    }

    /** ipc_space_create */
    constructor (sizes: seq<nat>, initial: nat)
      requires Filled(sizes) && initial < |sizes| - 1
      ensures Valid() && table.view == Created(sizes[initial], sizes[initial + 1])
      ensures fresh(table) && fresh(table.slots) && fresh(tree) && fresh(tree.tree) && tree.tree.entries == []
    {
      this.sizes, level := sizes, initial + 1;
      table := new EntryTable(sizes[initial], sizes[initial + 1]);
      tree := new EntryTree();
    }

    method TreeLookup(n: Name) returns (r: Ref)
      requires tree.Valid()
      modifies tree.tree, Elems(tree.tree.entries)`lchild, Elems(tree.tree.entries)`rchild
      ensures tree.Valid() && tree.tree.entries == old(tree.tree.entries)
      ensures PlaceOf(r) == if n in tree.rights then InTree(n) else Nowhere
      ensures r.TreeRef? ==> r.entry in tree.tree.entries
    {
      var e := tree.Lookup(n);
      r := if e == null then NoEntry else TreeRef(e);
    }

    /** ipc_entry_lookup */
    method Lookup(n: Name) returns (r: Ref)
      requires Valid()
      modifies tree.tree, Elems(tree.tree.entries)`lchild, Elems(tree.tree.entries)`rchild
      ensures Valid() && tree.tree.entries == old(tree.tree.entries)
      ensures PlaceOf(r) == Looked(table.view, n)
      ensures r.TreeRef? ==> r.entry in tree.tree.entries
    {
      Look();
      var index := Index(n);
      if index < table.slots.Length {
        var s := table.slots[index];
        if s.gen != Gen(n) {
          if s.collision {
            r := TreeLookup(n);
          } else {
            r := NoEntry;
          }
        } else if s.right.kind == None {
          r := NoEntry;
        } else {
          r := TableEntry(index);
        }
      } else if table.total == 0 {
        r := NoEntry;
      } else {
        r := TreeLookup(n);
      }
    }

    /** ipc_entry_get */
    method Get() returns (ok: bool, name: Name)
      requires Valid()
      modifies table.slots, table`view
      ensures Valid() && ok == (old(table.view).free != [])
      ensures !ok ==> table.view == old(table.view)
      ensures old(table.view).slots != [] && (ok ==> old(table.view).free[0] < |old(table.view).slots| <= INDICES)
      ensures ok ==> table.view == Got(old(table.view)) && name == Issued(old(table.view))
    {
      Look();
      ok, name := table.Get();
    }

    /** r is the entry allocated under the name n and not yet given a right, or made to give it up. */
    ghost predicate IsHeld(n: Name, r: Ref)
      reads table, tree.tree
    {
      HeldAt(table.view, n, PlaceOf(r)) && (r.TreeRef? ==> r.entry in tree.tree.entries)
    }

    /** The given-up slot i takes over a colliding tree entry. */
    method Migrate(i: nat) returns (n: Name)
      requires Valid() && i in table.view.held && table.view.heldTree == {} && i < |table.view.slots| && table.view.slots[i].collision
      modifies table.slots, table`view, table`total, tree, tree.tree, Elems(tree.tree.entries)`lchild, Elems(tree.tree.entries)`rchild
      ensures Valid() && SameRights(old(table.view), table.view) && n in old(table.view).tree && Index(n) == i < old(|table.view.slots|)
      ensures table.view == Migrated(old(table.view), n) && table.slots == old(table.slots)
      ensures Elems(tree.tree.entries) <= old(Elems(tree.tree.entries))
    {
      Look();
      HeldFacts(table.view, i);
      TreeFacts(table.view);
      var e, more := tree.TakeIndex(i);
      assert tree.rights.Keys == table.view.tree.Keys - {e.name};
      n := e.name;
      table.Migrate(n, e.right, more);
    }

    /** ipc_entry_dealloc of a slot without collisions. */
    method FreeSlot(i: nat)
      requires Valid() && i in table.view.held && i < |table.view.slots| && !table.view.slots[i].collision
      modifies table.slots, table`view
      ensures Valid() && table.view == FreedSlot(old(table.view), i) && SameRights(old(table.view), table.view)
    {
      Look();
      table.Free(i);
    }

    /** ipc_entry_dealloc, second case: a given-up tree entry. */
    method DeallocTree(n: Name, e: TreeEntry)
      requires Valid() && n in table.view.heldTree && e in tree.tree.entries && e.name == n
      modifies table, table.slots, tree, tree.tree, Elems(tree.tree.entries)`lchild, Elems(tree.tree.entries)`rchild
      ensures Valid() && SameRights(old(table.view), table.view)
      ensures table.view == Uprooted(old(table.view), n) && table.slots == old(table.slots)
      ensures Elems(tree.tree.entries) == old(Elems(tree.tree.entries)) - {e}
    {
      Look();
      TreeFacts(table.view);
      tree.Delete(e);
      assert tree.rights.Keys == table.view.tree.Keys - {n};
      var collides := false;
      if Index(n) < table.next {
        collides := tree.Collides(n);
      }
      table.Uproot(n, collides);
    }

    /** A right is written into an entry allocated under the name n. */
    method SetRight(n: Name, r: Ref, right: Right)
      requires Valid() && Storable(right)
      requires IsHeld(n, r) || (r != NoEntry && n != HIDDEN && PlaceOf(r) == Looked(table.view, n) && (r.TreeRef? ==> r.entry in tree.tree.entries))
      modifies table.slots, table`view, tree, if r.TreeRef? then {r.entry} else {}
      ensures Valid() && RightSet(old(table.view), table.view, n, right)
      ensures r.TableEntry? ==> r.index < old(|table.view.slots|) && table.view == SlotSet(old(table.view), r.index, right)
      ensures r.TreeRef? ==> table.view == TreeSet(old(table.view), n, right)
    {
      Look();
      EntryFacts(table.view, n, PlaceOf(r));
      match r
      case NoEntry =>
      case TableEntry(i) =>
        table.SetSlot(i, right);
      case TreeRef(e) =>
        tree.SetRight(e, right);
        table.SetTree(n, right);
    }

    /** Moves what it can from the tree into the extended table v, and recounts the small indices. */
    method Regroup(osize: nat, ghost v: View) returns (gone: seq<Name>, ghost w: View, ghost c: int)
      requires table.Is(v) && tree.Valid() && tree.rights == v.tree
      requires v.Sized() && 0 < osize <= |v.slots| && Growing(v, osize, osize * GENERATIONS)
      requires v.total == 0 ==> AllSettled(v, osize, osize * GENERATIONS) && v == Recounted(v)
      modifies table.slots, table`total, table`small, tree, tree.tree, Elems(tree.tree.entries)`lchild, Elems(tree.tree.entries)`rchild
      ensures tree.Valid() && tree.rights == w.tree && Elems(tree.tree.entries) <= old(Elems(tree.tree.entries))
      ensures table.Is(Recounted(w)) && (Growing(w, osize, c) == true) && AllSettled(w, osize, c) && Carried(v, w) && Gone(v.tree, w.tree, gone)
    {
      gone, w, c := [], v, osize * GENERATIONS;
      if table.total > 0 {
        tree.Look();
        gone, w, c := MoveIn(table, tree.tree, osize, v);
        tree.Adopt(w.tree);
      }
    }

    /** ipc_entry_grow_table, once it has the memory for the larger table; gone are the names that moved into it. */
    method GrowOnce() returns (gone: seq<Name>, ghost added: seq<nat>)
      requires Valid() && table.view.held == {} && table.view.heldTree == {} && level < |sizes| - 1
      modifies `level, table, table.slots, tree, tree.tree, Elems(tree.tree.entries)`lchild, Elems(tree.tree.entries)`rchild
      ensures Valid() && level == old(level) + 1 && fresh(table.slots) && Elems(tree.tree.entries) <= old(Elems(tree.tree.entries))
      ensures SameRights(old(table.view), table.view) && table.view.held == {} && table.view.heldTree == {}
      ensures Gone(old(table.view).tree, table.view.tree, gone)
      ensures table.view.free == added + old(table.view.free) && Ascending(added, old(|table.view.slots|))
    {
      Look();
      var osize := table.slots.Length;
      ghost var v := table.view;
      NextSize(sizes, level);
      NextSize(sizes, level + 1);
      StartGrowth(v, sizes[level + 1]);
      table.Extend(sizes[level + 1]);
      ghost var w, c;
      gone, w, c := Regroup(osize, Extended(v, v.next, sizes[level + 1]));
      added := ListUnused(osize, w, c);
      level := level + 1;
      assert tree.Valid() && tree.rights == table.view.tree;
    }

    /** The last part: the unused new slots go on the free list, and the space is consistent again. */
    method ListUnused(osize: nat, ghost w: View, ghost c: int) returns (ghost added: seq<nat>)
      requires table.Is(Recounted(w)) && Growing(w, osize, c) && AllSettled(w, osize, c) && 0 < osize <= |w.slots|
      modifies table.slots, table`view
      ensures table.Valid() && SameRights(w, table.view) && Listed(w, table.view, osize, added)
      ensures table.view.held == {} && table.view.heldTree == {} && table.view.tree == w.tree
      ensures table.view.next == w.next && |table.view.slots| == |w.slots|
    {
      ghost var x;
      x, added := ThreadFree(table.slots, osize, w, c);
      GrowthDone(w, x, osize, c, added);
      table.view := Recounted(x);
    }

    /** The answers ipc_entry_alloc_name can give without allocating memory. */
    method AllocHere(n: Name) returns (r: Ref)
      requires Valid() && IsValid(n) && table.view.held == {} && table.view.heldTree == {}
      modifies table`view, table.slots, tree.tree, Elems(tree.tree.entries)`lchild, Elems(tree.tree.entries)`rchild
      ensures Valid() && SameRights(old(table.view), table.view) && tree.tree.entries == old(tree.tree.entries)
      ensures r != NoEntry ==> Answers(old(table.view), table.view, n, r) && (r.TreeRef? ==> r.entry in tree.tree.entries)
      ensures r == NoEntry ==> table.view == old(table.view) && Plantable(table.view, n)
      ensures r.TreeRef? ==> table.view == old(table.view)
      ensures InPlace(old(table.view), table.view)
    {
      Look();
      r := NoEntry;
      var i := Index(n);
      if 0 < i < table.slots.Length {
        SlotFacts(table.view, n);
        if table.slots[i].right.kind == None {
          var _ := table.Take(i, Gen(n));
          return TableEntry(i);
        } else if table.slots[i].gen == Gen(n) {
          return TableEntry(i);
        }
      }
      TreeAnswers(table.view, n);
      if table.total > 0 {
        r := TreeLookup(n);
      }
    }

    /** The end of ipc_entry_alloc_name: a new entry goes into the tree. */
    method Plant(n: Name, e: TreeEntry)
      requires Valid() && IsValid(n) && e.name == n && e.right == NO_RIGHT && Plantable(table.view, n)
      modifies table, table.slots, tree, tree.tree, Elems(tree.tree.entries)`lchild, Elems(tree.tree.entries)`rchild, {e}`lchild, {e}`rchild
      ensures Valid() && table.view == Planted(old(table.view), n) && SameRights(old(table.view), table.view)
      ensures Elems(tree.tree.entries) == old(Elems(tree.tree.entries)) + {e} && table.slots == old(table.slots)
    {
      Look();
      var collides := false;
      if table.slots.Length <= Index(n) < table.next {
        collides := tree.Collides(n);
      }
      table.Plant(n, collides);
      tree.Insert(e);
    }
  }

  /** The same rights in the same places. */
  ghost predicate InPlace(v: View, w: View) {
    |w.slots| == |v.slots| && w.tree == v.tree && forall i :: 0 <= i < |v.slots| ==> w.slots[i].right == v.slots[i].right
  }

  /** n denotes nothing, and its place is in the tree. */
  ghost predicate Plantable(v: View, n: Name) {
    && n !in v.tree && NULL !in v.tree && DEAD !in v.tree && v.RightOf(n) == NO_RIGHT
    && (0 < Index(n) < |v.slots| ==> v.Used(Index(n)) && v.slots[Index(n)].gen != Gen(n))
  }

  /** The answer to alloc_name: the entry that had a right under the name, or else a new one, held under it. */
  ghost predicate Answers(v: View, w: View, n: Name, r: Ref) {
    if v.RightOf(n).kind != None then
      w.held == {} && w.heldTree == {} && match PlaceOf(r) {
        case Nowhere => false
        case InTable(i) => 0 < i == Index(n) < |w.slots| && w.slots[i].gen == Gen(n) && w.slots[i].right == v.RightOf(n)
        case InTree(m) => m == n && n in w.tree && w.tree[n] == v.RightOf(n)
      }
    else
      HeldAt(w, n, PlaceOf(r)) && w.held == (if r.TableEntry? then {Index(n)} else {}) && w.heldTree == if r.TreeRef? then {n} else {}
  }

  lemma GotRights(v: Consistent)
    requires v.free != [] && v.slots != []
    ensures SameRights(v, Got(v))
  {
    SpaceView.Look(v);
    GotInv(v);
  }

  lemma GotName(v: Consistent)
    requires v.free != [] && v.slots != [] && v.free[0] < |v.slots| <= INDICES && v.held == {}
    ensures IsValid(Issued(v)) && v.RightOf(Issued(v)) == NO_RIGHT
    ensures HeldAt(Got(v), Issued(v), InTable(Index(Issued(v)))) && Got(v).held == {Index(Issued(v))}
  {
    SpaceView.Look(v);
    IssuedFresh(v);
    FirstOfFree(v);
  }

  lemma StartGrowth(v: Consistent, nnext: nat)
    requires v.held == {} && v.heldTree == {} && |v.slots| <= v.next <= nnext < INDICES
    ensures var w := Extended(v, v.next, nnext);
      && w.Sized() && 0 < |v.slots| && (Growing(w, |v.slots|, |v.slots| * GENERATIONS) == true) && SameRights(v, w)
      && (w.total == 0 ==> AllSettled(w, |v.slots|, |v.slots| * GENERATIONS) && w == Recounted(w))
  {
    SpaceView.Look(v);
    ExtendedGrowing(v, v.next, nnext);
    if v.total == 0 {
      NothingToMove(v, v.next, nnext);
    }
  }

  /** An entry held under the name n, or looked up by it, is a used slot of that name or a tree entry of it. */
  lemma EntryFacts(v: Consistent, n: Name, p: Place)
    requires HeldAt(v, n, p) || (p != Nowhere && n != HIDDEN && p == Looked(v, n))
    ensures p.InTable? ==> 0 < p.index == Index(n) < |v.slots| && v.Used(p.index) && n == Make(p.index, v.slots[p.index].gen)
    ensures p.InTree? ==> p.name == n && n in v.tree
  {
    SpaceView.Look(v);
    MakeOfParts(n);
  }

  ghost predicate HeldAt(v: View, n: Name, p: Place) {
    match p
    case Nowhere => false
    case InTable(i) => i in v.held && i == Index(n) && i < |v.slots| && v.slots[i].gen == Gen(n)
    case InTree(m) => m == n && n in v.heldTree
  }
}
