/** Reverse lookup for one space: its local hash table, its share of the global one, and is_tree_hash. */
module ReverseTable {
  import opened MachPort
  import opened SpaceView
  import opened GlobalHash
  import Local = ReverseHash

  function ObjectsOf(slots: seq<Slot>): (objs: seq<Object>)
    ensures |objs| == |slots| && forall i :: 0 <= i < |slots| ==> objs[i] == slots[i].right.obj
  {
    seq(|slots|, i requires 0 <= i < |slots| => slots[i].right.obj)
  }

  /** The pure-send entries of the table, and those of the tree with their objects. */
  ghost function SendSlots(slots: seq<Slot>): set<nat> {
    set i | 0 <= i < |slots| && slots[i].right.kind == Send
  }

  ghost function SendNames(tree: map<Name, Right>): map<Name, Object> {
    map n | n in tree && tree[n].kind == Send :: tree[n].obj
  }

  /** Always true: an invariant stated to hold wherever this is mentioned is passed around whole elsewhere. */
  ghost predicate InsideLocal(s: seq<nat>, u: nat) {
    true
  }

  ghost predicate InsideGlobal(global: GlobalTable, u: nat) {
    true
  }

  ghost predicate InsideReverse(r: Reverse, u: nat) {
    true
  }

  /** The local table s holds exactly the indices of x. */
  ghost predicate LocalIs(s: seq<nat>, slots: seq<Slot>, hash: Object -> nat, x: set<nat>) {
    forall u: nat {:trigger InsideLocal(s, u)} :: InsideLocal(s, u) ==>
      |s| == |slots| && Local.Probing(s, ObjectsOf(slots), hash) && Local.Contents(s) == x
  }

  /** The global table holds, for the space, exactly the names of g. */
  ghost predicate GlobalIs(global: GlobalTable, id: nat, g: map<Name, Object>)
    reads global.buckets
  {
    forall u: nat {:trigger InsideGlobal(global, u)} :: InsideGlobal(global, u) ==>
      global.Valid() && forall n, o :: global.Has(Member(id, o, n)) <==> n in g && g[n] == o
  }

  /** Only the objects of hashed entries matter. */
  lemma LocalFrame(s: seq<nat>, slots: seq<Slot>, slots': seq<Slot>, hash: Object -> nat, x: set<nat>)
    requires LocalIs(s, slots, hash, x) && |slots'| == |slots|
    requires forall i :: i in x && i < |slots| ==> slots'[i].right.obj == slots[i].right.obj
    ensures LocalIs(s, slots', hash, x)
  {
    assert InsideLocal(s, 0);
    var objs, objs' := ObjectsOf(slots), ObjectsOf(slots');
    forall k | 0 <= k < |s| && s[k] != 0
      ensures Local.Fits(s, objs') && Local.HomeOf(s, objs', hash, k) == Local.HomeOf(s, objs, hash, k)
    {
      assert s[k] in Local.Contents(s);
    }
    assert Local.Probing(s, objs', hash);
  }

  class Reverse {
    var local: array<nat>     // the ie_index fields of is_table
    var treeHash: nat         // is_tree_hash
    const global: GlobalTable
    const id: nat             // the space
    const hash: Object -> nat

    /** The tables hold the indices of x for entries in slots, and the names of g for entries in the tree. */
    ghost predicate Hold(slots: seq<Slot>, x: set<nat>, g: map<Name, Object>)
      reads this, local, global.buckets
    {
      LocalIs(local[..], slots, hash, x) && GlobalIs(global, id, g) && treeHash == |g|
    }

    /** Hold, passed around whole. */
    ghost predicate Is(slots: seq<Slot>, x: set<nat>, g: map<Name, Object>)
      reads this, local, global.buckets
    {
      forall u: nat {:trigger InsideReverse(this, u)} :: InsideReverse(this, u) ==> Hold(slots, x, g)
    }

    lemma Look(slots: seq<Slot>, x: set<nat>, g: map<Name, Object>)
      requires Is(slots, x, g)
      ensures Hold(slots, x, g)
    {
      assert InsideReverse(this, 0);
    }

    lemma Frame(slots: seq<Slot>, slots': seq<Slot>, x: set<nat>, g: map<Name, Object>)
      requires Is(slots, x, g) && |slots'| == |slots|
      requires forall i :: i in x && i < |slots| ==> slots'[i].right.obj == slots[i].right.obj
      ensures Is(slots', x, g)
    {
      Look(slots, x, g);
      LocalFrame(local[..], slots, slots', hash, x);
    }

    constructor (size: nat, global: GlobalTable, id: nat, hash: Object -> nat, ghost slots: seq<Slot>)
      requires size > 0 && |slots| == size && GlobalIs(global, id, map[])
      ensures Is(slots, {}, map[]) && fresh(local) && this.global == global && this.id == id && this.hash == hash
    {
      local := new nat[size](i => 0);
      treeHash := 0;
      this.global, this.id, this.hash := global, id, hash;
      new;
      Emptied(local[..], slots, hash);
    }

    /** ipc_hash_local_insert */
    method InsertLocal(slots: seq<Slot>, i: nat, ghost x: set<nat>, ghost g: map<Name, Object>)
      requires Is(slots, x, g) && 0 < i < |slots| && i !in x
      modifies local
      ensures Is(slots, x + {i}, g)
    {
      Look(slots, x, g);
      assert InsideLocal(local[..], 0);
      Local.Insert(local, ObjectsOf(slots), hash, slots[i].right.obj, i);
    }

    /** ipc_hash_local_delete */
    method DeleteLocal(slots: seq<Slot>, i: nat, ghost x: set<nat>, ghost g: map<Name, Object>)
      requires Is(slots, x, g) && i < |slots| && i in x
      modifies local
      ensures Is(slots, x - {i}, g)
    {
      Look(slots, x, g);
      assert InsideLocal(local[..], 0);
      Local.Delete(local, ObjectsOf(slots), hash, slots[i].right.obj, i);
    }

    /** ipc_hash_global_insert */
    method InsertGlobal(n: Name, o: Object, ghost slots: seq<Slot>, ghost x: set<nat>, ghost g: map<Name, Object>)
      requires Is(slots, x, g) && n !in g
      modifies `treeHash, global.buckets
      ensures Is(slots, x, g[n := o]) && forall m: Member :: m.space != id ==> global.Has(m) == old(global.Has(m))
    {
      Look(slots, x, g);
      assert InsideGlobal(global, 0);
      treeHash := treeHash + 1;
      global.Insert(Member(id, o, n));
    }

    /** ipc_hash_global_delete */
    method DeleteGlobal(n: Name, o: Object, ghost slots: seq<Slot>, ghost x: set<nat>, ghost g: map<Name, Object>)
      requires Is(slots, x, g) && n in g && g[n] == o
      modifies `treeHash, global.buckets
      ensures Is(slots, x, g - {n}) && forall m: Member :: m.space != id ==> global.Has(m) == old(global.Has(m))
    {
      Look(slots, x, g);
      assert InsideGlobal(global, 0);
      assert n in g.Keys;
      treeHash := treeHash - 1;
      global.Delete(Member(id, o, n));
    }

    /** ipc_hash_delete, for an entry that is about to change. */
    method DropLocal(slots: seq<Slot>, i: nat, ghost x: set<nat>, ghost g: map<Name, Object>)
      requires Is(slots, x, g) && i < |slots| && (i in x <==> slots[i].right.kind == Send)
      modifies local
      ensures Is(slots, x - {i}, g)
    {
      if slots[i].right.kind == Send {
        DeleteLocal(slots, i, x, g);
      } else {
        assert x - {i} == x;
      }
    }

    method DropGlobal(n: Name, right: Right, ghost slots: seq<Slot>, ghost x: set<nat>, ghost g: map<Name, Object>)
      requires Is(slots, x, g) && (n in g <==> right.kind == Send) && (n in g ==> g[n] == right.obj)
      modifies `treeHash, global.buckets
      ensures Is(slots, x, g - {n}) && forall m: Member :: m.space != id ==> global.Has(m) == old(global.Has(m))
    {
      if right.kind == Send {
        DeleteGlobal(n, right.obj, slots, x, g);
      } else {
        assert g - {n} == g;
      }
    }

    /** ipc_hash_insert, for an entry that has changed. */
    method AddLocal(slots: seq<Slot>, i: nat, ghost x: set<nat>, ghost g: map<Name, Object>)
      requires Is(slots, x, g) && 0 < i < |slots| && i !in x
      modifies local
      ensures Is(slots, if slots[i].right.kind == Send then x + {i} else x, g)
    {
      if slots[i].right.kind == Send {
        InsertLocal(slots, i, x, g);
      }
    }

    method AddGlobal(n: Name, right: Right, ghost slots: seq<Slot>, ghost x: set<nat>, ghost g: map<Name, Object>)
      requires Is(slots, x, g) && n !in g
      modifies `treeHash, global.buckets
      ensures Is(slots, x, if right.kind == Send then g[n := right.obj] else g)
      ensures forall m: Member :: m.space != id ==> global.Has(m) == old(global.Has(m))
    {
      if right.kind == Send {
        InsertGlobal(n, right.obj, slots, x, g);
      }
    }

    /** The right of the tree entry n changes from was to right. */
    method ChangeGlobal(n: Name, was: Right, right: Right, ghost slots: seq<Slot>, ghost x: set<nat>, ghost g: map<Name, Object>)
      requires Is(slots, x, g) && (n in g <==> was.kind == Send) && (n in g ==> g[n] == was.obj)
      modifies `treeHash, global.buckets
      ensures Is(slots, x, if right.kind == Send then (g - {n})[n := right.obj] else g - {n})
      ensures forall m: Member :: m.space != id ==> global.Has(m) == old(global.Has(m))
    {
      DropGlobal(n, was, slots, x, g);
      AddGlobal(n, right, slots, x, g - {n});
    }

    /** ipc_hash_lookup */
    method Lookup(slots: seq<Slot>, o: Object, ghost x: set<nat>, ghost g: map<Name, Object>) returns (found: bool, name: Name)
      requires Is(slots, x, g) && |slots| <= INDICES && forall i :: 0 <= i < |slots| ==> slots[i].gen < GENERATIONS
      modifies global.buckets
      ensures Is(slots, x, g) && forall m: Member :: global.Has(m) == old(global.Has(m))
      ensures found ==> (name in g && g[name] == o) || (Index(name) in x && Index(name) < |slots| && slots[Index(name)].right.obj == o && Gen(name) == slots[Index(name)].gen)
      ensures !found ==> (forall i :: i in x && i < |slots| ==> slots[i].right.obj != o) && forall n :: n in g ==> g[n] != o
    {
      Look(slots, x, g);
      assert InsideLocal(local[..], 0) && InsideGlobal(global, 0);
      var index := Local.Lookup(local, ObjectsOf(slots), hash, o);
      if index != 0 {
        return true, Make(index, slots[index].gen);
      }
      found, name := false, NULL;
      if treeHash > 0 {
        found, name := global.Lookup(id, o);
        assert !found ==> forall n :: n in g ==> global.Has(Member(id, g[n], n));
      } else {
        assert g.Keys == {};
      }
    }

    /** A new, empty local table for the slots. */
    method Renew(slots: seq<Slot>, ghost slots0: seq<Slot>, ghost x: set<nat>, ghost g: map<Name, Object>)
      requires Is(slots0, x, g) && 0 < |slots|
      modifies `local
      ensures fresh(local) && Is(slots, {}, g)
    {
      Look(slots0, x, g);
      local := new nat[|slots|](i => 0);
      Emptied(local[..], slots, hash);
    }

    /** The hashing of old entries in ipc_entry_grow_table, into a new table. */
    method RehashOld(slots: seq<Slot>, osize: nat, ghost slots0: seq<Slot>, ghost x: set<nat>, ghost g: map<Name, Object>)
      requires Is(slots0, x, g) && osize <= |slots| && 0 < |slots| && slots[0].right.kind != Send
      modifies `local
      ensures fresh(local) && Is(slots, SendSlots(slots[..osize]), g)
    {
      Renew(slots, slots0, x, g);
      var i := 0;
      ghost var xs := {};
      while i < osize
        invariant i <= osize && fresh(local) && xs == SendSlots(slots[..i]) && Is(slots, xs, g)
        modifies local
      {
        SendStep(slots, i);
        if slots[i].right.kind == Send {
          InsertLocal(slots, i, xs, g);
          xs := xs + {i};
        }
        i := i + 1;
      }
    }

    /** The hashing of entries as they move from the tree into the table. */
    method RehashMoved(slots: seq<Slot>, gone: seq<Name>, ghost x: set<nat>, ghost g: map<Name, Object>)
      requires Is(slots, x, g) && Movable(slots, gone, x, g)
      modifies local, `treeHash, global.buckets
      ensures Is(slots, x + SendIndices(slots, gone), g - SendGone(slots, gone)) == true
      ensures forall m: Member :: m.space != id ==> global.Has(m) == old(global.Has(m))
    {
      var k := 0;
      ghost var xs, gs := x, g;
      while k < |gone|
        invariant k <= |gone| && Is(slots, xs, gs) && (xs, gs) == Shifted(slots, gone, k, x, g)
        invariant forall m: Member :: m.space != id ==> global.Has(m) == old(global.Has(m))
      {
        NextShift(slots, gone, k, x, g);
        if slots[Index(gone[k])].right.kind == Send {
          MoveHash(slots, gone[k], xs, gs);
          xs, gs := xs + {Index(gone[k])}, gs - {gone[k]};
        }
        k := k + 1;
      }
      ShiftedSets(slots, gone, |gone|, x, g);
      assert gone[..|gone|] == gone;
    }

    /** An entry leaves the global table for the local one. */
    method MoveHash(slots: seq<Slot>, n: Name, ghost x: set<nat>, ghost g: map<Name, Object>)
      requires Is(slots, x, g) && 0 < Index(n) < |slots| && Index(n) !in x && n in g && g[n] == slots[Index(n)].right.obj
      modifies local, `treeHash, global.buckets
      ensures Is(slots, x + {Index(n)}, g - {n})
      ensures forall m: Member :: m.space != id ==> global.Has(m) == old(global.Has(m))
    {
      DeleteGlobal(n, slots[Index(n)].right.obj, slots, x, g);
      InsertLocal(slots, Index(n), x, g - {n});
    }
  }

  lemma SendStep(slots: seq<Slot>, i: nat)
    requires i < |slots|
    ensures SendSlots(slots[..i + 1]) == SendSlots(slots[..i]) + if slots[i].right.kind == Send then {i} else {}
    ensures i !in SendSlots(slots[..i])
  {
  }

  /** Each name listed has a slot of its own, not hashed yet, and is hashed globally when it is a send right. */
  ghost predicate Movable(slots: seq<Slot>, gone: seq<Name>, x: set<nat>, g: map<Name, Object>) {
    && (forall k :: 0 <= k < |gone| ==> 0 < Index(gone[k]) < |slots| && Index(gone[k]) !in x)
    && (forall j, k :: 0 <= j < k < |gone| ==> Index(gone[j]) != Index(gone[k]))
    && (forall k :: 0 <= k < |gone| && slots[Index(gone[k])].right.kind == Send ==> gone[k] in g && g[gone[k]] == slots[Index(gone[k])].right.obj)
  }

  ghost function SendGone(slots: seq<Slot>, gone: seq<Name>): set<Name> {
    set n | n in gone && Index(n) < |slots| && slots[Index(n)].right.kind == Send
  }

  ghost function SendIndices(slots: seq<Slot>, gone: seq<Name>): set<nat> {
    set n | n in SendGone(slots, gone) :: Index(n)
  }

  lemma GoneStep(slots: seq<Slot>, gone: seq<Name>, k: nat, x: set<nat>, g: map<Name, Object>)
    requires k < |gone| && Movable(slots, gone, x, g)
    ensures Index(gone[k]) < |slots|
    ensures var more := slots[Index(gone[k])].right.kind == Send;
      && x + SendIndices(slots, gone[..k + 1]) == (if more then x + SendIndices(slots, gone[..k]) + {Index(gone[k])} else x + SendIndices(slots, gone[..k]))
      && g - SendGone(slots, gone[..k + 1]) == (if more then g - SendGone(slots, gone[..k]) - {gone[k]} else g - SendGone(slots, gone[..k]))
    ensures 0 < Index(gone[k]) && Index(gone[k]) !in x + SendIndices(slots, gone[..k])
    ensures slots[Index(gone[k])].right.kind == Send ==> gone[k] in g - SendGone(slots, gone[..k]) && g[gone[k]] == slots[Index(gone[k])].right.obj
  {
    assert gone[..k + 1] == gone[..k] + [gone[k]];
    assert SendGone(slots, gone[..k + 1]) == SendGone(slots, gone[..k]) + (if slots[Index(gone[k])].right.kind == Send then {gone[k]} else {});
  }

  /** The hashed entries after the first k names have moved. */
  ghost function Shifted(slots: seq<Slot>, gone: seq<Name>, k: nat, x: set<nat>, g: map<Name, Object>): (set<nat>, map<Name, Object>)
    requires k <= |gone| && Movable(slots, gone, x, g)
  {
    if k == 0 then (x, g) else
      var (xs, gs) := Shifted(slots, gone, k - 1, x, g);
      if slots[Index(gone[k - 1])].right.kind == Send then (xs + {Index(gone[k - 1])}, gs - {gone[k - 1]}) else (xs, gs)
  }

  lemma {:induction false} ShiftedSets(slots: seq<Slot>, gone: seq<Name>, k: nat, x: set<nat>, g: map<Name, Object>)
    requires k <= |gone| && Movable(slots, gone, x, g)
    ensures Shifted(slots, gone, k, x, g) == (x + SendIndices(slots, gone[..k]), g - SendGone(slots, gone[..k]))
  {
    if k == 0 {
      assert SendGone(slots, gone[..0]) == {} && SendIndices(slots, gone[..0]) == {};
      assert x + SendIndices(slots, gone[..0]) == x && g - SendGone(slots, gone[..0]) == g;
    } else {
      ShiftedSets(slots, gone, k - 1, x, g);
      GoneStep(slots, gone, k - 1, x, g);
    }
  }

  lemma NextShift(slots: seq<Slot>, gone: seq<Name>, k: nat, x: set<nat>, g: map<Name, Object>)
    requires k < |gone| && Movable(slots, gone, x, g)
    ensures var (xs, gs) := Shifted(slots, gone, k, x, g);
      && 0 < Index(gone[k]) < |slots| && Index(gone[k]) !in xs
      && (slots[Index(gone[k])].right.kind == Send ==> gone[k] in gs && gs[gone[k]] == slots[Index(gone[k])].right.obj)
  {
    ShiftedSets(slots, gone, k, x, g);
    GoneStep(slots, gone, k, x, g);
  }

  lemma Emptied(s: seq<nat>, slots: seq<Slot>, hash: Object -> nat)
    requires |s| == |slots| > 0 && forall k :: 0 <= k < |s| ==> s[k] == 0
    ensures LocalIs(s, slots, hash, {})
  {
    assert Local.Contents(s) == {};
    assert Local.Probing(s, ObjectsOf(slots), hash);
  }
}
