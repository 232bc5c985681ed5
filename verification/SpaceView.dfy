/**
 A capability space as a value: the entry table with the free list threaded through it,
 the overflow tree, the collision bits and the cached counters, and what keeps them consistent.
 */
module SpaceView {
  import opened MachPort

  /** One entry of is_table.  ie_next and ie_request share a word in the source; here the request is in the right. */
  datatype Slot = Slot(gen: nat, collision: bool, right: Right, next: nat)

  /** The links from slot 0 run through the slots of free, in that order, each once. */
  ghost predicate Chain(slots: seq<Slot>, free: seq<nat>) {
    && |slots| > 0
    && (forall k :: 0 <= k < |free| ==> 0 < free[k] < |slots|)
    && (forall j, k :: 0 <= j < k < |free| ==> free[j] != free[k])
    && slots[0].next == At(free, 0)
    && (forall k {:trigger slots[free[k]]} :: 0 <= k < |free| ==> slots[free[k]].next == At(free, k + 1))
  }

  /** The k-th slot of the free list; 0 ends it. */
  function At(free: seq<nat>, k: nat): nat {
    if k < |free| then free[k] else 0
  }

  lemma ChainPop(slots: seq<Slot>, free: seq<nat>, s: Slot)
    requires Chain(slots, free) && free != []
    ensures Chain(slots[0 := slots[0].(next := slots[free[0]].next)][free[0] := s], free[1..])
    ensures forall i :: i in free[1..] <==> i in free && i != free[0]
  {
    var rest := free[1..];
    assert forall k :: 0 <= k < |rest| ==> rest[k] == free[k + 1];
    assert forall k: nat :: At(rest, k) == At(free, k + 1);
  }

  lemma ChainPush(slots: seq<Slot>, free: seq<nat>, i: nat, s: Slot)
    requires Chain(slots, free) && 0 < i < |slots| && i !in free && s.next == slots[0].next
    ensures Chain(slots[i := s][0 := slots[0].(next := i)], [i] + free)
  {
    var more := [i] + free;
    assert forall k :: 0 <= k < |free| ==> more[k + 1] == free[k];
    assert forall k: nat :: At(more, k + 1) == At(free, k);
  }

  ghost function Without(free: seq<nat>, k: nat): (rest: seq<nat>)
    requires k < |free|
    ensures |rest| == |free| - 1 && forall j :: 0 <= j < |rest| ==> rest[j] == if j < k then free[j] else free[j + 1]
  {
    free[..k] + free[k + 1..]
  }

  lemma WithoutElems(free: seq<nat>, k: nat)
    requires k < |free| && forall j, k :: 0 <= j < k < |free| ==> free[j] != free[k]
    ensures forall i :: i in Without(free, k) <==> i in free && i != free[k]
  {
    forall i | i in free && i != free[k]
      ensures i in Without(free, k)
    {
      var j :| 0 <= j < |free| && free[j] == i;
      assert Without(free, k)[if j < k then j else j - 1] == i;
    }
  }

  /** Takes the k-th slot out of the middle of the list. */
  ghost function Unlinked(slots: seq<Slot>, free: seq<nat>, k: nat, s: Slot): seq<Slot>
    requires k < |free| && free[k] < |slots| && (k > 0 ==> free[k - 1] < |slots|)
  {
    var prev := if k == 0 then 0 else free[k - 1];
    slots[prev := slots[prev].(next := slots[free[k]].next)][free[k] := s]
  }

  lemma ChainUnlink(slots: seq<Slot>, free: seq<nat>, k: nat, s: Slot)
    requires Chain(slots, free) && k < |free|
    ensures Chain(Unlinked(slots, free, k, s), Without(free, k))
  {
    UnlinkedLinks(slots, free, k, s);
    UnlinkedHead(slots, free, k, s);
    WithoutApart(free, k, |slots|);
  }

  lemma WithoutApart(free: seq<nat>, k: nat, size: nat)
    requires k < |free| && forall j, k :: 0 <= j < k < |free| ==> free[j] != free[k]
    requires forall k :: 0 <= k < |free| ==> 0 < free[k] < size
    ensures var rest := Without(free, k);
      (forall k :: 0 <= k < |rest| ==> 0 < rest[k] < size) && forall j, k :: 0 <= j < k < |rest| ==> rest[j] != rest[k]
  {
  }

  lemma UnlinkedLinks(slots: seq<Slot>, free: seq<nat>, k: nat, s: Slot)
    requires Chain(slots, free) && k < |free|
    ensures var rest, slots' := Without(free, k), Unlinked(slots, free, k, s);
      |slots'| == |slots| && forall j {:trigger slots'[rest[j]]} :: 0 <= j < |rest| ==> rest[j] < |slots| && slots'[rest[j]].next == At(rest, j + 1)
  {
    var rest, slots' := Without(free, k), Unlinked(slots, free, k, s);
    forall j | 0 <= j < |rest|
      ensures rest[j] < |slots| && slots'[rest[j]].next == At(rest, j + 1)
    {
      UnlinkedNext(slots, free, k, s, j);
    }
  }

  lemma UnlinkedHead(slots: seq<Slot>, free: seq<nat>, k: nat, s: Slot)
    requires Chain(slots, free) && k < |free|
    ensures Unlinked(slots, free, k, s)[0].next == At(Without(free, k), 0)
  {
    assert free[k] != 0;
    if k == 0 {
      assert slots[free[0]].next == At(free, 1);
    }
  }

  lemma UnlinkedNext(slots: seq<Slot>, free: seq<nat>, k: nat, s: Slot, j: nat)
    requires Chain(slots, free) && k < |free| && j < |free| - 1
    ensures Unlinked(slots, free, k, s)[Without(free, k)[j]].next == At(Without(free, k), j + 1)
  {
    var i := if j < k then j else j + 1;
    assert Without(free, k)[j] == free[i] && free[i] != free[k];
    assert slots[free[i]].next == At(free, i + 1) && slots[free[k]].next == At(free, k + 1);
    if k > 0 && i != k - 1 {
      assert free[i] != free[k - 1];
    }
  }

  /** Writes that keep the links keep the chain. */
  lemma ChainFrame(slots: seq<Slot>, slots': seq<Slot>, free: seq<nat>)
    requires Chain(slots, free) && |slots'| >= |slots| && slots'[0].next == slots[0].next
    requires forall i :: 0 < i < |slots| && i in free ==> slots'[i].next == slots[i].next
    ensures Chain(slots', free)
  {
  }

  datatype View = View(
    slots: seq<Slot>,           // is_table
    tree: map<Name, Right>,     // is_tree
    free: seq<nat>,             // the free list, from slot 0
    held: set<nat>,             // slots allocated under the space lock, not yet given a right
    heldTree: set<Name>,        // names of tree entries likewise
    total: nat,                 // is_tree_total
    small: nat,                 // is_tree_small
    next: nat                   // is_table_next->its_size
  ) {
    ghost predicate Sized() {
      && 0 < |slots| <= next < INDICES
      && forall i :: 0 <= i < |slots| ==> slots[i].gen < GENERATIONS
    }

    ghost predicate Used(i: nat)
      requires i < |slots|
    {
      slots[i].right.kind != None || i in held
    }

    /** Slot 0 heads the free list and is never used; the list holds exactly the other unused slots. */
    ghost predicate FreeExact()
      requires Sized()
    {
      && slots[0].right == NO_RIGHT && slots[0].gen == GENERATIONS - 1 && 0 !in held
      && Chain(slots, free)
      && (forall i :: 0 < i < |slots| ==> (i in free <==> !Used(i)))
      && (forall i :: 0 < i < |slots| && !Used(i) ==> slots[i].right == NO_RIGHT)
    }

    /** Names of the tree are valid; one whose index is in the table collides with a used slot of another generation. */
    ghost predicate TreeNames()
      requires Sized()
    {
      && (forall n :: n in tree ==> IsValid(n))
      && (forall n :: n in tree && 0 < Index(n) < |slots| ==> Used(Index(n)) && slots[Index(n)].gen != Gen(n))
    }

    /** A slot's collision bit says whether the tree holds a name of its index. */
    ghost predicate Collisions()
      requires Sized()
    {
      forall i :: 0 <= i < |slots| ==> (slots[i].collision <==> HasIndex(tree.Keys, i))
    }

    /** An entry is held exactly when it is allocated without a right. */
    ghost predicate Held()
      requires Sized()
    {
      && (forall i :: i in held ==> i < |slots| && slots[i].right == NO_RIGHT)
      && (forall n :: n in tree ==> (tree[n].kind == None <==> n in heldTree))
      && (forall n :: n in heldTree ==> n in tree && tree[n] == NO_RIGHT)
    }

    /** The counters: the size of the tree, and how many indices just above the table it holds. */
    ghost predicate Counted()
      requires Sized()
    {
      total == |tree| && small == |IndicesIn(tree.Keys, |slots|, next)|
    }

    ghost predicate Inv() {
      Sized() && FreeExact() && TreeNames() && Collisions() && Held() && Counted()
    }

    /** The right a name denotes; NO_RIGHT if none. */
    ghost function RightOf(n: Name): Right {
      if 0 < Index(n) < |slots| && slots[Index(n)].gen == Gen(n) && slots[Index(n)].right.kind != None then slots[Index(n)].right
      else if n in tree then tree[n]
      else NO_RIGHT
    }
  }

  ghost predicate HasIndex(names: set<Name>, i: nat) {
    exists n :: n in names && Index(n) == i
  }

  ghost function IndicesIn(names: set<Name>, lo: nat, hi: nat): set<nat> {
    set n | n in names && lo <= Index(n) < hi :: Index(n)
  }

  /** Two views denote the same rights. */
  ghost predicate SameRights(v: View, w: View) {
    forall n: Name :: v.RightOf(n) == w.RightOf(n)
  }

  /** Steps that leave the tree, the collision bits and the slots that collide alone. */
  ghost predicate TreeKept(v: View, w: View) {
    && w.tree == v.tree && w.heldTree == v.heldTree && w.total == v.total && w.small == v.small && w.next == v.next
    && |w.slots| == |v.slots|
    && (forall i :: 0 <= i < |v.slots| ==> w.slots[i].collision == v.slots[i].collision)
    && (forall i :: 0 < i < |v.slots| && v.slots[i].collision ==> w.slots[i].gen == v.slots[i].gen && w.Used(i))
  }

  lemma TreeKeptInv(v: View, w: View)
    requires v.Inv() && w.Sized() && TreeKept(v, w)
    ensures w.TreeNames() && w.Collisions() && w.Counted()
  {
    forall n | n in w.tree && 0 < Index(n) < |w.slots|
      ensures w.Used(Index(n)) && w.slots[Index(n)].gen != Gen(n)
    {
      assert HasIndex(v.tree.Keys, Index(n));
    }
  }

  /** A slot off the free list carries no collision bit. */
  lemma UnusedApart(v: View, i: nat)
    requires v.Inv() && 0 < i < |v.slots| && !v.Used(i)
    ensures !v.slots[i].collision && v.slots[i].right == NO_RIGHT
    ensures forall n :: n in v.tree ==> Index(n) != i
  {
    assert forall n :: n in v.tree && Index(n) == i ==> HasIndex(v.tree.Keys, i);
  }

  /** Slot i leaves the free list and is held. */
  lemma FreeTaken(v: View, w: View, i: nat)
    requires v.Sized() && v.FreeExact() && w.Sized() && |w.slots| == |v.slots| && 0 < i < |v.slots|
    requires w.held == v.held + {i} && w.slots[0].(next := 0) == v.slots[0].(next := 0)
    requires forall j :: 0 < j < |v.slots| && j != i ==> w.slots[j].right == v.slots[j].right
    requires Chain(w.slots, w.free) && forall j :: j in w.free <==> j in v.free && j != i
    ensures w.FreeExact()
  {
    assert forall j :: 0 < j < |v.slots| && j != i ==> (w.Used(j) <==> v.Used(j));
  }

  lemma HeldSlot(v: View, w: View, i: nat)
    requires v.Sized() && v.Held() && w.Sized() && |w.slots| == |v.slots| && 0 < i < |v.slots|
    requires w.held == v.held + {i} && w.heldTree == v.heldTree && w.tree == v.tree
    requires forall j :: 0 <= j < |v.slots| && j != i ==> w.slots[j].right == v.slots[j].right
    requires w.slots[i].right == NO_RIGHT
    ensures w.Held()
  {
  }

  // ------------------------------------------------------------ ipc_entry_get

  /** A slot taken for a new entry: a new generation, no request. */
  function Taken(s: Slot, gen: nat): Slot {
    s.(gen := gen, next := 0)
  }

  /** Takes the first slot off the free list and gives it the next generation. */
  ghost function Got(v: View): View
    requires v.free != [] && v.slots != []
  {
    v.(slots := Popped(v.slots), free := v.free[1..], held := v.held + {v.free[0]})
  }

  ghost function Popped(slots: seq<Slot>): (s: seq<Slot>)
    requires slots != []
    ensures |s| == |slots|
  {
    var i := slots[0].next;
    if i >= |slots| then slots else
      slots[0 := slots[0].(next := slots[i].next)][i := Taken(slots[i], (slots[i].gen + 1) % GENERATIONS)]
  }

  /** What the code reads off slot 0. */
  lemma FirstOfFree(v: View)
    requires v.Inv()
    ensures (v.slots[0].next != 0) == (v.free != [])
    ensures v.free != [] ==> v.slots[0].next == v.free[0] && 0 < v.free[0] < |v.slots| && v.slots[v.free[0]].gen < GENERATIONS
  {
  }

  lemma GotFree(v: View)
    requires v.Inv() && v.free != []
    ensures Got(v).Sized() && Got(v).FreeExact() && Got(v).Held() && TreeKept(v, Got(v))
  {
    var i := v.free[0];
    GotChain(v);
    GotSlots(v);
    FreeTaken(v, Got(v), i);
    HeldSlot(v, Got(v), i);
  }

  lemma GotChain(v: View)
    requires v.Inv() && v.free != []
    ensures Chain(Got(v).slots, Got(v).free) && forall j :: j in Got(v).free <==> j in v.free && j != v.free[0]
  {
    var i := v.free[0];
    ChainPop(v.slots, v.free, Taken(v.slots[i], (v.slots[i].gen + 1) % GENERATIONS));
  }

  lemma GotSlots(v: View)
    requires v.Inv() && v.free != []
    ensures var w, i := Got(v), v.free[0];
      && w.Sized() && TreeKept(v, w) && 0 < i < |v.slots| && w.slots[i].right == NO_RIGHT
      && w.slots[0].(next := 0) == v.slots[0].(next := 0)
      && forall j :: 0 <= j < |v.slots| && j != i ==> w.slots[j].right == v.slots[j].right
  {
    assert v.free[0] in v.free;
    UnusedApart(v, v.free[0]);
  }

  lemma GotInv(v: View)
    requires v.Inv() && v.free != []
    ensures Got(v).Inv() && SameRights(v, Got(v))
  {
    GotFree(v);
    TreeKeptInv(v, Got(v));
    assert v.free[0] in v.free;
    UnusedApart(v, v.free[0]);
    SlotRewritten(v, Got(v), v.free[0]);
  }

  /** The name ipc_entry_get issues. */
  ghost function Issued(v: View): Name
    requires v.free != [] && v.free[0] < |v.slots| <= INDICES
  {
    Make(v.free[0], (v.slots[v.free[0]].gen + 1) % GENERATIONS)
  }

  /** It is neither null nor dead, and denoted nothing. */
  lemma IssuedFresh(v: View)
    requires v.Inv() && v.free != []
    ensures IsValid(Issued(v)) && v.RightOf(Issued(v)) == NO_RIGHT
  {
    assert v.free[0] in v.free;
    UnusedApart(v, v.free[0]);
  }

  /** Writes to one slot that denotes no right, before or after, and whose index the tree does not hold. */
  lemma SlotRewritten(v: View, w: View, i: nat)
    requires v.Sized() && w.Sized() && |w.slots| == |v.slots| && w.tree == v.tree && i < |v.slots|
    requires forall j :: 0 < j < |v.slots| && j != i ==> w.slots[j].gen == v.slots[j].gen && w.slots[j].right == v.slots[j].right
    requires v.slots[i].right == NO_RIGHT && w.slots[i].right == NO_RIGHT && forall n :: n in v.tree ==> Index(n) != i
    ensures SameRights(v, w)
  {
  }

  // ------------------------------------------------------------ ipc_entry_alloc_name

  /** Takes the slot of a given name, the k-th on the free list, out of the list. */
  ghost function TookSlot(v: View, k: nat, gen: nat): View
    requires k < |v.free| && v.free[k] < |v.slots| && (k > 0 ==> v.free[k - 1] < |v.slots|)
  {
    var i := v.free[k];
    v.(slots := Unlinked(v.slots, v.free, k, Taken(v.slots[i], gen)), free := Without(v.free, k), held := v.held + {i})
  }

  lemma TookSlotFree(v: View, k: nat, gen: nat)
    requires v.Inv() && k < |v.free| && gen < GENERATIONS
    ensures var w := TookSlot(v, k, gen); w.Sized() && w.FreeExact() && w.Held() && TreeKept(v, w)
  {
    var i, w := v.free[k], TookSlot(v, k, gen);
    assert i in v.free && !v.Used(i);
    UnusedApart(v, i);
    ChainUnlink(v.slots, v.free, k, Taken(v.slots[i], gen));
    WithoutElems(v.free, k);
    TookOthers(v, k, gen);
    FreeTaken(v, w, i);
    HeldSlot(v, w, i);
  }

  lemma TookOthers(v: View, k: nat, gen: nat)
    requires v.Inv() && k < |v.free| && gen < GENERATIONS
    ensures forall j :: 0 <= j < |v.slots| && j != v.free[k] ==> TookSlot(v, k, gen).slots[j].(next := 0) == v.slots[j].(next := 0)
  {
  }

  lemma TookSlotInv(v: View, k: nat, gen: nat)
    requires v.Inv() && k < |v.free| && gen < GENERATIONS
    ensures TookSlot(v, k, gen).Inv() && SameRights(v, TookSlot(v, k, gen))
  {
    var i, w := v.free[k], TookSlot(v, k, gen);
    TookSlotFree(v, k, gen);
    TreeKeptInv(v, w);
    assert i in v.free;
    UnusedApart(v, i);
    assert forall j :: 0 <= j < |v.slots| && j != i ==> w.slots[j].(next := 0) == v.slots[j].(next := 0);
    SlotRewritten(v, w, i);
  }

  /** The counters and collision bits around a change of the tree by one name n, given whether other names share its index. */
  function Marked(slots: seq<Slot>, n: Name, bit: bool): seq<Slot> {
    if Index(n) < |slots| then slots[Index(n) := slots[Index(n)].(collision := bit)] else slots
  }

  ghost predicate CountsSmall(v: View, n: Name) {
    |v.slots| <= Index(n) < v.next
  }

  /** Puts a new, held entry into the tree. */
  ghost function Planted(v: View, n: Name): View {
    v.(slots := Marked(v.slots, n, true),
       tree := v.tree[n := NO_RIGHT],
       heldTree := v.heldTree + {n},
       total := v.total + 1,
       small := v.small + if CountsSmall(v, n) && !HasIndex(v.tree.Keys, Index(n)) then 1 else 0)
  }

  lemma IndicesPlus(names: set<Name>, n: Name, lo: nat, hi: nat)
    requires n !in names
    ensures |IndicesIn(names + {n}, lo, hi)| == |IndicesIn(names, lo, hi)| + if lo <= Index(n) < hi && !HasIndex(names, Index(n)) then 1 else 0
  {
    var a, b := IndicesIn(names, lo, hi), IndicesIn(names + {n}, lo, hi);
    if lo <= Index(n) < hi {
      assert b == a + {Index(n)};
      assert HasIndex(names, Index(n)) <==> Index(n) in a;
    } else {
      assert b == a;
    }
  }

  /** Collision bits alone do not touch the free list or the held entries. */
  lemma MarkedFree(v: View, w: View, n: Name, bit: bool)
    requires v.Sized() && v.FreeExact() && w.Sized() && w.slots == Marked(v.slots, n, bit) && w.free == v.free && w.held == v.held
    ensures w.FreeExact()
  {
    ChainFrame(v.slots, w.slots, v.free);
    assert forall i :: 0 < i < |v.slots| ==> (w.Used(i) <==> v.Used(i));
  }

  /** Views that differ in the tree at the held name n alone, and in collision bits. */
  ghost predicate DiffersAt(v: View, w: View, n: Name, bit: bool) {
    && w.slots == Marked(v.slots, n, bit) && w.free == v.free && w.held == v.held && w.next == v.next
    && w.tree - {n} == v.tree - {n} && w.heldTree - {n} == v.heldTree - {n}
  }

  lemma DiffersRights(v: View, w: View, n: Name, bit: bool)
    requires v.Sized() && w.Sized() && DiffersAt(v, w, n, bit)
    requires (n in v.tree ==> v.tree[n] == NO_RIGHT) && (n in w.tree ==> w.tree[n] == NO_RIGHT)
    ensures SameRights(v, w)
  {
    forall m: Name
      ensures v.RightOf(m) == w.RightOf(m)
    {
      if m != n {
        assert m in v.tree <==> m in v.tree - {n};
        assert m in w.tree <==> m in w.tree - {n};
        assert m in v.tree ==> v.tree[m] == (v.tree - {n})[m] == w.tree[m];
      }
    }
  }

  lemma PlantedTree(v: View, n: Name)
    requires v.Sized() && v.TreeNames() && v.Collisions() && IsValid(n)
    requires 0 < Index(n) < |v.slots| ==> v.Used(Index(n)) && v.slots[Index(n)].gen != Gen(n)
    ensures Planted(v, n).Sized() && Planted(v, n).TreeNames() && Planted(v, n).Collisions()
  {
    var w := Planted(v, n);
    assert w.tree.Keys == v.tree.Keys + {n};
    forall i | 0 <= i < |w.slots|
      ensures w.slots[i].collision <==> HasIndex(w.tree.Keys, i)
    {
      HasIndexPlus(v.tree.Keys, n, i);
    }
  }

  lemma PlantedCounts(v: View, n: Name)
    requires v.Sized() && v.Counted() && n !in v.tree
    ensures Planted(v, n).Sized() && Planted(v, n).Counted()
  {
    IndicesPlus(v.tree.Keys, n, |v.slots|, v.next);
    assert Planted(v, n).tree.Keys == v.tree.Keys + {n};
  }

  lemma PlantedHeld(v: View, n: Name)
    requires v.Sized() && v.Held() && n !in v.tree
    ensures Planted(v, n).Sized() && Planted(v, n).Held() && DiffersAt(v, Planted(v, n), n, true)
  {
    var w := Planted(v, n);
    assert w.tree - {n} == v.tree - {n};
  }

  lemma PlantedInv(v: View, n: Name)
    requires v.Inv() && n !in v.tree && IsValid(n)
    requires 0 < Index(n) < |v.slots| ==> v.Used(Index(n)) && v.slots[Index(n)].gen != Gen(n)
    ensures Planted(v, n).Inv() && SameRights(v, Planted(v, n))
  {
    PlantedTree(v, n);
    PlantedCounts(v, n);
    PlantedHeld(v, n);
    MarkedFree(v, Planted(v, n), n, true);
    DiffersRights(v, Planted(v, n), n, true);
  }

  lemma HasIndexPlus(names: set<Name>, n: Name, i: nat)
    ensures HasIndex(names + {n}, i) <==> HasIndex(names, i) || Index(n) == i
  {
    if Index(n) == i {
      assert n in names + {n};
    } else if HasIndex(names, i) {
      var m :| m in names && Index(m) == i;
      assert m in names + {n};
    }
  }

  // ------------------------------------------------------------ ipc_entry_dealloc

  /** Puts a held slot without collisions back at the head of the free list. */
  ghost function FreedSlot(v: View, i: nat): View
    requires i < |v.slots|
  {
    v.(slots := v.slots[i := v.slots[i].(right := NO_RIGHT, next := v.slots[0].next)][0 := v.slots[0].(next := i)],
       free := [i] + v.free,
       held := v.held - {i})
  }

  lemma FreedSlotFree(v: View, i: nat)
    requires v.Inv() && i in v.held && !v.slots[i].collision
    ensures FreedSlot(v, i).Sized() && FreedSlot(v, i).FreeExact()
  {
    var w := FreedSlot(v, i);
    ChainPush(v.slots, v.free, i, v.slots[i].(right := NO_RIGHT, next := v.slots[0].next));
    assert w.slots == v.slots[i := v.slots[i].(right := NO_RIGHT, next := v.slots[0].next)][0 := v.slots[0].(next := i)];
    assert forall j :: 0 < j < |v.slots| && j != i ==> (w.Used(j) <==> v.Used(j));
    assert forall j :: j in w.free <==> j == i || j in v.free;
  }

  lemma FreedSlotInv(v: View, i: nat)
    requires v.Inv() && i in v.held && !v.slots[i].collision
    ensures FreedSlot(v, i).Inv() && SameRights(v, FreedSlot(v, i))
  {
    var w := FreedSlot(v, i);
    FreedSlotFree(v, i);
    assert forall n :: n in v.tree && Index(n) == i ==> HasIndex(v.tree.Keys, i);
    TreeKeptInv(v, w);
    SlotRewritten(v, w, i);
  }

  /** Moves the tree entry n into the held slot of the same index. */
  ghost function Migrated(v: View, n: Name): View
    requires n in v.tree && Index(n) < |v.slots|
  {
    var i := Index(n);
    v.(slots := v.slots[i := v.slots[i].(gen := Gen(n), collision := HasIndex(v.tree.Keys - {n}, i), right := v.tree[n])],
       tree := v.tree - {n},
       held := v.held - {i},
       total := OneLess(v.total))
  }

  function OneLess(count: nat): nat {
    if count == 0 then 0 else count - 1
  }

  lemma SameName(m: Name, n: Name)
    requires Index(m) == Index(n) && Gen(m) == Gen(n)
    ensures m == n
  {
    MakeOfParts(m);
    MakeOfParts(n);
  }

  lemma MigratedTree(v: View, n: Name)
    requires v.Inv() && n in v.tree && Index(n) in v.held && v.tree[n].kind != None
    ensures Migrated(v, n).Sized() && Migrated(v, n).TreeNames() && Migrated(v, n).Collisions() && Migrated(v, n).Counted()
  {
    var w := Migrated(v, n);
    assert w.tree.Keys == v.tree.Keys - {n};
    assert IndicesIn(w.tree.Keys, |v.slots|, v.next) == IndicesIn(v.tree.Keys, |v.slots|, v.next);
    forall m | m in w.tree && 0 < Index(m) < |w.slots|
      ensures w.Used(Index(m)) && w.slots[Index(m)].gen != Gen(m)
    {
      if Index(m) == Index(n) && Gen(m) == Gen(n) {
        SameName(m, n);
      }
    }
    MigratedCollisions(v, n);
  }

  lemma MigratedCollisions(v: View, n: Name)
    requires v.Sized() && v.Collisions() && n in v.tree && Index(n) < |v.slots|
    ensures var w := Migrated(v, n); forall j :: 0 <= j < |w.slots| ==> (w.slots[j].collision <==> HasIndex(w.tree.Keys, j))
  {
    var w := Migrated(v, n);
    assert w.tree.Keys == v.tree.Keys - {n} && w.tree.Keys + {n} == v.tree.Keys;
    forall j | 0 <= j < |w.slots|
      ensures w.slots[j].collision <==> HasIndex(w.tree.Keys, j)
    {
      HasIndexPlus(w.tree.Keys, n, j);
    }
  }

  lemma MigratedInv(v: View, n: Name)
    requires v.Inv() && n in v.tree && Index(n) in v.held && v.tree[n].kind != None
    ensures Migrated(v, n).Inv() && SameRights(v, Migrated(v, n))
  {
    MigratedTree(v, n);
    MigratedFree(v, n);
    MigratedRights(v, n);
  }

  lemma MigratedFree(v: View, n: Name)
    requires v.Inv() && n in v.tree && Index(n) in v.held && v.tree[n].kind != None
    ensures Migrated(v, n).Sized() && Migrated(v, n).FreeExact() && Migrated(v, n).Held()
  {
    var i, w := Index(n), Migrated(v, n);
    ChainFrame(v.slots, w.slots, v.free);
    assert forall j :: 0 < j < |v.slots| && j != i ==> (w.Used(j) <==> v.Used(j));
  }

  lemma MigratedRights(v: View, n: Name)
    requires v.Inv() && n in v.tree && Index(n) in v.held
    ensures SameRights(v, Migrated(v, n))
  {
    forall m: Name
      ensures v.RightOf(m) == Migrated(v, n).RightOf(m)
    {
      if Index(m) == Index(n) && Gen(m) == Gen(n) {
        SameName(m, n);
      }
    }
  }

  /** Takes a held entry out of the tree. */
  ghost function Uprooted(v: View, n: Name): View {
    v.(slots := Marked(v.slots, n, HasIndex(v.tree.Keys - {n}, Index(n))),
       tree := v.tree - {n},
       heldTree := v.heldTree - {n},
       total := OneLess(v.total),
       small := if CountsSmall(v, n) && !HasIndex(v.tree.Keys - {n}, Index(n)) then OneLess(v.small) else v.small)
  }

  lemma UprootedCounts(v: View, n: Name)
    requires v.Inv() && n in v.tree
    ensures v.total > 0 && (CountsSmall(v, n) && !HasIndex(v.tree.Keys - {n}, Index(n)) ==> v.small > 0)
    ensures Uprooted(v, n).Sized() && Uprooted(v, n).Counted()
  {
    var rest := v.tree.Keys - {n};
    IndicesPlus(rest, n, |v.slots|, v.next);
    assert rest + {n} == v.tree.Keys;
    assert |v.tree.Keys| == |rest| + 1;
    assert (v.tree - {n}).Keys == rest;
  }

  lemma UprootedTree(v: View, n: Name)
    requires v.Sized() && v.TreeNames() && v.Collisions() && n in v.tree
    ensures Uprooted(v, n).Sized() && Uprooted(v, n).TreeNames() && Uprooted(v, n).Collisions()
  {
    var w := Uprooted(v, n);
    assert w.tree.Keys == v.tree.Keys - {n} && w.tree.Keys + {n} == v.tree.Keys;
    forall i | 0 <= i < |w.slots|
      ensures w.slots[i].collision <==> HasIndex(w.tree.Keys, i)
    {
      HasIndexPlus(w.tree.Keys, n, i);
    }
  }

  lemma UprootedInv(v: View, n: Name)
    requires v.Inv() && n in v.heldTree
    ensures v.total > 0 && (CountsSmall(v, n) && !HasIndex(v.tree.Keys - {n}, Index(n)) ==> v.small > 0)
    ensures Uprooted(v, n).Inv() && SameRights(v, Uprooted(v, n))
  {
    UprootedCounts(v, n);
    var w := Uprooted(v, n);
    UprootedTree(v, n);
    MarkedFree(v, w, n, HasIndex(v.tree.Keys - {n}, Index(n)));
    DiffersRights(v, w, n, HasIndex(v.tree.Keys - {n}, Index(n)));
  }

  // ------------------------------------------------------------ writing a right into an allocated entry

  /** The views differ in the right of n alone. */
  ghost predicate RightSet(v: View, w: View, n: Name, r: Right) {
    forall m: Name :: w.RightOf(m) == if m == n then r else v.RightOf(m)
  }

  /** A right, or nothing at all: what a caller may store in an entry. */
  predicate Storable(r: Right) {
    r.kind == None ==> r == NO_RIGHT
  }

  ghost function SlotSet(v: View, i: nat, r: Right): View
    requires i < |v.slots|
  {
    v.(slots := v.slots[i := v.slots[i].(right := r)], held := if r.kind == None then v.held + {i} else v.held - {i})
  }

  lemma SlotSetInv(v: View, i: nat, r: Right)
    requires v.Inv() && 0 < i < |v.slots| && v.Used(i) && Storable(r)
    ensures SlotSet(v, i, r).Inv() && RightSet(v, SlotSet(v, i, r), Make(i, v.slots[i].gen), r)
  {
    SlotSetFree(v, i, r);
    TreeKeptInv(v, SlotSet(v, i, r));
    SlotSetRights(v, i, r);
  }

  lemma SlotSetFree(v: View, i: nat, r: Right)
    requires v.Inv() && 0 < i < |v.slots| && v.Used(i) && Storable(r)
    ensures var w := SlotSet(v, i, r); w.Sized() && w.FreeExact() && w.Held() && TreeKept(v, w)
  {
    var w := SlotSet(v, i, r);
    ChainFrame(v.slots, w.slots, v.free);
    assert forall j :: 0 < j < |v.slots| ==> (w.Used(j) <==> v.Used(j));
  }

  lemma SlotSetRights(v: View, i: nat, r: Right)
    requires v.Inv() && 0 < i < |v.slots| && v.Used(i) && Storable(r)
    ensures RightSet(v, SlotSet(v, i, r), Make(i, v.slots[i].gen), r)
  {
    var w, n := SlotSet(v, i, r), Make(i, v.slots[i].gen);
    forall m: Name
      ensures w.RightOf(m) == if m == n then r else v.RightOf(m)
    {
      if Index(m) == i && Gen(m) == v.slots[i].gen {
        SameName(m, n);
      }
    }
  }

  ghost function TreeSet(v: View, n: Name, r: Right): View {
    v.(tree := v.tree[n := r], heldTree := if r.kind == None then v.heldTree + {n} else v.heldTree - {n})
  }

  lemma TreeSetInv(v: View, n: Name, r: Right)
    requires v.Inv() && n in v.tree && Storable(r)
    ensures TreeSet(v, n, r).Inv() && RightSet(v, TreeSet(v, n, r), n, r)
  {
    assert TreeSet(v, n, r).tree.Keys == v.tree.Keys;
    TreeSetRights(v, n, r);
  }

  lemma TreeSetRights(v: View, n: Name, r: Right)
    requires v.Sized() && v.TreeNames() && v.FreeExact() && n in v.tree
    ensures RightSet(v, TreeSet(v, n, r), n, r)
  {
  }

  // ------------------------------------------------------------ ipc_entry_lookup

  /** The one valid name the lookup cannot find: index 0 with the generation slot 0 was created with. */
  const HIDDEN: Name := Make(0, GENERATIONS - 1)

  datatype Place = Nowhere | InTable(index: nat) | InTree(name: Name)

  /** Where ipc_entry_lookup looks, and what it finds there. */
  ghost function Looked(v: View, n: Name): Place {
    var i := Index(n);
    var inTree := if n in v.tree then InTree(n) else Nowhere;
    if i < |v.slots| then
      if v.slots[i].gen != Gen(n) then
        if v.slots[i].collision then inTree else Nowhere
      else if v.slots[i].right.kind == None then Nowhere
      else InTable(i)
    else if v.total == 0 then Nowhere
    else inTree
  }

  ghost function RightAt(v: View, p: Place): Right
    requires (p.InTable? ==> p.index < |v.slots|) && (p.InTree? ==> p.name in v.tree)
  {
    match p
    case Nowhere => NO_RIGHT
    case InTable(i) => v.slots[i].right
    case InTree(n) => v.tree[n]
  }

  /** The lookup returns the right a name denotes, for every name but the hidden one, which it never finds. */
  lemma LookupExact(v: View, n: Name)
    requires v.Inv()
    ensures n != HIDDEN ==> RightAt(v, Looked(v, n)) == v.RightOf(n)
    ensures n == HIDDEN ==> Looked(v, n) == Nowhere
  {
    MakeOfParts(n);
    if n in v.tree {
      assert HasIndex(v.tree.Keys, Index(n));
    }
  }

  /** So a right given to the hidden name, as ipc_entry_alloc_name allows, is lost to lookups. */
  lemma HiddenIsLost(v: View, r: Right)
    requires v.Inv() && HIDDEN !in v.tree && r.kind != None
    ensures var w := TreeSet(Planted(v, HIDDEN), HIDDEN, r);
      w.Inv() && w.RightOf(HIDDEN) == r && Looked(w, HIDDEN) == Nowhere
  {
    PlantedInv(v, HIDDEN);
    TreeSetInv(Planted(v, HIDDEN), HIDDEN, r);
    LookupExact(TreeSet(Planted(v, HIDDEN), HIDDEN, r), HIDDEN);
  }

  // ------------------------------------------------------------ ipc_space_create

  ghost function FirstSlots(size: nat): (s: seq<Slot>)
    ensures |s| == size && forall i :: 0 <= i < size ==> s[i] == Slot(GENERATIONS - 1, false, NO_RIGHT, if i + 1 < size then i + 1 else 0)
  {
    seq(size, (i: nat) => Slot(GENERATIONS - 1, false, NO_RIGHT, if i + 1 < size then i + 1 else 0))
  }

  ghost function FirstFree(size: nat): (f: seq<nat>)
    requires size > 0
    ensures |f| == size - 1 && (forall k :: 0 <= k < |f| ==> f[k] == k + 1) && forall i :: i in f <==> 0 < i < size
  {
    var f := seq(size - 1, (k: nat) => k + 1);
    assert forall i {:trigger i in f} :: 0 < i < size ==> f[i - 1] == i;
    f
  }

  /** A new space: every slot of the table but the first is free, in order, with generation -1. */
  ghost function Created(size: nat, next: nat): View
    requires size > 0
  {
    View(FirstSlots(size), map[], FirstFree(size), {}, {}, 0, 0, next)
  }

  lemma CreatedInv(size: nat, next: nat)
    requires 0 < size <= next < INDICES
    ensures Created(size, next).Inv()
    ensures forall n: Name :: Created(size, next).RightOf(n) == NO_RIGHT
  {
    var v := Created(size, next);
    assert Chain(v.slots, v.free);
    assert IndicesIn(v.tree.Keys, size, next) == {};
  }

  /** Always true: an invariant stated to hold wherever this is mentioned is passed around whole elsewhere. */
  ghost predicate InsideView(v: View, u: nat) {
    true
  }

  ghost predicate Sound(v: View) {
    forall u: nat {:trigger InsideView(v, u)} :: InsideView(v, u) ==> v.Inv()
  }

  /** The views a space may have whenever its lock is free. */
  type Consistent = v: View | Sound(v) ghost witness (CreatedInv(1, 1); Created(1, 1))

  lemma Look(v: Consistent)
    ensures v.Inv()
  {
    assert InsideView(v, 0);
  }

  lemma HeldFacts(v: Consistent, i: nat)
    requires i in v.held
    ensures 0 < i < |v.slots| && i + 1 < INDICES && v.slots[i].right == NO_RIGHT && (v.slots[i].collision <==> HasIndex(v.tree.Keys, i))
  {
    Look(v);
  }

  lemma TreeFacts(v: Consistent)
    ensures NULL !in v.tree && DEAD !in v.tree
    ensures forall n :: n in v.tree && n !in v.heldTree ==> v.tree[n].kind != None
    ensures forall n :: n in v.heldTree ==> n in v.tree
  {
    Look(v);
  }

  /** Small indices are counted only while the next size is larger. */
  lemma SmallMeansRoom(v: Consistent)
    requires v.small > 0
    ensures |v.slots| < v.next
  {
    Look(v);
    var i :| i in IndicesIn(v.tree.Keys, |v.slots|, v.next);
  }

  /** What alloc_name finds in the table at a name of non-zero index. */
  lemma SlotFacts(v: Consistent, n: Name)
    requires v.held == {} && 0 < Index(n) < |v.slots|
    ensures v.slots[Index(n)].right.kind == None ==> !v.Used(Index(n)) && v.RightOf(n) == NO_RIGHT && n !in v.tree
    ensures v.slots[Index(n)].right.kind != None && v.slots[Index(n)].gen == Gen(n) ==> v.RightOf(n) == v.slots[Index(n)].right
  {
    Look(v);
    if v.slots[Index(n)].right.kind == None {
      UnusedApart(v, Index(n));
    }
  }

  /** And in the tree, once the table has not answered. */
  lemma TreeAnswers(v: Consistent, n: Name)
    requires v.held == {} && v.heldTree == {}
    requires 0 < Index(n) < |v.slots| ==> v.slots[Index(n)].right.kind != None && v.slots[Index(n)].gen != Gen(n)
    ensures n in v.tree ==> v.total > 0 && v.RightOf(n) == v.tree[n] && v.tree[n].kind != None
    ensures n !in v.tree ==> v.RightOf(n) == NO_RIGHT
    ensures NULL !in v.tree && DEAD !in v.tree
  {
    Look(v);
    assert n in v.tree ==> n in v.tree.Keys;
  }
}
