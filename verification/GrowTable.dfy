/** The loops of ipc_entry_grow_table: entries move from the tree to the table, small indices are recounted, new slots freed. */
module GrowTables {
  import opened MachPort
  import opened SplayShape
  import opened SplayTrees
  import opened SpaceView
  import opened SpaceGrow
  import opened EntryTrees
  import opened EntryTables

  /** Where the transfer stands: passed are behind it, todo before it, and s the entries of the other parts of the tree. */
  ghost predicate Queued(t: map<Name, Right>, s: set<TreeEntry>, passed: seq<TreeEntry>, todo: seq<TreeEntry>, osize: nat, size: nat, c: int) {
    && Named(s + Elems(passed) + Elems(todo), t.Keys) && Sorted(todo)
    && (forall x :: x in s ==> Index(x.name) < osize || size <= Index(x.name))
    && (forall x :: x in Elems(passed) ==> osize <= Index(x.name) < size && x.name < c)
    && (forall x :: x in Elems(todo) ==> osize <= Index(x.name) < size && c <= x.name)
  }

  /** The entries of s have exactly these names. */
  ghost predicate Named(s: set<TreeEntry>, names: set<Name>) {
    (forall x :: x in s ==> x.name in names) && (forall n :: n in names ==> Holds(s, n))
  }

  lemma FirstAndRest(es: seq<TreeEntry>)
    requires Sorted(es) && es != []
    ensures es[0] in Elems(es) && Sorted(es[1..]) && Elems(es) == {es[0]} + Elems(es[1..])
    ensures forall x :: x in Elems(es[1..]) ==> es[0].name < x.name
  {
    assert es == [es[0]] + es[1..];
  }

  lemma NextInLine(w: View, s: set<TreeEntry>, passed: seq<TreeEntry>, todo: seq<TreeEntry>, osize: nat, c: int)
    requires Queued(w.tree, s, passed, todo, osize, |w.slots|, c) && todo != []
    ensures IsNext(w, osize, c, todo[0].name)
  {
    FirstAndRest(todo);
    forall m | m in w.tree && osize <= Index(m) < |w.slots| && !Settled(m, osize, c)
      ensures todo[0].name <= m
    {
      assert Holds(s + Elems(passed) + Elems(todo), m);
    }
  }

  lemma Kept(t: map<Name, Right>, s: set<TreeEntry>, passed: seq<TreeEntry>, todo: seq<TreeEntry>, osize: nat, size: nat, c: int)
    requires Queued(t, s, passed, todo, osize, size, c) && todo != []
    ensures Queued(t, s, passed + [todo[0]], todo[1..], osize, size, todo[0].name + 1)
  {
    FirstAndRest(todo);
    assert Elems(passed + [todo[0]]) == Elems(passed) + {todo[0]};
    assert s + Elems(passed) + Elems(todo) == s + Elems(passed + [todo[0]]) + Elems(todo[1..]);
  }

  lemma MovedOut(t: map<Name, Right>, s: set<TreeEntry>, passed: seq<TreeEntry>, todo: seq<TreeEntry>, osize: nat, size: nat, c: int)
    requires Queued(t, s, passed, todo, osize, size, c) && todo != []
    ensures Queued(t - {todo[0].name}, s, passed, todo[1..], osize, size, todo[0].name + 1)
  {
    FirstAndRest(todo);
    forall n | n in t.Keys - {todo[0].name}
      ensures Holds(s + Elems(passed) + Elems(todo[1..]), n)
    {
      assert Holds(s + Elems(passed) + Elems(todo), n);
    }
  }

  /** One tree entry meets the table: it moves in if its slot is blank, else it collides. */
  method Absorb(table: EntryTable, e: TreeEntry, ghost w: View) returns (moved: bool)
    requires table.Is(w) && e.name in w.tree && w.tree[e.name] == e.right && Index(e.name) < |w.slots| && w.total > 0
    modifies table.slots, table`total
    ensures table.Is(Absorbed(w, e.name)) && moved == (w.slots[Index(e.name)].right.kind == None)
  {
    var i := Index(e.name);
    moved := table.slots[i].right.kind == None;
    if moved {
      table.slots[i] := Slot(Gen(e.name), false, e.right, table.slots[i].next);
      table.total := table.total - 1;
    } else {
      table.slots[i] := table.slots[i].(collision := true);
    }
  }

  /** What the transfer keeps and does not change. */
  ghost predicate Carried(v: View, w: View) {
    && v.Sized() && w.Sized() && SameRights(v, w)
    && w.free == v.free && w.next == v.next && w.small == v.small && |w.slots| == |v.slots|
    && forall n :: n in w.tree ==> n in v.tree && w.tree[n] == v.tree[n]
  }

  /** Always true: an invariant stated to hold wherever this is mentioned is passed around whole elsewhere. */
  ghost predicate InsideMove(u: nat) {
    true
  }

  /** In the midst of the transfer that started from v. */
  ghost predicate Midst(v: View, w: View, s: set<TreeEntry>, passed: seq<TreeEntry>, todo: seq<TreeEntry>, osize: nat, c: int) {
    forall u: nat {:trigger InsideMove(u)} :: InsideMove(u) ==>
      Growing(w, osize, c) && Carried(v, w) && Queued(w.tree, s, passed, todo, osize, |w.slots|, c)
  }

  lemma LookMidst(v: View, w: View, s: set<TreeEntry>, passed: seq<TreeEntry>, todo: seq<TreeEntry>, osize: nat, c: int)
    requires Midst(v, w, s, passed, todo, osize, c)
    ensures Growing(w, osize, c) && Carried(v, w) && Queued(w.tree, s, passed, todo, osize, |w.slots|, c)
  {
    assert InsideMove(0);
  }

  ghost function Behind(moved: bool, passed: seq<TreeEntry>, e: TreeEntry): seq<TreeEntry> {
    if moved then passed else passed + [e]
  }

  lemma QueuedOn(w: View, s: set<TreeEntry>, passed: seq<TreeEntry>, todo: seq<TreeEntry>, osize: nat, c: int, moved: bool)
    requires Queued(w.tree, s, passed, todo, osize, |w.slots|, c) && todo != [] && w.total > 0
    requires IsNext(w, osize, c, todo[0].name) && moved == (w.slots[Index(todo[0].name)].right.kind == None)
    ensures var x := Absorbed(w, todo[0].name); Queued(x.tree, s, Behind(moved, passed, todo[0]), todo[1..], osize, |x.slots|, todo[0].name + 1)
  {
    if moved {
      MovedOut(w.tree, s, passed, todo, osize, |w.slots|, c);
    } else {
      Kept(w.tree, s, passed, todo, osize, |w.slots|, c);
    }
  }

  lemma Front(v: View, w: View, s: set<TreeEntry>, passed: seq<TreeEntry>, todo: seq<TreeEntry>, osize: nat, c: int)
    requires Midst(v, w, s, passed, todo, osize, c) && todo != []
    ensures Growing(w, osize, c) && IsNext(w, osize, c, todo[0].name)
  {
    LookMidst(v, w, s, passed, todo, osize, c);
    NextInLine(w, s, passed, todo, osize, c);
  }

  lemma Here(v: View, w: View, s: set<TreeEntry>, passed: seq<TreeEntry>, todo: seq<TreeEntry>, osize: nat, c: int)
    requires Midst(v, w, s, passed, todo, osize, c) && todo != []
    ensures var n := todo[0].name; n in w.tree && n in v.tree && w.tree[n] == v.tree[n] && Index(n) < |w.slots| && w.total > 0
  {
    Front(v, w, s, passed, todo, osize, c);
    LookMidst(v, w, s, passed, todo, osize, c);
    AbsorbedGrowing(w, osize, c, todo[0].name);
  }

  ghost predicate AtHead(w: View, todo: seq<TreeEntry>, moved: bool) {
    && todo != [] && todo[0].name in w.tree && w.total > 0 && Index(todo[0].name) < |w.slots|
    && moved == (w.slots[Index(todo[0].name)].right.kind == None)
  }

  lemma StepGrowing(v: View, w: View, s: set<TreeEntry>, passed: seq<TreeEntry>, todo: seq<TreeEntry>, osize: nat, c: int, moved: bool)
    requires Midst(v, w, s, passed, todo, osize, c) && AtHead(w, todo, moved)
    ensures Growing(Absorbed(w, todo[0].name), osize, todo[0].name + 1) == true
  {
    Front(v, w, s, passed, todo, osize, c);
    AbsorbedGrowing(w, osize, c, todo[0].name);
  }

  lemma StepCarried(v: View, w: View, s: set<TreeEntry>, passed: seq<TreeEntry>, todo: seq<TreeEntry>, osize: nat, c: int, moved: bool)
    requires Midst(v, w, s, passed, todo, osize, c) && AtHead(w, todo, moved)
    ensures Carried(v, Absorbed(w, todo[0].name))
  {
    Front(v, w, s, passed, todo, osize, c);
    LookMidst(v, w, s, passed, todo, osize, c);
    AbsorbedRights(w, osize, c, todo[0].name);
  }

  lemma StepQueue(v: View, w: View, s: set<TreeEntry>, passed: seq<TreeEntry>, todo: seq<TreeEntry>, osize: nat, c: int, moved: bool)
    requires Midst(v, w, s, passed, todo, osize, c) && AtHead(w, todo, moved)
    ensures var x := Absorbed(w, todo[0].name); Queued(x.tree, s, Behind(moved, passed, todo[0]), todo[1..], osize, |x.slots|, todo[0].name + 1)
  {
    LookMidst(v, w, s, passed, todo, osize, c);
    NextInLine(w, s, passed, todo, osize, c);
    QueuedOn(w, s, passed, todo, osize, c, moved);
  }

  lemma Step(v: View, w: View, s: set<TreeEntry>, passed: seq<TreeEntry>, todo: seq<TreeEntry>, osize: nat, c: int, moved: bool)
    requires Midst(v, w, s, passed, todo, osize, c) && AtHead(w, todo, moved)
    ensures Midst(v, Absorbed(w, todo[0].name), s, Behind(moved, passed, todo[0]), todo[1..], osize, todo[0].name + 1)
  {
    StepGrowing(v, w, s, passed, todo, osize, c, moved);
    StepCarried(v, w, s, passed, todo, osize, c, moved);
    StepQueue(v, w, s, passed, todo, osize, c, moved);
  }

  /** The entries of a traversal, as those passed and those to come. */
  lemma Onwards(passed: seq<TreeEntry>, todo: seq<TreeEntry>)
    requires todo != []
    ensures var es := passed + todo; es[|passed|] == todo[0] && Less(es, |passed|) == passed + todo[1..] && es == passed + [todo[0]] + todo[1..]
    ensures Elems(passed + todo[1..]) <= Elems(passed + todo)
  {
    assert forall x :: x in passed + todo[1..] ==> x in passed + todo;
  }

  /** gone lists each name of v that is not in w, once. */
  ghost predicate Gone(v: map<Name, Right>, w: map<Name, Right>, gone: seq<Name>) {
    && (forall j, k :: 0 <= j < k < |gone| ==> gone[j] != gone[k])
    && (forall n :: n in w ==> n in v)
    && (forall n :: n in gone <==> n in v && n !in w)
  }

  lemma GoneStep(v: map<Name, Right>, w: map<Name, Right>, gone: seq<Name>, n: Name)
    requires Gone(v, w, gone) && n in w
    ensures Gone(v, w - {n}, gone + [n])
  {
  }

  method MoveOne(table: EntryTable, e: TreeEntry, ghost v: View, ghost w: View, ghost s: set<TreeEntry>, ghost passed: seq<TreeEntry>, ghost todo: seq<TreeEntry>, ghost osize: nat, ghost c: int)
    returns (moved: bool, ghost w': View)
    requires table.Is(w) && Midst(v, w, s, passed, todo, osize, c) && todo != [] && e == todo[0]
    requires e.name in v.tree ==> v.tree[e.name] == e.right
    modifies table.slots, table`total
    ensures table.Is(w') && Midst(v, w', s, Behind(moved, passed, e), todo[1..], osize, e.name + 1)
    ensures e.name in w.tree && w'.tree == if moved then w.tree - {e.name} else w.tree
  {
    Here(v, w, s, passed, todo, osize, c);
    moved := Absorb(table, e, w);
    w' := Absorbed(w, e.name);
    Step(v, w, s, passed, todo, osize, c, moved);
  }

  method Pass(move: SplayTree, moved: bool, ghost passed: seq<TreeEntry>, ghost todo: seq<TreeEntry>) returns (e: TreeEntry?)
    requires move.entries == passed + todo && move.position == |passed| && todo != [] && move.On(todo[0])
    modifies move, Elems(move.entries)`lchild, Elems(move.entries)`rchild
    ensures move.entries == Behind(moved, passed, todo[0]) + todo[1..] && move.position == |Behind(moved, passed, todo[0])| && move.On(e)
    ensures Elems(move.entries) <= old(Elems(move.entries))
  {
    Onwards(passed, todo);
    e := move.TraverseNext(moved);
  }

  /** One turn of the traversal: the entry is moved or not, and the next one stood on. */
  method Visit(table: EntryTable, move: SplayTree, e: TreeEntry, ghost v: View, ghost w: View, ghost s: set<TreeEntry>, ghost passed: seq<TreeEntry>, ghost todo: seq<TreeEntry>, ghost osize: nat, ghost c: int)
    returns (moved: bool, e': TreeEntry?, ghost w': View)
    requires table.Is(w) && Midst(v, w, s, passed, todo, osize, c) && todo != [] && e == todo[0]
    requires move.entries == passed + todo && move.position == |passed| && move.On(e)
    requires e.name in v.tree ==> v.tree[e.name] == e.right
    modifies table.slots, table`total, move, Elems(move.entries)`lchild, Elems(move.entries)`rchild
    ensures table.Is(w') && Midst(v, w', s, Behind(moved, passed, e), todo[1..], osize, e.name + 1)
    ensures e.name in w.tree && w'.tree == if moved then w.tree - {e.name} else w.tree
    ensures move.entries == Behind(moved, passed, e) + todo[1..] && move.position == |Behind(moved, passed, e)| && move.On(e')
    ensures Elems(move.entries) <= old(Elems(move.entries))
  {
    moved, w' := MoveOne(table, e, v, w, s, passed, todo, osize, c);
    e' := Pass(move, moved, passed, todo);
  }

  /** Traverses the part of the tree that belongs in the new part of the table. */
  method Transfer(table: EntryTable, move: SplayTree, ghost v: View, ghost s: set<TreeEntry>, ghost osize: nat, ghost c0: int) returns (gone: seq<Name>, ghost w: View, ghost c: int)
    requires table.Is(v) && move.Valid() && Midst(v, v, s, [], move.entries, osize, c0)
    requires forall x :: x in Elems(move.entries) && x.name in v.tree ==> v.tree[x.name] == x.right
    modifies table.slots, table`total, move, Elems(move.entries)`lchild, Elems(move.entries)`rchild
    ensures table.Is(w) && move.Valid() && Elems(move.entries) <= old(Elems(move.entries))
    ensures Midst(v, w, s, move.entries, [], osize, c) && Gone(v.tree, w.tree, gone)
  {
    gone, w, c := [], v, c0;
    ghost var all := Elems(move.entries);
    ghost var passed, todo := [], move.entries;
    var e := move.TraverseStart();
    while e != null
      invariant move.On(e) && Elems(move.entries) <= all && table.Is(w)
      invariant move.entries == passed + todo && move.position == |passed|
      invariant Midst(v, w, s, passed, todo, osize, c)
      invariant Gone(v.tree, w.tree, gone)
      decreases |todo|
    {
      ghost var was := w.tree;
      assert e == todo[0] && e in all;
      var moved, next;
      moved, next, w := Visit(table, move, e, v, w, s, passed, todo, osize, c);
      if moved {
        GoneStep(v.tree, was, gone, e.name);
        gone := gone + [e.name];
      }
      c, e := e.name + 1, next;
      passed, todo := Behind(moved, passed, todo[0]), todo[1..];
    }
    assert passed == move.entries && todo == [];
    move.TraverseFinish();
  }

  ghost function Indices(es: seq<TreeEntry>): set<nat> {
    set e | e in es :: Index(e.name)
  }

  /** In name order, an index is new exactly when it differs from the last one. */
  lemma IndicesStep(es: seq<TreeEntry>, p: nat)
    requires Sorted(es) && p < |es|
    ensures Indices(es[..p + 1]) == Indices(es[..p]) + {Index(es[p].name)}
    ensures Index(es[p].name) in Indices(es[..p]) <==> p > 0 && Index(es[p - 1].name) == Index(es[p].name)
  {
    assert es[..p + 1] == es[..p] + [es[p]];
    if p > 0 {
      assert es[p - 1] in es[..p];
    }
    if Index(es[p].name) in Indices(es[..p]) {
      var e :| e in es[..p] && Index(e.name) == Index(es[p].name);
      var k :| 0 <= k < p && es[..p][k] == e;
      assert es[k].name <= es[p - 1].name < es[p].name;
    }
  }

  /** How often the index changes along the first p entries. */
  ghost function Changes(es: seq<TreeEntry>, p: nat): nat
    requires p <= |es|
  {
    if p == 0 then 0 else Changes(es, p - 1) + if p > 1 && Index(es[p - 2].name) == Index(es[p - 1].name) then 0 else 1
  }

  /** The index met last, 0 before any. */
  ghost function LastIndex(es: seq<TreeEntry>, p: nat): nat
    requires p <= |es|
  {
    if p == 0 then 0 else Index(es[p - 1].name)
  }

  lemma {:induction false} ChangesCount(es: seq<TreeEntry>, p: nat)
    requires Sorted(es) && p <= |es|
    ensures Changes(es, p) == |Indices(es[..p])|
  {
    if p > 0 {
      ChangesCount(es, p - 1);
      IndicesStep(es, p - 1);
    }
  }

  /** Counts the distinct indices of a tree by traversing it. */
  method CountIndices(small: SplayTree) returns (count: nat)
    requires small.Valid() && forall e :: e in small.entries ==> Index(e.name) > 0
    modifies small, Elems(small.entries)`lchild, Elems(small.entries)`rchild
    ensures small.Valid() && small.entries == old(small.entries) && count == |Indices(small.entries)|
  {
    small.InNameOrder();
    ghost var es := small.entries;
    var index := 0;
    count := 0;
    var e := small.TraverseStart();
    while e != null
      invariant small.On(e) && small.entries == es && small.position <= |es|
      invariant count == Changes(es, small.position) && index == LastIndex(es, small.position)
      decreases |es| - small.position
    {
      ghost var p := small.position;
      var nindex := Index(e.name);
      assert nindex == LastIndex(es, p + 1);
      if nindex != index {
        count := count + 1;
        index := nindex;
      }
      e := small.TraverseNext(false);
      assert small.position == p + 1;
    }
    small.TraverseFinish();
    ChangesCount(es, |es|);
    assert es[..|es|] == es;
  }

  /** The transfer is over: every name of the tree within the table is settled. */
  lemma TransferDone(v: View, w: View, s: set<TreeEntry>, passed: seq<TreeEntry>, osize: nat, c: int)
    requires Midst(v, w, s, passed, [], osize, c)
    ensures Growing(w, osize, c) && AllSettled(w, osize, c) && Carried(v, w) && Named(s + Elems(passed), w.tree.Keys)
  {
    LookMidst(v, w, s, passed, [], osize, c);
    assert s + Elems(passed) + Elems([]) == s + Elems(passed);
    forall n | n in w.tree && Index(n) < |w.slots|
      ensures Settled(n, osize, c)
    {
      assert Holds(s + Elems(passed), n);
    }
  }

  /** Threads the unused slots of the new part, in reverse, in front of the free list. */
  method ThreadFree(slots: array<Slot>, osize: nat, ghost w: View, ghost c: int) returns (ghost x: View, ghost added: seq<nat>)
    requires slots[..] == w.slots && Growing(w, osize, c) && AllSettled(w, osize, c) && 0 < osize <= slots.Length
    modifies slots
    ensures slots[..] == x.slots && Threading(w, x, osize, c, osize, added)
  {
    StartThreading(w, osize, c);
    x, added := w, [];
    var free: nat, i := slots[0].next, slots.Length;
    while i > osize
      invariant osize <= i <= slots.Length == |x.slots|
      invariant slots[..][0 := slots[0].(next := free)] == x.slots
      invariant Threading(w, x, osize, c, i, added)
    {
      i := i - 1;
      ThreadStep(w, x, osize, c, i, added);
      x, added := Threaded(x, i), PlusFree(x, i, added);
      if slots[i].right.kind == None {
        slots[i] := Slot(GENERATIONS - 1, false, NO_RIGHT, free);
        free := i;
      }
    }
    slots[0] := slots[0].(next := free);
  }

  /** Four trees, holding the names below lo, from lo to mid, from mid to hi, and from hi on. */
  ghost predicate Parted(ignore: SplayTree, move: SplayTree, small: SplayTree, tree: SplayTree, lo: Name, mid: Name, hi: Name)
    reads ignore, move, small, tree, Elems(ignore.entries), Elems(move.entries), Elems(small.entries), Elems(tree.entries)
  {
    && ignore.Valid() && move.Valid() && small.Valid() && tree.Valid()
    && ignore != move && ignore != small && ignore != tree && move != small && move != tree && small != tree
    && Bounded(ignore.entries, move.entries, small.entries, tree.entries, lo, mid, hi)
  }

  ghost predicate InParts(ignore: SplayTree, move: SplayTree, small: SplayTree, tree: SplayTree, lo: Name, mid: Name, hi: Name)
    reads ignore, move, small, tree, Elems(ignore.entries), Elems(move.entries), Elems(small.entries), Elems(tree.entries)
  {
    forall u: nat {:trigger InsideMove(u)} :: InsideMove(u) ==> Parted(ignore, move, small, tree, lo, mid, hi)
  }

  lemma LookParts(ignore: SplayTree, move: SplayTree, small: SplayTree, tree: SplayTree, lo: Name, mid: Name, hi: Name)
    requires InParts(ignore, move, small, tree, lo, mid, hi)
    ensures Parted(ignore, move, small, tree, lo, mid, hi)
  {
    assert InsideMove(0);
  }

  ghost predicate Bounded(a: seq<TreeEntry>, b: seq<TreeEntry>, c: seq<TreeEntry>, d: seq<TreeEntry>, lo: Name, mid: Name, hi: Name) {
    && lo <= mid <= hi && AllBelow(a, lo) && AllAbove(b, lo) && AllBelow(b, mid)
    && AllAbove(c, mid) && AllBelow(c, hi) && AllAbove(d, hi)
  }

  lemma BoundedApart(a: seq<TreeEntry>, b: seq<TreeEntry>, c: seq<TreeEntry>, d: seq<TreeEntry>, lo: Name, mid: Name, hi: Name)
    requires Bounded(a, b, c, d, lo, mid, hi)
    ensures Elems(a) !! Elems(b) && Elems(a) !! Elems(c) && Elems(a) !! Elems(d) && Elems(b) !! Elems(c) && Elems(b) !! Elems(d) && Elems(c) !! Elems(d)
  {
  }

  method Split(tree: SplayTree, lo: Name, mid: Name, hi: Name) returns (ignore: SplayTree, move: SplayTree, small: SplayTree)
    requires tree.Valid() && lo <= mid <= hi
    modifies tree, Elems(tree.entries)`lchild, Elems(tree.entries)`rchild
    ensures InParts(ignore, move, small, tree, lo, mid, hi) && fresh({ignore, move, small})
    ensures old(tree.entries) == ignore.entries + move.entries + small.entries + tree.entries
  {
    small := new SplayTree();
    move := new SplayTree();
    ignore := new SplayTree();
    tree.SplitOff(hi, small);
    ghost var d := tree.entries;
    assert Elems(small.entries) !! Elems(d) && allocated(Elems(d));
    Isolate(small, lo, mid, move, ignore);
  }

  method JoinUp(ignore: SplayTree, move: SplayTree, small: SplayTree, tree: SplayTree, lo: Name, mid: Name, hi: Name)
    requires InParts(ignore, move, small, tree, lo, mid, hi)
    modifies ignore, move, small, tree
    modifies Elems(ignore.entries)`lchild, Elems(ignore.entries)`rchild, Elems(move.entries)`lchild, Elems(move.entries)`rchild
    modifies Elems(small.entries)`lchild, Elems(small.entries)`rchild, Elems(tree.entries)`lchild, Elems(tree.entries)`rchild
    ensures tree.Valid() && tree.entries == old(ignore.entries) + old(move.entries) + old(small.entries) + old(tree.entries)
  {
    ghost var a, b, c, d := ignore.entries, move.entries, small.entries, tree.entries;
    LookParts(ignore, move, small, tree, lo, mid, hi);
    BoundedApart(a, b, c, d, lo, mid, hi);
    assert allocated(Elems(a)) && allocated(Elems(b));
    tree.Join(small);
    Rejoin(tree, move, ignore, lo, mid);
    assert a + b + (c + d) == a + b + c + d;
  }

  lemma ElemsOfParts(a: seq<TreeEntry>, b: seq<TreeEntry>, c: seq<TreeEntry>, d: seq<TreeEntry>)
    ensures Elems(a + b + c + d) == Elems(a) + Elems(c) + Elems(d) + Elems([]) + Elems(b)
    ensures Elems(a + b + c + d) == Elems(a) + Elems(c) + Elems(d) + Elems(b)
  {
  }

  lemma Regions(a: seq<TreeEntry>, b: seq<TreeEntry>, c: seq<TreeEntry>, d: seq<TreeEntry>, osize: nat, size: nat, hi: Name)
    requires osize <= size < INDICES && Bounded(a, b, c, d, Make(osize, 0), Make(size, 0), hi)
    ensures forall x :: x in Elems(a) ==> Index(x.name) < osize
    ensures forall x :: x in Elems(b) ==> osize <= Index(x.name) < size && osize * GENERATIONS <= x.name
    ensures forall x :: x in Elems(c) || x in Elems(d) ==> size <= Index(x.name)
  {
  }

  lemma StartQueue(t: map<Name, Right>, size: nat, a: seq<TreeEntry>, b: seq<TreeEntry>, c: seq<TreeEntry>, d: seq<TreeEntry>, osize: nat, hi: Name)
    requires osize <= size < INDICES && Sorted(b)
    requires Bounded(a, b, c, d, Make(osize, 0), Make(size, 0), hi) && Named(Elems(a + b + c + d), t.Keys)
    ensures Queued(t, Elems(a) + Elems(c) + Elems(d), [], b, osize, size, osize * GENERATIONS)
  {
    ElemsOfParts(a, b, c, d);
    Regions(a, b, c, d, osize, size, hi);
  }

  lemma Shrunk(a: seq<TreeEntry>, b: seq<TreeEntry>, b': seq<TreeEntry>, c: seq<TreeEntry>, d: seq<TreeEntry>, lo: Name, mid: Name, hi: Name)
    requires Bounded(a, b, c, d, lo, mid, hi) && Elems(b') <= Elems(b)
    ensures Bounded(a, b', c, d, lo, mid, hi)
  {
    assert forall x :: x in b' ==> x in Elems(b') && x in Elems(b);
  }

  /** The four parts start the transfer off. */
  lemma StartMidst(v: View, a: seq<TreeEntry>, b: seq<TreeEntry>, c: seq<TreeEntry>, d: seq<TreeEntry>, osize: nat)
    requires v.Sized() && osize <= |v.slots| && Growing(v, osize, osize * GENERATIONS) && Sorted(b)
    requires Bounded(a, b, c, d, Make(osize, 0), Make(|v.slots|, 0), Make(v.next, 0)) && Named(Elems(a + b + c + d), v.tree.Keys)
    ensures Midst(v, v, Elems(a) + Elems(c) + Elems(d), [], b, osize, osize * GENERATIONS)
  {
    StartQueue(v.tree, |v.slots|, a, b, c, d, osize, Make(v.next, 0));
  }

  /** What is left of the tree agrees with what the transfer left in the view. */
  lemma StillAgrees(v: View, w: View, s: set<TreeEntry>, all: set<TreeEntry>)
    requires Agrees(all, v.tree) && s <= all && Named(s, w.tree.Keys) && Carried(v, w)
    ensures Agrees(s, w.tree)
  {
  }

  lemma SmallIndices(w: View, a: seq<TreeEntry>, b: seq<TreeEntry>, c: seq<TreeEntry>, d: seq<TreeEntry>, osize: nat)
    requires w.Sized() && osize <= |w.slots| <= w.next && Named(Elems(a) + Elems(c) + Elems(d) + Elems(b), w.tree.Keys)
    requires Bounded(a, b, c, d, Make(osize, 0), Make(|w.slots|, 0), Make(w.next, 0))
    ensures Indices(c) == IndicesIn(w.tree.Keys, |w.slots|, w.next)
  {
    forall i | i in IndicesIn(w.tree.Keys, |w.slots|, w.next)
      ensures i in Indices(c)
    {
      var n :| n in w.tree.Keys && |w.slots| <= Index(n) < w.next && Index(n) == i;
      assert Holds(Elems(a) + Elems(c) + Elems(d) + Elems(b), n);
    }
    forall i | i in Indices(c)
      ensures i in IndicesIn(w.tree.Keys, |w.slots|, w.next)
    {
      var e :| e in c && Index(e.name) == i;
      assert e in Elems(a) + Elems(c) + Elems(d) + Elems(b);
    }
  }

  method TransferParts(table: EntryTable, ignore: SplayTree, move: SplayTree, small: SplayTree, tree: SplayTree, lo: Name, mid: Name, hi: Name, ghost osize: nat, ghost c0: int, ghost v: View)
    returns (gone: seq<Name>, ghost w: View, ghost c: int)
    requires table.Is(v) && InParts(ignore, move, small, tree, lo, mid, hi)
    requires Midst(v, v, Elems(ignore.entries) + Elems(small.entries) + Elems(tree.entries), [], move.entries, osize, c0)
    requires forall x :: x in Elems(move.entries) && x.name in v.tree ==> v.tree[x.name] == x.right
    modifies table.slots, table`total, move, Elems(move.entries)`lchild, Elems(move.entries)`rchild
    ensures table.Is(w) && Elems(move.entries) <= old(Elems(move.entries)) && Gone(v.tree, w.tree, gone)
    ensures ignore.entries == old(ignore.entries) && small.entries == old(small.entries) && tree.entries == old(tree.entries)
    ensures Midst(v, w, Elems(ignore.entries) + Elems(small.entries) + Elems(tree.entries), move.entries, [], osize, c) == true
    ensures InParts(ignore, move, small, tree, lo, mid, hi)
  {
    ghost var p, q, r, t := ignore.entries, move.entries, small.entries, tree.entries;
    LookParts(ignore, move, small, tree, lo, mid, hi);
    BoundedApart(p, q, r, t, lo, mid, hi);
    assert allocated(Elems(p)) && allocated(Elems(r)) && allocated(Elems(t));
    gone, w, c := Transfer(table, move, v, Elems(p) + Elems(r) + Elems(t), osize, c0);
    assert ignore.Valid() && small.Valid() && tree.Valid();
    Shrunk(p, q, move.entries, r, t, lo, mid, hi);
  }

  method CountParts(table: EntryTable, ignore: SplayTree, move: SplayTree, small: SplayTree, tree: SplayTree, lo: Name, mid: Name, hi: Name)
    requires InParts(ignore, move, small, tree, lo, mid, hi) && Index(mid) > 0
    modifies table`small, small, Elems(small.entries)`lchild, Elems(small.entries)`rchild
    ensures small.entries == old(small.entries) && table.small == |Indices(small.entries)|
    ensures ignore.entries == old(ignore.entries) && move.entries == old(move.entries) && tree.entries == old(tree.entries)
    ensures InParts(ignore, move, small, tree, lo, mid, hi)
  {
    ghost var p, q, r, t := ignore.entries, move.entries, small.entries, tree.entries;
    LookParts(ignore, move, small, tree, lo, mid, hi);
    BoundedApart(p, q, r, t, lo, mid, hi);
    assert allocated(Elems(p)) && allocated(Elems(q)) && allocated(Elems(t));
    var count := CountIndices(small);
    table.small := count;
    assert ignore.Valid() && move.Valid() && tree.Valid();
  }

  lemma MovedFacts(v: View, w: View, a: seq<TreeEntry>, b: seq<TreeEntry>, b': seq<TreeEntry>, r: seq<TreeEntry>, d: seq<TreeEntry>, osize: nat, c: int)
    requires v.Sized() && osize <= |v.slots| && Elems(b') <= Elems(b) && Agrees(Elems(a + b + r + d), v.tree)
    requires Bounded(a, b, r, d, Make(osize, 0), Make(|v.slots|, 0), Make(v.next, 0))
    requires Midst(v, w, Elems(a) + Elems(r) + Elems(d), b', [], osize, c)
    ensures Growing(w, osize, c) && AllSettled(w, osize, c) && Carried(v, w)
    ensures Agrees(Elems(a + b' + r + d), w.tree)
    ensures Indices(r) == IndicesIn(w.tree.Keys, |w.slots|, w.next)
  {
    ElemsOfParts(a, b, r, d);
    ElemsOfParts(a, b', r, d);
    TransferDone(v, w, Elems(a) + Elems(r) + Elems(d), b', osize, c);
    StillAgrees(v, w, Elems(a) + Elems(r) + Elems(d) + Elems(b'), Elems(a) + Elems(r) + Elems(d) + Elems(b));
    Shrunk(a, b, b', r, d, Make(osize, 0), Make(|v.slots|, 0), Make(v.next, 0));
    SmallIndices(w, a, b', r, d, osize);
  }

  lemma StartParts(ignore: SplayTree, move: SplayTree, small: SplayTree, tree: SplayTree, osize: nat, v: View)
    requires v.Sized() && 0 < osize <= |v.slots| && Growing(v, osize, osize * GENERATIONS)
    requires InParts(ignore, move, small, tree, Make(osize, 0), Make(|v.slots|, 0), Make(v.next, 0))
    requires Agrees(Elems(ignore.entries + move.entries + small.entries + tree.entries), v.tree)
    ensures Midst(v, v, Elems(ignore.entries) + Elems(small.entries) + Elems(tree.entries), [], move.entries, osize, osize * GENERATIONS) == true
    ensures forall x :: x in Elems(move.entries) && x.name in v.tree ==> v.tree[x.name] == x.right
    ensures Bounded(ignore.entries, move.entries, small.entries, tree.entries, Make(osize, 0), Make(|v.slots|, 0), Make(v.next, 0))
  {
    ghost var a, b, r, d := ignore.entries, move.entries, small.entries, tree.entries;
    LookParts(ignore, move, small, tree, Make(osize, 0), Make(|v.slots|, 0), Make(v.next, 0));
    ElemsOfParts(a, b, r, d);
    move.InNameOrder();
    StartMidst(v, a, b, r, d, osize);
  }

  method TransferFrom(table: EntryTable, ignore: SplayTree, move: SplayTree, small: SplayTree, tree: SplayTree, lo: Name, mid: Name, hi: Name, ghost osize: nat, ghost v: View)
    returns (gone: seq<Name>, ghost w: View, ghost c: int)
    requires table.Is(v) && v.Sized() && 0 < osize <= |v.slots| && Growing(v, osize, osize * GENERATIONS)
    requires lo == Make(osize, 0) && mid == Make(|v.slots|, 0) && hi == Make(v.next, 0)
    requires InParts(ignore, move, small, tree, lo, mid, hi)
    requires Agrees(Elems(ignore.entries + move.entries + small.entries + tree.entries), v.tree)
    modifies table.slots, table`total, move, Elems(move.entries)`lchild, Elems(move.entries)`rchild
    ensures InParts(ignore, move, small, tree, lo, mid, hi) == true
    ensures Elems(move.entries) <= old(Elems(move.entries)) && small.entries == old(small.entries)
    ensures Agrees(Elems(ignore.entries + move.entries + small.entries + tree.entries), w.tree)
    ensures table.Is(w) && Indices(small.entries) == IndicesIn(w.tree.Keys, |w.slots|, w.next)
    ensures (Growing(w, osize, c) == true) && AllSettled(w, osize, c) && Carried(v, w) && Gone(v.tree, w.tree, gone)
  {
    ghost var a, b, r, d := ignore.entries, move.entries, small.entries, tree.entries;
    StartParts(ignore, move, small, tree, osize, v);
    assert allocated(Elems(a + b + r + d));
    gone, w, c := TransferParts(table, ignore, move, small, tree, lo, mid, hi, osize, osize * GENERATIONS, v);
    MovedFacts(v, w, a, b, move.entries, r, d, osize, c);
  }

  method MoveParts(table: EntryTable, ignore: SplayTree, move: SplayTree, small: SplayTree, tree: SplayTree, lo: Name, mid: Name, hi: Name, ghost osize: nat, ghost v: View)
    returns (gone: seq<Name>, ghost w: View, ghost c: int)
    requires table.Is(v) && v.Sized() && 0 < osize <= |v.slots| && Growing(v, osize, osize * GENERATIONS)
    requires lo == Make(osize, 0) && mid == Make(|v.slots|, 0) && hi == Make(v.next, 0)
    requires InParts(ignore, move, small, tree, lo, mid, hi)
    requires Agrees(Elems(ignore.entries + move.entries + small.entries + tree.entries), v.tree)
    modifies table.slots, table`total, table`small, move, small
    modifies Elems(move.entries)`lchild, Elems(move.entries)`rchild, Elems(small.entries)`lchild, Elems(small.entries)`rchild
    ensures InParts(ignore, move, small, tree, lo, mid, hi) == true
    ensures small.entries == old(small.entries) && Elems(move.entries) <= old(Elems(move.entries))
    ensures Agrees(Elems(ignore.entries + move.entries + small.entries + tree.entries), w.tree)
    ensures table.Is(w.(small := |IndicesIn(w.tree.Keys, |w.slots|, w.next)|))
    ensures (Growing(w, osize, c) == true) && AllSettled(w, osize, c) && Carried(v, w) && Gone(v.tree, w.tree, gone)
  {
    gone, w, c := TransferFrom(table, ignore, move, small, tree, lo, mid, hi, osize, v);
    assert allocated(Elems(ignore.entries + move.entries + small.entries + tree.entries));
    CountParts(table, ignore, move, small, tree, lo, mid, hi);
  }

  /** The part of ipc_entry_grow_table for a tree that is not empty. */
  method MoveIn(table: EntryTable, tree: SplayTree, osize: nat, ghost v: View) returns (gone: seq<Name>, ghost w: View, ghost c: int)
    requires table.Is(v) && tree.Valid() && Agrees(Elems(tree.entries), v.tree)
    requires v.Sized() && 0 < osize <= |v.slots| && Growing(v, osize, osize * GENERATIONS)
    modifies table.slots, table`total, table`small, tree, Elems(tree.entries)`lchild, Elems(tree.entries)`rchild
    ensures tree.Valid() && Elems(tree.entries) <= old(Elems(tree.entries)) && Agrees(Elems(tree.entries), w.tree)
    ensures table.Is(w.(small := |IndicesIn(w.tree.Keys, |w.slots|, w.next)|))
    ensures (Growing(w, osize, c) == true) && AllSettled(w, osize, c) && Carried(v, w) && Gone(v.tree, w.tree, gone)
  {
    var lo, mid, hi := Make(osize, 0), Make(table.slots.Length, 0), Make(table.next, 0);
    var ignore, move, small := Split(tree, lo, mid, hi);
    ElemsOfParts(ignore.entries, move.entries, small.entries, tree.entries);
    gone, w, c := MoveParts(table, ignore, move, small, tree, lo, mid, hi, osize, v);
    ElemsOfParts(ignore.entries, move.entries, small.entries, tree.entries);
    JoinUp(ignore, move, small, tree, lo, mid, hi);
  }

}
