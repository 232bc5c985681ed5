/** The splay tree kept unassembled between calls, proved to be an ordered map. */
module SplayTrees {
  import opened MachPort
  import opened SplayShape
  import opened SplayPrim
  import opened SplayTraverse

  lemma ShapeSorted(s: Shape)
    requires s.Ordered(LO, HI) && s.m.Node?
    ensures Sorted(s.Entries()) && Elems(s.Entries()) == s.All()
  {
    BstAssembled(s, LO, HI);
    AssembledOrder(s);
    BstSorted(Assembled(s), LO, HI);
  }

  /** Always true: an invariant stated to hold wherever this is mentioned is passed around whole elsewhere. */
  ghost predicate InsideTree(t: SplayTree, u: nat) {
    true
  }

  class SplayTree {
    var at: Cut       // ist_root, ist_ltree, ist_ltreep, ist_rtree, ist_rtreep
    var name: Name    // ist_name
    ghost var shape: Shape
    ghost var entries: seq<TreeEntry>   // in name order
    ghost var subtree: Tree             // during a traversal: the subtree at the current entry,
    ghost var path: Path                // the inverted path above it,
    ghost var position: nat             // and the number of entries passed and kept

    /** The heap holds the entries, split around the name of the last lookup. */
    ghost predicate Intact()
      reads this, Elems(entries)`lchild, Elems(entries)`rchild
    {
      Sorted(entries) && if at.tree == null then entries == [] else Split()
    }

    /** Intact, as clients pass it around: its parts come out only where a proof mentions InsideTree. */
    ghost predicate Valid()
      reads this, Elems(entries)`lchild, Elems(entries)`rchild
    {
      forall u: nat {:trigger InsideTree(this, u)} :: InsideTree(this, u) ==> Intact()
    }

    lemma Look()
      requires Valid()
      ensures Intact()
    {
      assert InsideTree(this, 0);
    }

    lemma InNameOrder()
      requires Valid()
      ensures Sorted(entries) && (at.tree == null <==> entries == [])
    {
      Look();
      if at.tree != null {
        assert shape.m.entry in shape.All();
      }
    }

    ghost predicate Split()
      reads this, Elems(entries)`lchild, Elems(entries)`rchild
    {
      && shape.Entries() == entries && shape.All() == Elems(entries)
      && shape.At(at) && shape.Around(name, LO, HI) && Stopped(name, shape.m)
    }

    /** ipc_splay_tree_init */
    constructor ()
      ensures Valid() && entries == []
    {
      at := Cut(null, null, null, null, null);
      name := 0;
      entries := [];
      shape := Shape(LTop, Leaf, RTop);
    }

    /** Shape s, split around n, becomes this tree's. */
    method SettleSplit(c: Cut, n: Name, ghost s: Shape)
      requires s.At(c) && s.Around(n, LO, HI) && Stopped(n, s.m)
      modifies `at, `name, `shape, `entries
      ensures Valid() && at == c && name == n && entries == s.Entries()
    {
      ShapeSorted(s);
      at, name, shape, entries := c, n, s, s.Entries();
      assert Sorted(entries);
      assert shape.At(at);
    }

    /** The whole tree is t, rooted at r: what every restructuring operation leaves. */
    method Settle(r: TreeEntry?, ghost t: Tree)
      requires Rep(r, t) && Bst(t, LO, HI)
      modifies `at, `name, `shape, `entries
      ensures Valid() && entries == InOrder(t)
    {
      WholeShape(t);
      if r == null {
        at, entries := at.(tree := null), [];
      } else {
        SettleSplit(Cut(r, at.ltree, null, at.rtree, null), r.name, Shape(LTop, t, RTop));
      }
    }

    /** The common start of every operation: splay for n unless the last lookup was for n. */
    method Seek(n: Name)
      requires Intact() && at.tree != null
      modifies this, Elems(entries)`lchild, Elems(entries)`rchild
      ensures Intact() && at.tree != null && entries == old(entries) && name == n
    {
      if name != n {
        var c, s := Resplay(at, n, shape, LO, HI);
        name, at, shape := n, c, s;
      }
    }

    /** ipc_splay_tree_lookup */
    method Lookup(n: Name) returns (e: TreeEntry?)
      requires Valid()
      modifies this, Elems(entries)`lchild, Elems(entries)`rchild
      ensures Valid() && entries == old(entries)
      ensures e != null ==> e in entries && e.name == n
      ensures e == null ==> forall x :: x in entries ==> x.name != n
    {
      Look();
      e := at.tree;
      if e != null {
        Seek(n);
        e := at.tree;
        Sought(n, shape);
        if n != e.name {
          e := null;
        }
      }
    }

    /** ipc_splay_tree_insert: e goes in at its place in name order. */
    method Insert(e: TreeEntry) returns (ghost k: nat)
      requires Valid() && forall x :: x in entries ==> x.name != e.name
      modifies this, Elems(entries)`lchild, Elems(entries)`rchild, {e}`lchild, {e}`rchild
      ensures k <= old(|entries|) && entries == old(entries)[..k] + [e] + old(entries)[k..]
      ensures Valid()
    {
      Look();
      if at.tree == null {
        k := 0;
        Crown(e, null, null, Leaf, Leaf);
        Settle(e, Node(Leaf, e, Leaf));
      } else {
        Seek(e.name);
        ghost var s := shape;
        ghost var below := e.name > s.m.entry.name;
        InsertedFacts(s, e, below);
        ghost var lt, rt := InsertedLeft(s, below), InsertedRight(s, below);
        k := |InOrder(lt)|;
        var lnext := if e.name < at.tree.name then null else at.tree;
        var rnext := if e.name < at.tree.name then at.tree else null;
        var ltree, rtree := FillHoles(at, lnext, rnext, s.l, s.r, if below then s.m else Leaf, if below then Leaf else s.m);
        Crown(e, ltree, rtree, lt, rt);
        Settle(e, Node(lt, e, rt));
      }
    }

    /** ipc_splay_tree_delete */
    method Delete(e: TreeEntry) returns (ghost k: nat)
      requires Valid() && e in entries
      modifies this, Elems(entries)`lchild, Elems(entries)`rchild
      ensures k < old(|entries|) && old(entries)[k] == e && entries == Less(old(entries), k)
      ensures Valid()
    {
      Look();
      Seek(e.name);
      ghost var s := shape;
      Sought(e.name, s);
      DeletedFacts(s);
      Cutting(InOrder(LPlug(s.l, s.m.left)), s.m.entry, InOrder(RPlug(s.r, s.m.right)));
      k := |InOrder(LPlug(s.l, s.m.left))|;
      var root, t := RemoveRoot(at, s);
      Settle(root, t);
    }

    /** Tree a becomes small's, tree b this one's. */
    method SettleBoth(small: SplayTree, p: TreeEntry?, q: TreeEntry?, ghost a: Tree, ghost b: Tree)
      requires small != this && Rep(p, a) && Rep(q, b) && Bst(a, LO, HI) && Bst(b, LO, HI)
      modifies `at, `name, `shape, `entries, small`at, small`name, small`shape, small`entries
      ensures Valid() && small.Valid() && entries == InOrder(b) && small.entries == InOrder(a)
    {
      assert allocated(Nodes(b));
      small.Settle(p, a);
      Settle(q, b);
      assert small.Valid();
    }

    /** The root and everything below it move to small. */
    method GiveRoot(n: Name, small: SplayTree)
      requires Intact() && small != this && at.tree != null && name == n && at.tree.name < n
      modifies this, small, Elems(entries)`lchild, Elems(entries)`rchild
      ensures Valid() && small.Valid()
      ensures old(entries) == small.entries + entries && AllBelow(small.entries, n) && AllAbove(entries, n)
    {
      ghost var s := shape;
      SplitBelow(n, s);
      var root := at.tree;
      var rtree := DetachRight(at, s);
      SettleBoth(small, root, rtree, Node(LPlug(s.l, s.m.left), s.m.entry, Leaf), RPlug(s.r, Leaf));
    }

    method SettleKept(small: SplayTree, p: TreeEntry?, c: Cut, n: Name, ghost a: Tree, ghost s: Shape)
      requires small != this && Rep(p, a) && Bst(a, LO, HI) && s.At(c) && s.Around(n, LO, HI) && Stopped(n, s.m)
      modifies `at, `name, `shape, `entries, small`at, small`name, small`shape, small`entries
      ensures Valid() && small.Valid() && entries == s.Entries() && small.entries == InOrder(a)
    {
      assert allocated(Nodes(a));
      SettleSplit(c, n, s);
      small.Settle(p, a);
      assert Valid();
    }

    /** The root stays; everything below it moves to small. */
    method KeepRoot(n: Name, small: SplayTree)
      requires Intact() && small != this && at.tree != null && name == n && n <= at.tree.name
      modifies this, small, Elems(entries)`lchild, Elems(entries)`rchild
      ensures Valid() && small.Valid()
      ensures old(entries) == small.entries + entries && AllBelow(small.entries, n) && AllAbove(entries, n)
    {
      ghost var s := shape;
      SplitAbove(n, s);
      KeptAround(n, s);
      var ltree := DetachLeft(at, s);
      SettleKept(small, ltree, at.(ltreep := null), n, LPlug(s.l, s.m.left), Kept(s));
    }

    /** ipc_splay_tree_split: the entries below n move to small. */
    method SplitOff(n: Name, small: SplayTree)
      requires Valid() && small != this
      modifies this, small, Elems(entries)`lchild, Elems(entries)`rchild
      ensures Valid() && small.Valid()
      ensures old(entries) == small.entries + entries && AllBelow(small.entries, n) && AllAbove(entries, n)
    {
      Look();
      small.Settle(null, Leaf);
      if at.tree != null {
        Seek(n);
        if at.tree.name < n {
          GiveRoot(n, small);
        } else {
          KeepRoot(n, small);
        }
      }
    }

    method PrependTop(p: TreeEntry?, ghost a: Tree)
      requires Split() && name == SMALLEST && Rep(p, a) && Bst(a, LO, HI) && Nodes(a) !! Elems(entries)
      requires forall x, y :: x in Nodes(a) && y in Elems(entries) ==> x.name < y.name
      modifies this, Elems(entries)`lchild, Elems(entries)`rchild
      ensures Valid() && entries == InOrder(a) + old(entries)
    {
      ghost var s := shape;
      Smallest(s, a);
      JoinLeft(at, p, s, a);
      Settle(at.tree, Node(a, s.m.entry, RPlug(s.r, s.m.right)));
    }

    /** Puts tree a, all of whose names are below every entry, in front of the entries. */
    method Prepend(p: TreeEntry?, ghost a: Tree)
      requires Valid() && at.tree != null && Rep(p, a) && Bst(a, LO, HI)
      requires forall x, y :: x in Nodes(a) && y in entries ==> x.name < y.name
      modifies this, Elems(entries)`lchild, Elems(entries)`rchild
      ensures Valid() && entries == InOrder(a) + old(entries)
    {
      Look();
      assert allocated(Nodes(a));
      assert Nodes(a) !! Elems(entries);
      Seek(SMALLEST);
      PrependTop(p, a);
    }

    /** Assembles the tree and hands it out, leaving this one empty. */
    method Assemble() returns (root: TreeEntry, ghost t: Tree)
      requires Valid() && at.tree != null
      modifies this, Elems(entries)`lchild, Elems(entries)`rchild
      ensures Valid() && entries == []
      ensures Rep(root, t) && Bst(t, LO, HI) && InOrder(t) == old(entries) && Nodes(t) == old(Elems(entries))
    {
      Look();
      ghost var s := shape;
      t := Assembled(s);
      AssembledOrder(s);
      BstAssembled(s, LO, HI);
      PrimAssemble(at, s, LO, HI);
      root := at.tree;
      Settle(null, Leaf);
    }

    /** ipc_splay_tree_join: small's entries, all below this tree's, move to the front of it. */
    method Join(small: SplayTree)
      requires Valid() && small.Valid() && small != this
      requires forall x, y :: x in small.entries && y in entries ==> x.name < y.name
      modifies this, small, Elems(entries)`lchild, Elems(entries)`rchild, Elems(small.entries)`lchild, Elems(small.entries)`rchild
      ensures Valid() && small.Valid()
      ensures entries == old(small.entries) + old(entries) && small.entries == []
    {
      InNameOrder();
      small.InNameOrder();
      if small.at.tree != null {
        assert Elems(small.entries) !! Elems(entries) && allocated(Elems(entries));
        var sroot, t := small.Assemble();
        if at.tree == null {
          Settle(sroot, t);
        } else {
          assert forall x :: x in Nodes(t) ==> x in old(small.entries);
          Prepend(sroot, t);
        }
      }
    }

    /** ipc_splay_tree_bounds */
    method Bounds(n: Name) returns (lower: Name, upper: Name)
      requires Valid()
      modifies this, Elems(entries)`lchild, Elems(entries)`rchild
      ensures Valid() && entries == old(entries)
      ensures IsLower(Elems(entries), n, lower) && IsUpper(Elems(entries), n, upper)
    {
      Look();
      if at.tree == null {
        lower, upper := LARGEST, SMALLEST;
      } else {
        Seek(n);
        Neighbours(n, shape);
        var rname := at.tree.name;
        lower := if rname <= n then rname else if at.ltreep == null then LARGEST else at.ltreep.name;
        upper := if rname >= n then rname else if at.rtreep == null then SMALLEST else at.rtreep.name;
      }
    }

    /** ipc_splay_tree_pick */
    method Pick() returns (e: TreeEntry?)
      requires Valid()
      ensures e == null <==> entries == []
      ensures e != null ==> e in entries
    {
      Look();
      e := at.tree;
      if e != null {
        assert e in shape.All();
      }
    }

    /** A traversal stands on entries[position], kept in at.ltree with its inverted parent in at.rtree. */
    ghost predicate Traversing()
      reads this, Elems(entries)`lchild, Elems(entries)`rchild
    {
      && Sorted(entries) && SplayTraverse.All(subtree, path) == Elems(entries)
      && Hangs(at.ltree, at.rtree, subtree, path) && HangsInOrder(subtree, path) && subtree.Node?
      && position == |Passed(subtree, path)|
      && entries == Passed(subtree, path) + [subtree.entry] + ToCome(subtree, path)
    }

    /** A traversal has come back to the root, with every pointer restored. */
    ghost predicate Finished()
      reads this, Elems(entries)`lchild, Elems(entries)`rchild
    {
      && Nodes(subtree) == Elems(entries) && Rep(at.tree, subtree) && Bst(subtree, LO, HI)
      && InOrder(subtree) == entries && position == |entries|
    }

    /** A traversal stands on e, or has come to the end when e is null; its parts come out only where a proof mentions InsideTree. */
    ghost predicate On(e: TreeEntry?)
      reads this, Elems(entries)`lchild, Elems(entries)`rchild
    {
      && (if e == null then position == |entries| else position < |entries| && e == entries[position])
      && forall u: nat {:trigger InsideTree(this, u)} :: InsideTree(this, u) ==> if e == null then Finished() else Traversing()
    }

    method Stand(current: TreeEntry?, parent: TreeEntry?, done: bool, ghost t: Tree, ghost p: Path, ghost kept: seq<TreeEntry>, ghost todo: seq<TreeEntry>)
      returns (e: TreeEntry?)
      requires Hangs(current, parent, t, p) && Stepped(done, t, p, kept, todo)
      requires Sorted(kept + todo) && SplayTraverse.All(t, p) == Elems(kept + todo)
      modifies `at, `entries, `subtree, `path, `position
      ensures entries == kept + todo && position == |kept|
      ensures On(e)
    {
      if done {
        StandStill(current, t, p, kept);
        e := null;
      } else {
        StandOn(current, parent, t, p, kept, todo);
        e := current;
      }
    }

    method StandStill(current: TreeEntry?, ghost t: Tree, ghost p: Path, ghost kept: seq<TreeEntry>)
      requires Rep(current, t) && Stepped(true, t, p, kept, []) && SplayTraverse.All(t, p) == Elems(kept)
      modifies `at, `entries, `subtree, `path, `position
      ensures entries == kept && position == |kept| && On(null)
    {
      at, entries, subtree, path, position := at.(tree := current), kept, t, p, |kept|;
      assert kept == kept + [];
      Returned(kept, []);
    }

    method StandOn(current: TreeEntry?, parent: TreeEntry?, ghost t: Tree, ghost p: Path, ghost kept: seq<TreeEntry>, ghost todo: seq<TreeEntry>)
      requires Hangs(current, parent, t, p) && Stepped(false, t, p, kept, todo)
      requires Sorted(kept + todo) && SplayTraverse.All(t, p) == Elems(kept + todo)
      modifies `at, `entries, `subtree, `path, `position
      ensures entries == kept + todo && position == |kept| && On(current)
    {
      at, entries, subtree, path, position := at.(ltree := current, rtree := parent), kept + todo, t, p, |kept|;
      Arrived(kept, todo);
    }

    lemma Returned(kept: seq<TreeEntry>, todo: seq<TreeEntry>)
      requires entries == kept + todo && position == |kept| && Stepped(true, subtree, path, kept, todo)
      requires SplayTraverse.All(subtree, path) == Elems(entries) && Rep(at.tree, subtree)
      ensures On(null)
    {
      assert Finished();
    }

    lemma Arrived(kept: seq<TreeEntry>, todo: seq<TreeEntry>)
      requires entries == kept + todo && position == |kept| && Stepped(false, subtree, path, kept, todo)
      requires Sorted(entries) && SplayTraverse.All(subtree, path) == Elems(entries) && Hangs(at.ltree, at.rtree, subtree, path)
      ensures On(at.ltree)
    {
      Arranged(subtree, path, kept, todo);
      assert Traversing();
    }

    /** ipc_splay_traverse_start */
    method TraverseStart() returns (e: TreeEntry?)
      requires Valid()
      modifies this, Elems(entries)`lchild, Elems(entries)`rchild
      ensures entries == old(entries) && position == 0 && On(e)
    {
      Look();
      e := at.tree;
      if e == null {
        subtree, path, position := Leaf, PTop, 0;
      } else {
        var current, parent, t, p := Begin(at, shape);
        assert [] + entries == entries;
        e := Stand(current, parent, false, t, p, [], entries);
      }
    }

    lemma LookAround()
      requires position < |entries| && On(entries[position])
      ensures Traversing()
    {
      assert InsideTree(this, 0);
    }

    /** ipc_splay_traverse_next: passes the current entry, taking it out of the tree if asked to. */
    method TraverseNext(delete: bool) returns (e: TreeEntry?)
      requires position < |entries| && On(entries[position])
      modifies this, Elems(entries)`lchild, Elems(entries)`rchild
      ensures entries == if delete then Less(old(entries), old(position)) else old(entries)
      ensures position == (if delete then old(position) else old(position) + 1) && On(e)
    {
      LookAround();
      ghost var kept, todo := Passed(subtree, path) + (if delete then [] else [subtree.entry]), ToCome(subtree, path);
      Cutting(Passed(subtree, path), subtree.entry, todo);
      assert delete ==> kept == Passed(subtree, path);
      Thinned(entries, position);
      assert kept + todo == if delete then Less(entries, position) else entries;
      var current, parent, done, t', p' := Advance(at.ltree, at.rtree, delete, subtree, path);
      e := Stand(current, parent, done, t', p', kept, todo);
    }

    /** ipc_splay_traverse_finish */
    method TraverseFinish()
      requires On(null)
      modifies this
      ensures Valid() && entries == old(entries)
    {
      assert Finished() by {
        assert InsideTree(this, 0);
      }
      Settle(at.tree, subtree);
    }

    /** A whole traversal, deleting wherever the choices say so: each entry is met once, in name order. */
    method Traverse(choices: seq<bool>) returns (visited: seq<TreeEntry>)
      requires Valid() && |choices| == |entries|
      modifies this, Elems(entries)`lchild, Elems(entries)`rchild
      ensures visited == old(entries)
      ensures Valid() && entries == Undeleted(old(entries), choices)
    {
      ghost var all := entries;
      visited := [];
      var n := 0;
      var e := TraverseStart();
      assert entries == [] + all[0..];
      while e != null
        invariant n <= |all| && visited == all[..n] && Midway(entries, position, all, choices, n) && On(e)
        decreases |all| - n
      {
        UndeletedStep(all, choices, n);
        var current: TreeEntry := e;
        visited := visited + [current];
        e := TraverseNext(choices[n]);
        n := n + 1;
      }
      assert all[..|all|] == all && choices[..|all|] == choices;
      TraverseFinish();
    }
  }

  /** A traversal of all has met its first n entries and deleted what the choices said. */
  ghost predicate Midway(entries: seq<TreeEntry>, position: nat, all: seq<TreeEntry>, choices: seq<bool>, n: nat)
    requires n <= |all| == |choices|
  {
    var u := Undeleted(all[..n], choices[..n]);
    entries == u + all[n..] && position == |u| && Elems(entries) <= Elems(all)
  }

  ghost function Less(s: seq<TreeEntry>, k: nat): seq<TreeEntry>
    requires k < |s|
  {
    s[..k] + s[k + 1..]
  }

  lemma Thinned(s: seq<TreeEntry>, k: nat)
    requires Sorted(s) && k < |s|
    ensures Sorted(Less(s, k)) && Elems(Less(s, k)) == Elems(s) - {s[k]}
  {
  }

  lemma Arranged(t: Tree, p: Path, kept: seq<TreeEntry>, todo: seq<TreeEntry>)
    requires Stepped(false, t, p, kept, todo)
    ensures kept + todo == Passed(t, p) + [t.entry] + ToCome(t, p) && |kept| == |Passed(t, p)| && (kept + todo)[|kept|] == t.entry
  {
    assert todo[0] == t.entry;
  }

  /** The entries whose choice is not to delete. */
  ghost function Undeleted(s: seq<TreeEntry>, choices: seq<bool>): seq<TreeEntry>
    requires |s| == |choices|
  {
    if s == [] then [] else
      var n := |s| - 1;
      Undeleted(s[..n], choices[..n]) + if choices[n] then [] else [s[n]]
  }

  lemma UndeletedStep(all: seq<TreeEntry>, choices: seq<bool>, n: nat)
    requires n < |all| == |choices|
    ensures var u, u' := Undeleted(all[..n], choices[..n]), Undeleted(all[..n + 1], choices[..n + 1]);
      var now := u + all[n..];
      && u' == u + (if choices[n] then [] else [all[n]])
      && now[|u|] == all[n] && all[..n] + [all[n]] == all[..n + 1]
      && u' + all[n + 1..] == if choices[n] then now[..|u|] + now[|u| + 1..] else now
  {
    assert all[..n + 1][..n] == all[..n] && choices[..n + 1][..n] == choices[..n];
  }

  /** b is the largest name at or below n, or LARGEST when there is none. */
  ghost predicate IsLower(s: set<TreeEntry>, n: Name, b: Name) {
    if exists x :: x in s && x.name <= n
    then (exists x :: x in s && x.name == b) && b <= n && forall x :: x in s && x.name <= n ==> x.name <= b
    else b == LARGEST
  }

  /** b is the smallest name at or above n, or SMALLEST when there is none. */
  ghost predicate IsUpper(s: set<TreeEntry>, n: Name, b: Name) {
    if exists x :: x in s && n <= x.name
    then (exists x :: x in s && x.name == b) && n <= b && forall x :: x in s && n <= x.name ==> b <= x.name
    else b == SMALLEST
  }

  /** After a splay for n its neighbours are the middle root and the ends of the two spines. */
  lemma Neighbours(n: Name, s: Shape)
    requires s.Around(n, LO, HI) && Stopped(n, s.m)
    ensures IsLower(s.All(), n, if s.m.entry.name <= n then s.m.entry.name else if s.l.LTop? then LARGEST else s.l.entry.name)
    ensures IsUpper(s.All(), n, if s.m.entry.name >= n then s.m.entry.name else if s.r.RTop? then SMALLEST else s.r.entry.name)
  {
    LBstBounds(s.l, LO);
    RBstBounds(s.r, HI);
    BstBounds(s.m.left, Low(s.l, LO), s.m.entry.name);
    BstBounds(s.m.right, s.m.entry.name, High(s.r, HI));
    assert s.m.entry in s.All();
    assert s.l.LLink? ==> s.l.entry in s.All();
    assert s.r.RLink? ==> s.r.entry in s.All();
  }

  lemma Smallest(s: Shape, a: Tree)
    requires s.Around(SMALLEST, LO, HI) && Stopped(SMALLEST, s.m) && Bst(a, LO, HI)
    requires forall x, y :: x in Nodes(a) && y in s.All() ==> x.name < y.name
    ensures s.l.LTop? && s.m.left.Leaf? && Bst(a, LO, s.m.entry.name)
    ensures var t := Node(a, s.m.entry, RPlug(s.r, s.m.right)); InOrder(t) == InOrder(a) + s.Entries() && Bst(t, LO, HI)
  {
    SmallestOnTop(s, SMALLEST, LO, HI);
    assert s.m.entry in s.All();
    BstBounds(a, LO, HI);
    BstTighten(a, LO, HI, LO, s.m.entry.name);
    HungLeft(s, a);
  }

  lemma Cutting(a: seq<TreeEntry>, e: TreeEntry, b: seq<TreeEntry>)
    ensures var s := a + [e] + b; s[..|a|] == a && s[|a|] == e && s[|a| + 1..] == b
  {
  }

  /** After a splay for n only the middle root can be named n. */
  lemma Sought(n: Name, s: Shape)
    requires s.Around(n, LO, HI) && Stopped(n, s.m)
    ensures forall e :: e in s.All() ==> (e.name == n ==> e == s.m.entry)
    ensures s.m.entry in s.All()
  {
    LBstBounds(s.l, LO);
    RBstBounds(s.r, HI);
    BstBounds(s.m.left, Low(s.l, LO), s.m.entry.name);
    BstBounds(s.m.right, s.m.entry.name, High(s.r, HI));
  }

  lemma WholeShape(t: Tree)
    requires Bst(t, LO, HI)
    ensures var s := Shape(LTop, t, RTop);
      && s.Entries() == InOrder(t) && s.All() == Nodes(t)
      && (t.Node? ==> s.Around(t.entry.name, LO, HI) && Stopped(t.entry.name, t))
  {
  }

  /** The trees on the two sides of a new entry e, with the middle tree on its own side of e. */
  ghost function InsertedLeft(s: Shape, below: bool): Tree {
    LPlug(s.l, if below then s.m else Leaf)
  }

  ghost function InsertedRight(s: Shape, below: bool): Tree {
    RPlug(s.r, if below then Leaf else s.m)
  }

  lemma InsertedOrder(s: Shape, below: bool)
    ensures Nodes(InsertedLeft(s, below)) + Nodes(InsertedRight(s, below)) == s.All()
    ensures InOrder(InsertedLeft(s, below)) + InOrder(InsertedRight(s, below)) == s.Entries()
  {
    if below {
      InsertedBelow(s);
    } else {
      InsertedAbove(s);
    }
  }

  lemma InsertedBelow(s: Shape)
    ensures Nodes(LPlug(s.l, s.m)) + Nodes(RPlug(s.r, Leaf)) == s.All()
    ensures InOrder(LPlug(s.l, s.m)) + InOrder(RPlug(s.r, Leaf)) == s.Entries()
  {
    LPlugOrder(s.l, s.m);
    RPlugOrder(s.r, Leaf);
  }

  lemma InsertedAbove(s: Shape)
    ensures Nodes(LPlug(s.l, Leaf)) + Nodes(RPlug(s.r, s.m)) == s.All()
    ensures InOrder(LPlug(s.l, Leaf)) + InOrder(RPlug(s.r, s.m)) == s.Entries()
  {
    LPlugOrder(s.l, Leaf);
    RPlugOrder(s.r, s.m);
  }

  lemma BstInserted(s: Shape, e: TreeEntry, below: bool)
    requires s.Around(e.name, LO, HI) && Stopped(e.name, s.m)
    requires if below then s.m.entry.name < e.name else e.name < s.m.entry.name
    ensures Bst(InsertedLeft(s, below), LO, e.name)
    ensures Bst(InsertedRight(s, below), e.name, HI)
  {
    if below {
      BstLPlug(s.l, s.m, LO, e.name);
      BstRPlug(s.r, Leaf, e.name, HI);
    } else {
      BstLPlug(s.l, Leaf, LO, e.name);
      BstRPlug(s.r, s.m, e.name, HI);
    }
  }

  lemma InsertedFacts(s: Shape, e: TreeEntry, below: bool)
    requires s.Around(e.name, LO, HI) && Stopped(e.name, s.m)
    requires if below then s.m.entry.name < e.name else e.name < s.m.entry.name
    ensures Apart(s) && e !in s.All()
    ensures Bst(Node(InsertedLeft(s, below), e, InsertedRight(s, below)), LO, HI)
    ensures Nodes(InsertedLeft(s, below)) + Nodes(InsertedRight(s, below)) == s.All()
    ensures InOrder(InsertedLeft(s, below)) + InOrder(InsertedRight(s, below)) == s.Entries()
  {
    OrderedApart(s, LO, HI);
    Sought(e.name, s);
    BstInserted(s, e, below);
    InsertedOrder(s, below);
  }

  ghost predicate AllBelow(s: seq<TreeEntry>, n: int) {
    forall x :: x in s ==> x.name < n
  }

  ghost predicate AllAbove(s: seq<TreeEntry>, n: int) {
    forall x :: x in s ==> n <= x.name
  }

  lemma BstBelow(t: Tree, n: int)
    requires Bst(t, LO, n) && n <= HI
    ensures Bst(t, LO, HI) && AllBelow(InOrder(t), n)
  {
    BstSorted(t, LO, n);
    BstBounds(t, LO, n);
    BstTighten(t, LO, n, LO, HI);
  }

  lemma BstAbove(t: Tree, n: int)
    requires Bst(t, n - 1, HI) && LO < n
    ensures Bst(t, LO, HI) && AllAbove(InOrder(t), n)
  {
    BstSorted(t, n - 1, HI);
    BstBounds(t, n - 1, HI);
    BstTighten(t, n - 1, HI, LO, HI);
  }

  lemma SplitBelow(n: Name, s: Shape)
    requires s.Around(n, LO, HI) && Stopped(n, s.m) && s.m.entry.name < n
    ensures var a, b := Node(LPlug(s.l, s.m.left), s.m.entry, Leaf), RPlug(s.r, Leaf);
      && Bst(a, LO, HI) && Bst(b, LO, HI)
      && s.Entries() == InOrder(a) + InOrder(b)
      && AllBelow(InOrder(a), n) && AllAbove(InOrder(b), n)
  {
    var a, b := Node(LPlug(s.l, s.m.left), s.m.entry, Leaf), RPlug(s.r, Leaf);
    BstLPlug(s.l, s.m.left, LO, s.m.entry.name);
    BstRPlug(s.r, Leaf, n - 1, HI);
    BstBelow(a, n);
    BstAbove(b, n);
    BelowOrder(s);
  }

  lemma BelowOrder(s: Shape)
    requires s.m.Node? && s.m.right.Leaf?
    ensures s.Entries() == InOrder(Node(LPlug(s.l, s.m.left), s.m.entry, Leaf)) + InOrder(RPlug(s.r, Leaf))
  {
    AssembledOrder(s);
    assert Assembled(s) == Node(LPlug(s.l, s.m.left), s.m.entry, RPlug(s.r, Leaf));
  }

  /** What stays when the left tree is let go: the middle root without its left child, and the right tree. */
  ghost function Kept(s: Shape): Shape
    requires s.m.Node?
  {
    Shape(LTop, Node(Leaf, s.m.entry, s.m.right), s.r)
  }

  lemma KeptAround(n: Name, s: Shape)
    requires s.Around(n, LO, HI) && Stopped(n, s.m) && n <= s.m.entry.name
    ensures Kept(s).Around(n, LO, HI) && Stopped(n, Kept(s).m)
    ensures Sorted(Kept(s).Entries()) && Kept(s).All() == Elems(Kept(s).Entries())
    ensures AllAbove(Kept(s).Entries(), n)
  {
    ShapeSorted(Kept(s));
    AssembledOrder(Kept(s));
    BstAssembled(Kept(s), n - 1, HI);
    BstAbove(Assembled(Kept(s)), n);
  }

  lemma SplitAbove(n: Name, s: Shape)
    requires s.Around(n, LO, HI) && Stopped(n, s.m) && n <= s.m.entry.name
    ensures var a := LPlug(s.l, s.m.left);
      && Bst(a, LO, HI) && s.Entries() == InOrder(a) + Kept(s).Entries() && AllBelow(InOrder(a), n)
  {
    BstLPlug(s.l, s.m.left, LO, n);
    BstBelow(LPlug(s.l, s.m.left), n);
    KeptOrder(s);
  }

  lemma KeptOrder(s: Shape)
    requires s.m.Node?
    ensures s.Entries() == InOrder(LPlug(s.l, s.m.left)) + Kept(s).Entries()
  {
    AssembledOrder(s);
    AssembledOrder(Kept(s));
    assert Assembled(Kept(s)) == Node(Leaf, s.m.entry, Assembled(s).right);
  }
}
