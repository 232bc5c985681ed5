/** The overflow tree of a capability space as ipc/ipc_entry.c uses it: a map from names to rights. */
module EntryTrees {
  import opened MachPort
  import opened SplayShape
  import opened SplayTrees
  import opened SpaceView

  /** The entries of s hold exactly the rights of t, each under its own name. */
  ghost predicate Agrees(s: set<TreeEntry>, t: map<Name, Right>)
    reads s`right
  {
    && (forall e :: e in s ==> e.name in t && t[e.name] == e.right)
    && (forall n :: n in t ==> Holds(s, n))
  }

  ghost predicate Holds(s: set<TreeEntry>, n: Name) {
    exists e :: e in s && e.name == n
  }

  /** Always true: an invariant stated to hold wherever this is mentioned is passed around whole elsewhere. */
  ghost predicate InsideMap(t: EntryTree, u: nat) {
    true
  }

  class EntryTree {
    const tree: SplayTree
    ghost var rights: map<Name, Right>

    ghost predicate Intact()
      reads this, tree, Elems(tree.entries)
    {
      tree.Valid() && Agrees(Elems(tree.entries), rights)
    }

    /** Intact, passed around whole. */
    ghost predicate Valid()
      reads this, tree, Elems(tree.entries)
    {
      forall u: nat {:trigger InsideMap(this, u)} :: InsideMap(this, u) ==> Intact()
    }

    lemma Look()
      requires Valid()
      ensures Intact()
    {
      assert InsideMap(this, 0);
    }

    lemma Holding(e: TreeEntry)
      requires Valid() && e in tree.entries
      ensures e.name in rights && rights[e.name] == e.right
    {
      Look();
    }

    constructor ()
      ensures Valid() && rights == map[] && fresh(tree) && tree.entries == []
    {
      tree := new SplayTree();
      rights := map[];
    }

    method Lookup(n: Name) returns (e: TreeEntry?)
      requires Valid()
      modifies tree, Elems(tree.entries)`lchild, Elems(tree.entries)`rchild
      ensures Valid() && tree.entries == old(tree.entries)
      ensures (e != null) == (n in rights) && (e != null ==> e in tree.entries && e.name == n)
    {
      Look();
      e := tree.Lookup(n);
      assert n in rights ==> Holds(Elems(tree.entries), n);
    }

    /** ipc_splay_tree_insert of a fresh entry */
    method Insert(e: TreeEntry)
      requires Valid() && e.name !in rights
      modifies this, tree, Elems(tree.entries)`lchild, Elems(tree.entries)`rchild, {e}`lchild, {e}`rchild
      ensures Valid() && rights == old(rights)[e.name := e.right] && Elems(tree.entries) == old(Elems(tree.entries)) + {e}
    {
      Look();
      ghost var was := tree.entries;
      ghost var k := tree.Insert(e);
      ElemsPlus(was, k, e);
      assert Agrees(Elems(was), rights);
      Added(Elems(was), e, rights);
      rights := rights[e.name := e.right];
    }

    /** ipc_splay_tree_delete */
    method Delete(e: TreeEntry)
      requires Valid() && e in tree.entries
      modifies this, tree, Elems(tree.entries)`lchild, Elems(tree.entries)`rchild
      ensures Valid() && rights == old(rights) - {e.name} && Elems(tree.entries) == old(Elems(tree.entries)) - {e}
    {
      Look();
      ghost var was := tree.entries;
      tree.InNameOrder();
      ghost var k := tree.Delete(e);
      RemovedAt(was, k, rights);
      rights := rights - {e.name};
    }

    /** The right of an entry is rewritten. */
    method SetRight(e: TreeEntry, r: Right)
      requires Valid() && e in tree.entries
      modifies `rights, e`right
      ensures Valid() && e.name in old(rights) && rights == old(rights)[e.name := r]
    {
      Look();
      tree.InNameOrder();
      Rewrite(tree.entries, e, r, rights);
      rights := rights[e.name := r];
    }

    /** ipc_entry_tree_collision */
    method Collides(n: Name) returns (hit: bool)
      requires Valid() && DEAD !in rights && NULL !in rights
      modifies tree, Elems(tree.entries)`lchild, Elems(tree.entries)`rchild
      ensures Valid() && tree.entries == old(tree.entries)
      ensures hit == HasIndex(rights.Keys, Index(n))
    {
      Look();
      var lower, upper := tree.Bounds(n);
      hit := (lower != LARGEST && Index(lower) == Index(n)) || (upper != SMALLEST && Index(upper) == Index(n));
      BoundsCollide(Elems(tree.entries), rights, n, lower, upper);
    }

    /** The tree has been regrouped; these are its rights now. */
    ghost method Adopt(t: map<Name, Right>)
      requires tree.Valid() && Agrees(Elems(tree.entries), t)
      modifies `rights
      ensures Valid() && rights == t
    {
      rights := t;
    }

    /** The middle of ipc_entry_dealloc: takes some entry of index i out of the tree, and says whether another is left. */
    method TakeIndex(i: nat) returns (e: TreeEntry, more: bool)
      requires Valid() && i + 1 < INDICES && HasIndex(rights.Keys, i)
      modifies this, tree, Elems(tree.entries)`lchild, Elems(tree.entries)`rchild
      ensures Valid() && rights == old(rights) - {e.name} && Elems(tree.entries) == old(Elems(tree.entries)) - {e}
      ensures e.name in old(rights) && e.right == old(rights)[e.name] && e in old(tree.entries)
      ensures Index(e.name) == i && more == HasIndex(rights.Keys, i)
    {
      Look();
      ghost var was := tree.entries;
      assert Agrees(Elems(was), rights);
      ghost var k;
      tree.InNameOrder();
      Between(was, i, rights);
      e, more, k := TakeBetween(tree, Make(i, 0), Make(i + 1, 0));
      Thinned(was, k);
      Removed(was, e, rights);
      rights := rights - {e.name};
      Between(tree.entries, i, rights);
    }
  }

  lemma ElemsPlus(s: seq<TreeEntry>, k: nat, e: TreeEntry)
    requires k <= |s|
    ensures Elems(s[..k] + [e] + s[k..]) == Elems(s) + {e}
  {
    assert s == s[..k] + s[k..];
  }

  lemma Added(s: set<TreeEntry>, e: TreeEntry, t: map<Name, Right>)
    requires Agrees(s, t) && e.name !in t
    ensures Agrees(s + {e}, t[e.name := e.right])
  {
    forall n | n in t[e.name := e.right]
      ensures Holds(s + {e}, n)
    {
      if n != e.name {
        assert Holds(s, n);
      }
    }
  }

  lemma OneName(s: seq<TreeEntry>, x: TreeEntry, y: TreeEntry)
    requires Sorted(s) && x in s && y in s && x.name == y.name
    ensures x == y
  {
  }

  method Rewrite(ghost s: seq<TreeEntry>, e: TreeEntry, r: Right, ghost t: map<Name, Right>)
    requires Sorted(s) && e in s && Agrees(Elems(s), t)
    modifies e`right
    ensures Agrees(Elems(s), t[e.name := r])
  {
    e.right := r;
    forall x | x in Elems(s) && x.name == e.name
      ensures x == e
    {
      OneName(s, x, e);
    }
    assert forall n :: n in t[e.name := r] ==> n in t && Holds(Elems(s), n);
  }

  lemma RemovedAt(s: seq<TreeEntry>, k: nat, t: map<Name, Right>)
    requires Sorted(s) && k < |s| && Agrees(Elems(s), t)
    ensures Elems(Less(s, k)) == Elems(s) - {s[k]} && Agrees(Elems(Less(s, k)), t - {s[k].name})
  {
    Thinned(s, k);
    Removed(s, s[k], t);
  }

  lemma Removed(s: seq<TreeEntry>, e: TreeEntry, t: map<Name, Right>)
    requires Sorted(s) && e in s && Agrees(Elems(s), t)
    ensures Agrees(Elems(s) - {e}, t - {e.name})
  {
    forall x | x in Elems(s) - {e}
      ensures x.name in t - {e.name}
    {
      if x.name == e.name {
        OneName(s, x, e);
      }
    }
    forall n | n in t - {e.name}
      ensures Holds(Elems(s) - {e}, n)
    {
      assert Holds(Elems(s), n);
    }
  }

  /** A name of the same index as n lies between n and one of its tight neighbours, which then has that index too. */
  lemma BoundsCollide(s: set<TreeEntry>, t: map<Name, Right>, n: Name, lower: Name, upper: Name)
    requires Agrees(s, t) && DEAD !in t && NULL !in t && IsLower(s, n, lower) && IsUpper(s, n, upper)
    ensures HasIndex(t.Keys, Index(n)) <==> (lower != LARGEST && Index(lower) == Index(n)) || (upper != SMALLEST && Index(upper) == Index(n))
  {
    if HasIndex(t.Keys, Index(n)) {
      var m :| m in t.Keys && Index(m) == Index(n);
      assert Holds(s, m);
      var e :| e in s && e.name == m;
      if m <= n {
        OrderOfNames(lower, m);
        OrderOfNames(n, lower);
      } else {
        OrderOfNames(upper, n);
        OrderOfNames(m, upper);
      }
    }
    if lower != LARGEST {
      assert exists x :: x in s && x.name == lower;
      assert lower in t.Keys;
    }
    if upper != SMALLEST {
      assert exists x :: x in s && x.name == upper;
      assert upper in t.Keys;
    }
  }

  /** Whether some entry has a name in [lo, hi). */
  ghost predicate Within(s: seq<TreeEntry>, lo: Name, hi: Name) {
    exists e :: e in s && lo <= e.name < hi
  }

  lemma Between(s: seq<TreeEntry>, i: nat, t: map<Name, Right>)
    requires i + 1 < INDICES && Agrees(Elems(s), t)
    ensures Within(s, Make(i, 0), Make(i + 1, 0)) <==> HasIndex(t.Keys, i)
  {
    if HasIndex(t.Keys, i) {
      var n :| n in t.Keys && Index(n) == i;
      assert Holds(Elems(s), n);
      OrderOfNames(n, Make(i, 0));
      OrderOfNames(n, Make(i + 1, 0));
    }
    if Within(s, Make(i, 0), Make(i + 1, 0)) {
      var e :| e in s && Make(i, 0) <= e.name < Make(i + 1, 0);
      OrderOfNames(e.name, Make(i, 0));
      OrderOfNames(e.name, Make(i + 1, 0));
      assert e.name in t.Keys;
    }
  }

  /** Splits the tree in three: the names below lo, those in [lo, hi), and those from hi on, which stay. */
  method Isolate(tree: SplayTree, lo: Name, hi: Name, mid: SplayTree, low: SplayTree)
    requires tree.Valid() && lo <= hi && tree != mid && tree != low && mid != low
    modifies tree, mid, low, Elems(tree.entries)`lchild, Elems(tree.entries)`rchild
    ensures tree.Valid() && mid.Valid() && low.Valid()
    ensures old(tree.entries) == low.entries + mid.entries + tree.entries
    ensures AllBelow(low.entries, lo) && AllAbove(mid.entries, lo) && AllBelow(mid.entries, hi) && AllAbove(tree.entries, hi)
  {
    tree.SplitOff(hi, mid);
    assert Elems(mid.entries) !! Elems(tree.entries);
    assert allocated(Elems(tree.entries));
    mid.SplitOff(lo, low);
  }

  /** Takes out the entry ipc_splay_tree_pick gives, and says whether any is left. */
  method Excise(tree: SplayTree) returns (e: TreeEntry, more: bool, ghost k: nat)
    requires tree.Valid() && tree.entries != []
    modifies tree, Elems(tree.entries)`lchild, Elems(tree.entries)`rchild
    ensures tree.Valid() && more == (tree.entries != [])
    ensures k < |old(tree.entries)| && old(tree.entries)[k] == e && tree.entries == Less(old(tree.entries), k)
  {
    var picked := tree.Pick();
    e := picked;
    k := tree.Delete(e);
    var other := tree.Pick();
    more := other != null;
  }

  /** Puts the parts together again. */
  method Rejoin(tree: SplayTree, mid: SplayTree, low: SplayTree, lo: Name, hi: Name)
    requires tree.Valid() && mid.Valid() && low.Valid() && lo <= hi && tree != mid && tree != low && mid != low
    requires AllBelow(low.entries, lo) && AllAbove(mid.entries, lo) && AllBelow(mid.entries, hi) && AllAbove(tree.entries, hi)
    modifies tree, Elems(tree.entries)`lchild, Elems(tree.entries)`rchild
    modifies mid, Elems(mid.entries)`lchild, Elems(mid.entries)`rchild
    modifies low, Elems(low.entries)`lchild, Elems(low.entries)`rchild
    ensures tree.Valid() && tree.entries == old(low.entries) + old(mid.entries) + old(tree.entries)
  {
    assert Elems(low.entries) !! Elems(mid.entries) && Elems(low.entries) !! Elems(tree.entries);
    assert allocated(Elems(low.entries));
    tree.Join(mid);
    tree.Join(low);
  }

  lemma LessMiddle(a: seq<TreeEntry>, b: seq<TreeEntry>, c: seq<TreeEntry>, k: nat)
    requires k < |b|
    ensures a + Less(b, k) + c == Less(a + b + c, |a| + k) && (a + b + c)[|a| + k] == b[k]
  {
  }

  method TakeMiddle(tree: SplayTree, mid: SplayTree, low: SplayTree, lo: Name, hi: Name) returns (e: TreeEntry, more: bool, ghost k: nat)
    requires tree.Valid() && mid.Valid() && low.Valid() && lo <= hi && tree != mid && tree != low && mid != low
    requires AllBelow(low.entries, lo) && AllAbove(mid.entries, lo) && AllBelow(mid.entries, hi) && AllAbove(tree.entries, hi)
    requires mid.entries != []
    modifies tree, Elems(tree.entries)`lchild, Elems(tree.entries)`rchild
    modifies mid, Elems(mid.entries)`lchild, Elems(mid.entries)`rchild
    modifies low, Elems(low.entries)`lchild, Elems(low.entries)`rchild
    ensures k < |old(mid.entries)| && old(mid.entries)[k] == e && more == (Less(old(mid.entries), k) != [])
    ensures tree.Valid() && tree.entries == old(low.entries) + Less(old(mid.entries), k) + old(tree.entries)
  {
    ghost var a, b, c := low.entries, mid.entries, tree.entries;
    assert Elems(b) !! Elems(a) && Elems(b) !! Elems(c);
    assert allocated(Elems(a)) && allocated(Elems(c));
    e, more, k := Excise(mid);
    assert forall x :: x in mid.entries ==> x in b;
    if more {
      Rejoin(tree, mid, low, lo, hi);
    } else {
      tree.Join(low);
    }
  }

  /** The split, pick, delete, pick, join, join of ipc_entry_dealloc. */
  method TakeBetween(tree: SplayTree, lo: Name, hi: Name) returns (e: TreeEntry, more: bool, ghost k: nat)
    requires tree.Valid() && lo <= hi && Within(tree.entries, lo, hi)
    modifies tree, Elems(tree.entries)`lchild, Elems(tree.entries)`rchild
    ensures tree.Valid()
    ensures k < |old(tree.entries)| && old(tree.entries)[k] == e && tree.entries == Less(old(tree.entries), k)
    ensures lo <= e.name < hi && more == Within(tree.entries, lo, hi)
  {
    var collisions := new SplayTree();
    var small := new SplayTree();
    Isolate(tree, lo, hi, collisions, small);
    ghost var a, b, c := small.entries, collisions.entries, tree.entries;
    OnlyMiddle(a, b, c, lo, hi);
    e, more, k := TakeMiddle(tree, collisions, small, lo, hi);
    LessMiddle(a, b, c, k);
    OnlyMiddle(a, Less(b, k), c, lo, hi);
    k := |a| + k;
  }

  lemma OnlyMiddle(a: seq<TreeEntry>, b: seq<TreeEntry>, c: seq<TreeEntry>, lo: Name, hi: Name)
    requires AllBelow(a, lo) && AllAbove(b, lo) && AllBelow(b, hi) && AllAbove(c, hi)
    ensures Within(a + b + c, lo, hi) <==> b != []
  {
    if b != [] {
      assert b[0] in a + b + c;
    }
  }
}
