/**
 Shapes of the splay tree, seen through ghost trees.

 A Tree is the inductive picture of a heap tree; Rep says that the heap holds
 that picture.  A spine is a tree with a hole at the end of its inner edge: the
 left and right trees that a top-down splay builds.  A Path is the chain of
 inverted pointers above the current entry of a traversal.
 */
module SplayShape {
  import opened MachPort

  class TreeEntry {
    const name: Name   // written once, before the entry is linked
    var lchild: TreeEntry?
    var rchild: TreeEntry?
    var right: Right

    constructor (name: Name)
      ensures this.name == name && right == NO_RIGHT
    {
      this.name, right := name, NO_RIGHT;
      lchild, rchild := null, null;
    }
  }

  datatype Tree = Leaf | Node(left: Tree, entry: TreeEntry, right: Tree)

  ghost function Nodes(t: Tree): set<TreeEntry> {
    match t
    case Leaf => {}
    case Node(l, e, r) => Nodes(l) + {e} + Nodes(r)
  }

  ghost function InOrder(t: Tree): seq<TreeEntry> {
    match t
    case Leaf => []
    case Node(l, e, r) => InOrder(l) + [e] + InOrder(r)
  }

  /** The heap tree at p is exactly t. */
  ghost predicate Rep(p: TreeEntry?, t: Tree)
    reads Nodes(t)`lchild, Nodes(t)`rchild
  {
    match t
    case Leaf => p == null
    case Node(l, e, r) => p == e && Rep(e.lchild, l) && Rep(e.rchild, r)
  }

  /** t is a search tree whose names lie strictly between lo and hi. */
  ghost predicate Bst(t: Tree, lo: int, hi: int)
  {
    match t
    case Leaf => true
    case Node(l, e, r) => lo < e.name < hi && Bst(l, lo, e.name) && Bst(r, e.name, hi)
  }

  lemma {:induction false} BstBounds(t: Tree, lo: int, hi: int)
    requires Bst(t, lo, hi)
    ensures forall e :: e in Nodes(t) ==> lo < e.name < hi
  {
    match t
    case Leaf =>
    case Node(l, e, r) =>
      BstBounds(l, lo, e.name);
      BstBounds(r, e.name, hi);
  }

  /** The left tree of a splay: the last link holds the largest entry, whose rchild is the hole. */
  datatype LSpine = LTop | LLink(up: LSpine, left: Tree, entry: TreeEntry)

  ghost function LNodes(s: LSpine): set<TreeEntry> {
    match s
    case LTop => {}
    case LLink(up, l, e) => LNodes(up) + Nodes(l) + {e}
  }

  ghost function LOrder(s: LSpine): seq<TreeEntry> {
    match s
    case LTop => []
    case LLink(up, l, e) => LOrder(up) + InOrder(l) + [e]
  }

  ghost function Low(s: LSpine, lo: int): int
  {
    match s
    case LTop => lo
    case LLink(_, _, e) => e.name
  }

  ghost predicate LBst(s: LSpine, lo: int)
  {
    match s
    case LTop => true
    case LLink(up, l, e) => LBst(up, lo) && Low(up, lo) < e.name && Bst(l, Low(up, lo), e.name)
  }

  lemma {:induction false} LBstBounds(s: LSpine, lo: int)
    requires LBst(s, lo)
    ensures lo <= Low(s, lo)
    ensures forall e :: e in LNodes(s) ==> lo < e.name <= Low(s, lo)
  {
    match s
    case LTop =>
    case LLink(up, l, e) =>
      LBstBounds(up, lo);
      BstBounds(l, Low(up, lo), e.name);
  }

  /** The heap holds spine s from ltree down, and the hole at its end contains next. */
  ghost predicate LChain(ltree: TreeEntry?, s: LSpine, next: TreeEntry?)
    reads LNodes(s)`lchild, LNodes(s)`rchild
  {
    match s
    case LTop => ltree == next
    case LLink(up, l, e) => e.rchild == next && Rep(e.lchild, l) && LChain(ltree, up, e)
  }

  /**
   The heap holds spine s with its hole unfilled.  ltreep is the entry whose rchild
   field is the hole, null when the hole is the ltree variable itself.
   */
  ghost predicate LOpen(ltree: TreeEntry?, ltreep: TreeEntry?, s: LSpine)
    reads LNodes(s)`lchild, LNodes(s)`rchild
  {
    match s
    case LTop => ltreep == null
    case LLink(up, l, e) => ltreep == e && Rep(e.lchild, l) && LChain(ltree, up, e)
  }

  /** The right tree of a splay, the mirror image. */
  datatype RSpine = RTop | RLink(up: RSpine, entry: TreeEntry, right: Tree)

  ghost function RNodes(s: RSpine): set<TreeEntry> {
    match s
    case RTop => {}
    case RLink(up, e, r) => {e} + Nodes(r) + RNodes(up)
  }

  ghost function ROrder(s: RSpine): seq<TreeEntry> {
    match s
    case RTop => []
    case RLink(up, e, r) => [e] + InOrder(r) + ROrder(up)
  }

  ghost function High(s: RSpine, hi: int): int
  {
    match s
    case RTop => hi
    case RLink(_, e, _) => e.name
  }

  ghost predicate RBst(s: RSpine, hi: int)
  {
    match s
    case RTop => true
    case RLink(up, e, r) => RBst(up, hi) && e.name < High(up, hi) && Bst(r, e.name, High(up, hi))
  }

  lemma {:induction false} RBstBounds(s: RSpine, hi: int)
    requires RBst(s, hi)
    ensures High(s, hi) <= hi
    ensures forall e :: e in RNodes(s) ==> High(s, hi) <= e.name < hi
  {
    match s
    case RTop =>
    case RLink(up, e, r) =>
      RBstBounds(up, hi);
      BstBounds(r, e.name, High(up, hi));
  }

  ghost predicate RChain(rtree: TreeEntry?, s: RSpine, next: TreeEntry?)
    reads RNodes(s)`lchild, RNodes(s)`rchild
  {
    match s
    case RTop => rtree == next
    case RLink(up, e, r) => e.lchild == next && Rep(e.rchild, r) && RChain(rtree, up, e)
  }

  ghost predicate ROpen(rtree: TreeEntry?, rtreep: TreeEntry?, s: RSpine)
    reads RNodes(s)`lchild, RNodes(s)`rchild
  {
    match s
    case RTop => rtreep == null
    case RLink(up, e, r) => rtreep == e && Rep(e.rchild, r) && RChain(rtree, up, e)
  }

  const LO := -1
  const HI := 0x1_0000_0000

  ghost predicate Sorted(s: seq<TreeEntry>) {
    forall i, j :: 0 <= i < j < |s| ==> s[i].name < s[j].name
  }

  ghost predicate Within(s: seq<TreeEntry>, lo: int, hi: int) {
    forall i :: 0 <= i < |s| ==> lo < s[i].name < hi
  }

  ghost function Elems(s: seq<TreeEntry>): set<TreeEntry> {
    set e | e in s
  }

  lemma SortedAround(a: seq<TreeEntry>, e: TreeEntry, b: seq<TreeEntry>, lo: int, hi: int)
    requires Sorted(a) && Within(a, lo, e.name) && lo < e.name < hi
    requires Sorted(b) && Within(b, e.name, hi)
    ensures Sorted(a + [e] + b) && Within(a + [e] + b, lo, hi)
  {
  }

  lemma {:induction false} BstSorted(t: Tree, lo: int, hi: int)
    requires Bst(t, lo, hi)
    ensures Sorted(InOrder(t)) && Within(InOrder(t), lo, hi)
    ensures Elems(InOrder(t)) == Nodes(t)
  {
    match t
    case Leaf =>
    case Node(l, e, r) =>
      BstSorted(l, lo, e.name);
      BstSorted(r, e.name, hi);
      SortedAround(InOrder(l), e, InOrder(r), lo, hi);
  }

  lemma {:induction false} BstTighten(t: Tree, lo: int, hi: int, lo': int, hi': int)
    requires Bst(t, lo, hi) && forall e :: e in Nodes(t) ==> lo' < e.name < hi'
    ensures Bst(t, lo', hi')
  {
    match t
    case Leaf =>
    case Node(l, e, r) =>
      BstBounds(l, lo, e.name);
      BstBounds(r, e.name, hi);
      BstTighten(l, lo, e.name, lo', e.name);
      BstTighten(r, e.name, hi, e.name, hi');
  }
}
