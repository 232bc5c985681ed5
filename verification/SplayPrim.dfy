/** The two primitives under every splay-tree operation: top-down splay and assembly. */
module SplayPrim {
  import opened MachPort
  import opened SplayShape

  /**
   The pointers of a split tree.  ltreep is the entry whose rchild is the left tree's
   hole (null: the ltree field itself), rtreep the entry whose lchild is the right tree's.
   */
  datatype Cut = Cut(tree: TreeEntry?, ltree: TreeEntry?, ltreep: TreeEntry?, rtree: TreeEntry?, rtreep: TreeEntry?)

  /** Its picture: a left spine, a middle tree and a right spine. */
  datatype Shape = Shape(l: LSpine, m: Tree, r: RSpine) {
    ghost function Entries(): seq<TreeEntry> {
      LOrder(l) + InOrder(m) + ROrder(r)
    }

    ghost function All(): set<TreeEntry> {
      LNodes(l) + Nodes(m) + RNodes(r)
    }

    ghost predicate Same(s: Shape) {
      Entries() == s.Entries() && All() == s.All()
    }

    /** The heap holds this shape at the pointers of c. */
    ghost predicate At(c: Cut)
      reads All()`lchild, All()`rchild
    {
      LOpen(c.ltree, c.ltreep, l) && Rep(c.tree, m) && ROpen(c.rtree, c.rtreep, r)
    }

    /** The entries are in name order, all between lo and hi. */
    ghost predicate Ordered(lo: int, hi: int)
    {
      LBst(l, lo) && Bst(m, Low(l, lo), High(r, hi)) && RBst(r, hi)
    }

    /** Every entry of the left tree is below name, every entry of the right tree above it. */
    ghost predicate Around(name: Name, lo: int, hi: int)
    {
      Ordered(lo, hi) && Low(l, lo) < name < High(r, hi)
    }
  }

  /** Each entry occurs once: the three parts are apart, and so are the ends of the spines. */
  ghost predicate Apart(s: Shape) {
    && LNodes(s.l) !! Nodes(s.m) && LNodes(s.l) !! RNodes(s.r) && Nodes(s.m) !! RNodes(s.r)
    && LEndOnce(s.l) && REndOnce(s.r)
  }

  ghost predicate LEndOnce(l: LSpine) {
    l.LLink? ==> l.entry !in LNodes(l.up) && l.entry !in Nodes(l.left)
  }

  ghost predicate REndOnce(r: RSpine) {
    r.RLink? ==> r.entry !in RNodes(r.up) && r.entry !in Nodes(r.right)
  }

  lemma OrderedEndsOnce(s: Shape, lo: int, hi: int)
    requires LBst(s.l, lo) && RBst(s.r, hi)
    ensures LEndOnce(s.l) && REndOnce(s.r)
  {
    if s.l.LLink? {
      LBstBounds(s.l.up, lo);
      BstBounds(s.l.left, Low(s.l.up, lo), s.l.entry.name);
    }
    if s.r.RLink? {
      RBstBounds(s.r.up, hi);
      BstBounds(s.r.right, s.r.entry.name, High(s.r.up, hi));
    }
  }

  lemma OrderedApart(s: Shape, lo: int, hi: int)
    requires s.Ordered(lo, hi) && Low(s.l, lo) < High(s.r, hi)
    ensures Apart(s)
  {
    OrderedEndsOnce(s, lo, hi);
    LBstBounds(s.l, lo);
    RBstBounds(s.r, hi);
    BstBounds(s.m, Low(s.l, lo), High(s.r, hi));
  }

  ghost function LinkedLeft(s: Shape): (s': Shape)
    requires s.m.Node?
    ensures s'.Same(s)
  {
    Shape(LLink(s.l, s.m.left, s.m.entry), s.m.right, s.r)
  }

  ghost function LinkedRight(s: Shape): (s': Shape)
    requires s.m.Node?
    ensures s'.Same(s)
  {
    Shape(s.l, s.m.left, RLink(s.r, s.m.entry, s.m.right))
  }

  lemma AroundLinkedLeft(s: Shape, name: Name, lo: int, hi: int)
    requires s.Around(name, lo, hi) && s.m.Node? && s.m.entry.name < name
    ensures LinkedLeft(s).Around(name, lo, hi)
  {
  }

  lemma AroundLinkedRight(s: Shape, name: Name, lo: int, hi: int)
    requires s.Around(name, lo, hi) && s.m.Node? && name < s.m.entry.name
    ensures LinkedRight(s).Around(name, lo, hi)
  {
  }

  /** link_left: hang the middle root in the left tree's hole and step to its right child. */
  method LinkLeft(c: Cut, ghost s: Shape) returns (c': Cut)
    requires s.At(c) && Apart(s) && s.m.Node?
    modifies (if c.ltreep == null then {} else {c.ltreep})`rchild
    ensures LinkedLeft(s).At(c')
  {
    c' := c;
    if c.ltreep == null {
      c' := c'.(ltree := c.tree);
    } else {
      c.ltreep.rchild := c.tree;
    }
    c' := c'.(ltreep := c.tree, tree := c.tree.rchild);
  }

  /** link_right: the mirror image. */
  method LinkRight(c: Cut, ghost s: Shape) returns (c': Cut)
    requires s.At(c) && Apart(s) && s.m.Node?
    modifies (if c.rtreep == null then {} else {c.rtreep})`lchild
    ensures LinkedRight(s).At(c')
  {
    c' := c;
    if c.rtreep == null {
      c' := c'.(rtree := c.tree);
    } else {
      c.rtreep.lchild := c.tree;
    }
    c' := c'.(rtreep := c.tree, tree := c.tree.lchild);
  }

  ghost function RotatedLeft(m: Tree): (m': Tree)
    requires m.Node? && m.right.Node?
    ensures InOrder(m') == InOrder(m) && Nodes(m') == Nodes(m)
  {
    Node(Node(m.left, m.entry, m.right.left), m.right.entry, m.right.right)
  }

  ghost function RotatedRight(m: Tree): (m': Tree)
    requires m.Node? && m.left.Node?
    ensures InOrder(m') == InOrder(m) && Nodes(m') == Nodes(m)
  {
    Node(m.left.left, m.left.entry, Node(m.left.right, m.entry, m.right))
  }

  lemma BstRotated(m: Tree, lo: int, hi: int)
    requires Bst(m, lo, hi) && m.Node?
    ensures m.left.Node? ==> Bst(RotatedRight(m), lo, hi)
    ensures m.right.Node? ==> Bst(RotatedLeft(m), lo, hi)
  {
  }

  ghost predicate RootsOnce(m: Tree) {
    && m.Node?
    && m.entry !in Nodes(m.left) && m.entry !in Nodes(m.right) && Nodes(m.left) !! Nodes(m.right)
    && (m.left.Node? ==> m.left.entry !in Nodes(m.left.left) && m.left.entry !in Nodes(m.left.right))
    && (m.right.Node? ==> m.right.entry !in Nodes(m.right.left) && m.right.entry !in Nodes(m.right.right))
  }

  lemma BstRootsOnce(m: Tree, lo: int, hi: int)
    requires Bst(m, lo, hi) && m.Node?
    ensures RootsOnce(m)
  {
    BstBounds(m.left, lo, m.entry.name);
    BstBounds(m.right, m.entry.name, hi);
    if m.left.Node? {
      BstBounds(m.left.left, lo, m.left.entry.name);
      BstBounds(m.left.right, m.left.entry.name, m.entry.name);
    }
    if m.right.Node? {
      BstBounds(m.right.left, m.entry.name, m.right.entry.name);
      BstBounds(m.right.right, m.right.entry.name, hi);
    }
  }

  /** rotate_left: the right child takes the root's place. */
  method RotateLeft(temp: TreeEntry, ghost m: Tree) returns (tree: TreeEntry)
    requires Rep(temp, m) && RootsOnce(m) && m.right.Node?
    modifies {m.entry}`rchild, {m.right.entry}`lchild
    ensures Rep(tree, RotatedLeft(m))
  {
    tree := temp.rchild;
    temp.rchild := tree.lchild;
    tree.lchild := temp;
  }

  /** rotate_right: the left child takes the root's place. */
  method RotateRight(temp: TreeEntry, ghost m: Tree) returns (tree: TreeEntry)
    requires Rep(temp, m) && RootsOnce(m) && m.left.Node?
    modifies {m.entry}`lchild, {m.left.entry}`rchild
    ensures Rep(tree, RotatedRight(m))
  {
    tree := temp.lchild;
    temp.lchild := tree.rchild;
    tree.rchild := temp;
  }

  method ZigRight(c: Cut, ghost s: Shape) returns (c': Cut)
    requires s.At(c) && Apart(s) && RootsOnce(s.m) && s.m.left.Node?
    modifies {s.m.entry}`lchild, {s.m.left.entry}`rchild
    ensures s.(m := RotatedRight(s.m)).At(c')
  {
    assert s.m.entry in Nodes(s.m) && s.m.left.entry in Nodes(s.m.left);
    assert allocated(LNodes(s.l)) && allocated(RNodes(s.r));
    var tree := RotateRight(c.tree, s.m);
    c' := c.(tree := tree);
  }

  /** The shape after one step to the left: a zig-zig rotation or not, a link, and the zag of a zig-zag or not. */
  ghost function ZiggedRight(zigzig: bool, s: Shape): (s': Shape)
    requires s.m.Node? && s.m.left.Node?
    ensures s'.Same(s)
  {
    if zigzig then s.(m := RotatedRight(s.m)) else s
  }

  ghost function DescendedLeft(zigzig: bool, zigzag: bool, s: Shape): (s': Shape)
    requires s.m.Node? && s.m.left.Node?
    requires zigzig ==> s.m.left.left.Node?
    requires zigzag ==> !zigzig && s.m.left.right.Node?
    ensures s'.Same(s) && s'.m.Node? && (s.m decreases to s'.m)
  {
    var zig := LinkedRight(ZiggedRight(zigzig, s));
    if zigzag then LinkedLeft(zig) else zig
  }

  lemma AroundDescendedLeft(name: Name, zigzig: bool, zigzag: bool, s: Shape, lo: int, hi: int)
    requires s.Around(name, lo, hi) && s.m.Node? && name < s.m.entry.name && s.m.left.Node?
    requires zigzig ==> name < s.m.left.entry.name && s.m.left.left.Node?
    requires zigzag ==> name > s.m.left.entry.name && s.m.left.right.Node?
    ensures Apart(s) && Apart(ZiggedRight(zigzig, s)) && Apart(LinkedRight(ZiggedRight(zigzig, s)))
    ensures RootsOnce(s.m)
    ensures DescendedLeft(zigzig, zigzag, s).Around(name, lo, hi)
  {
    var zig := ZiggedRight(zigzig, s);
    BstRootsOnce(s.m, Low(s.l, lo), High(s.r, hi));
    BstRotated(s.m, Low(s.l, lo), High(s.r, hi));
    OrderedApart(s, lo, hi);
    OrderedApart(zig, lo, hi);
    AroundLinkedRight(zig, name, lo, hi);
    OrderedApart(LinkedRight(zig), lo, hi);
    if zigzag {
      AroundLinkedLeft(LinkedRight(zig), name, lo, hi);
    }
  }

  method DescendLeft(c: Cut, name: Name, ghost s: Shape, ghost lo: int, ghost hi: int) returns (c': Cut, ghost s': Shape)
    requires s.At(c) && s.Around(name, lo, hi) && s.m.Node? && name < s.m.entry.name && s.m.left.Node?
    modifies s.All()`lchild, s.All()`rchild
    ensures s' == DescendedLeft(name < s.m.left.entry.name && s.m.left.left.Node?, name > s.m.left.entry.name && s.m.left.right.Node?, s)
    ensures s'.At(c') && s'.Around(name, lo, hi) && s'.Same(s)
    ensures s'.m.Node? && (s.m decreases to s'.m)
  {
    var lchild := c.tree.lchild;
    assert Rep(lchild, s.m.left) && Rep(lchild.lchild, s.m.left.left) && Rep(lchild.rchild, s.m.left.right);
    var tname := lchild.name;
    ghost var zigzig := name < tname && lchild.lchild != null;
    ghost var zigzag := name > tname && lchild.rchild != null;
    AroundDescendedLeft(name, zigzig, zigzag, s, lo, hi);
    assert allocated(s.All());
    ghost var zig := ZiggedRight(zigzig, s);
    s' := DescendedLeft(zigzig, zigzag, s);
    c' := c;
    if name < tname && lchild.lchild != null {
      c' := ZigRight(c', s);
    }
    c' := LinkRight(c', zig);
    if name > tname && lchild.rchild != null {
      c' := LinkLeft(c', LinkedRight(zig));
    }
  }

  method ZigLeft(c: Cut, ghost s: Shape) returns (c': Cut)
    requires s.At(c) && Apart(s) && RootsOnce(s.m) && s.m.right.Node?
    modifies {s.m.entry}`rchild, {s.m.right.entry}`lchild
    ensures s.(m := RotatedLeft(s.m)).At(c')
  {
    assert s.m.entry in Nodes(s.m) && s.m.right.entry in Nodes(s.m.right);
    assert allocated(LNodes(s.l)) && allocated(RNodes(s.r));
    var tree := RotateLeft(c.tree, s.m);
    c' := c.(tree := tree);
  }

  ghost function ZiggedLeft(zigzig: bool, s: Shape): (s': Shape)
    requires s.m.Node? && s.m.right.Node?
    ensures s'.Same(s)
  {
    if zigzig then s.(m := RotatedLeft(s.m)) else s
  }

  /** The shape after one step to the right, the mirror image. */
  ghost function DescendedRight(zigzig: bool, zigzag: bool, s: Shape): (s': Shape)
    requires s.m.Node? && s.m.right.Node?
    requires zigzig ==> s.m.right.right.Node?
    requires zigzag ==> !zigzig && s.m.right.left.Node?
    ensures s'.Same(s) && s'.m.Node? && (s.m decreases to s'.m)
  {
    var zig := LinkedLeft(ZiggedLeft(zigzig, s));
    if zigzag then LinkedRight(zig) else zig
  }

  lemma AroundDescendedRight(name: Name, zigzig: bool, zigzag: bool, s: Shape, lo: int, hi: int)
    requires s.Around(name, lo, hi) && s.m.Node? && name > s.m.entry.name && s.m.right.Node?
    requires zigzig ==> name > s.m.right.entry.name && s.m.right.right.Node?
    requires zigzag ==> name < s.m.right.entry.name && s.m.right.left.Node?
    ensures Apart(s) && Apart(ZiggedLeft(zigzig, s)) && Apart(LinkedLeft(ZiggedLeft(zigzig, s)))
    ensures RootsOnce(s.m)
    ensures DescendedRight(zigzig, zigzag, s).Around(name, lo, hi)
  {
    var zig := ZiggedLeft(zigzig, s);
    BstRootsOnce(s.m, Low(s.l, lo), High(s.r, hi));
    BstRotated(s.m, Low(s.l, lo), High(s.r, hi));
    OrderedApart(s, lo, hi);
    OrderedApart(zig, lo, hi);
    AroundLinkedLeft(zig, name, lo, hi);
    OrderedApart(LinkedLeft(zig), lo, hi);
    if zigzag {
      AroundLinkedRight(LinkedLeft(zig), name, lo, hi);
    }
  }

  method DescendRight(c: Cut, name: Name, ghost s: Shape, ghost lo: int, ghost hi: int) returns (c': Cut, ghost s': Shape)
    requires s.At(c) && s.Around(name, lo, hi) && s.m.Node? && name > s.m.entry.name && s.m.right.Node?
    modifies s.All()`lchild, s.All()`rchild
    ensures s' == DescendedRight(name > s.m.right.entry.name && s.m.right.right.Node?, name < s.m.right.entry.name && s.m.right.left.Node?, s)
    ensures s'.At(c') && s'.Around(name, lo, hi) && s'.Same(s)
    ensures s'.m.Node? && (s.m decreases to s'.m)
  {
    var rchild := c.tree.rchild;
    assert Rep(rchild, s.m.right) && Rep(rchild.lchild, s.m.right.left) && Rep(rchild.rchild, s.m.right.right);
    var tname := rchild.name;
    ghost var zigzig := name > tname && rchild.rchild != null;
    ghost var zigzag := name < tname && rchild.lchild != null;
    AroundDescendedRight(name, zigzig, zigzag, s, lo, hi);
    assert allocated(s.All());
    ghost var zig := ZiggedLeft(zigzig, s);
    s' := DescendedRight(zigzig, zigzag, s);
    c' := c;
    if name > tname && rchild.rchild != null {
      c' := ZigLeft(c', s);
    }
    c' := LinkLeft(c', zig);
    if name < tname && rchild.lchild != null {
      c' := LinkRight(c', LinkedLeft(zig));
    }
  }

  /** Where a splay for name may stop: at the name, or at an entry with nothing on the name's side. */
  ghost predicate Stopped(name: Name, m: Tree) {
    && m.Node?
    && (name < m.entry.name ==> m.left.Leaf?)
    && (name > m.entry.name ==> m.right.Leaf?)
  }

  /**
   ipc_splay_prim_lookup: splits the tree at start into left, middle and right trees
   around name.  The entries and their order are kept; the middle root is the sought
   entry, or a neighbour of name with nothing on the name's side.
   */
  method PrimLookup(name: Name, start: TreeEntry, ghost t: Tree, ghost lo: int, ghost hi: int)
    returns (c: Cut, ghost s: Shape)
    requires Rep(start, t) && Bst(t, lo, hi) && lo < name < hi
    modifies Nodes(t)`lchild, Nodes(t)`rchild
    ensures s.At(c) && s.Around(name, lo, hi) && Stopped(name, s.m)
    ensures s.Entries() == InOrder(t) && s.All() == Nodes(t)
  {
    c, s := Cut(start, null, null, null, null), Shape(LTop, t, RTop);
    while name != c.tree.name
      invariant s.At(c) && s.Around(name, lo, hi) && s.m.Node?
      invariant s.Entries() == InOrder(t) && s.All() == Nodes(t)
      decreases s.m
    {
      assert Rep(c.tree.lchild, s.m.left) && Rep(c.tree.rchild, s.m.right);
      if name < c.tree.name {
        if c.tree.lchild == null {
          break;
        }
        c, s := DescendLeft(c, name, s, lo, hi);
      } else {
        if c.tree.rchild == null {
          break;
        }
        c, s := DescendRight(c, name, s, lo, hi);
      }
    }
  }

  /** The tree a shape assembles to. */
  ghost function LPlug(l: LSpine, t: Tree): (t': Tree)
    ensures Nodes(t') == LNodes(l) + Nodes(t)
  {
    match l
    case LTop => t
    case LLink(up, left, e) => LPlug(up, Node(left, e, t))
  }

  ghost function RPlug(r: RSpine, t: Tree): (t': Tree)
    ensures Nodes(t') == Nodes(t) + RNodes(r)
  {
    match r
    case RTop => t
    case RLink(up, e, right) => RPlug(up, Node(t, e, right))
  }

  lemma {:induction false} LChainPlug(ltree: TreeEntry?, l: LSpine, next: TreeEntry?, t: Tree)
    requires LChain(ltree, l, next) && Rep(next, t)
    ensures Rep(ltree, LPlug(l, t))
  {
    match l
    case LTop =>
    case LLink(up, left, e) => LChainPlug(ltree, up, e, Node(left, e, t));
  }

  lemma {:induction false} RChainPlug(rtree: TreeEntry?, r: RSpine, next: TreeEntry?, t: Tree)
    requires RChain(rtree, r, next) && Rep(next, t)
    ensures Rep(rtree, RPlug(r, t))
  {
    match r
    case RTop =>
    case RLink(up, e, right) => RChainPlug(rtree, up, e, Node(t, e, right));
  }

  lemma {:induction false} LPlugOrder(l: LSpine, t: Tree)
    ensures InOrder(LPlug(l, t)) == LOrder(l) + InOrder(t)
  {
    match l
    case LTop =>
    case LLink(up, left, e) => LPlugOrder(up, Node(left, e, t));
  }

  lemma {:induction false} RPlugOrder(r: RSpine, t: Tree)
    ensures InOrder(RPlug(r, t)) == InOrder(t) + ROrder(r)
  {
    match r
    case RTop =>
    case RLink(up, e, right) => RPlugOrder(up, Node(t, e, right));
  }

  ghost function Assembled(s: Shape): (t: Tree)
    requires s.m.Node?
    ensures Nodes(t) == s.All()
  {
    Node(LPlug(s.l, s.m.left), s.m.entry, RPlug(s.r, s.m.right))
  }

  lemma AssembledOrder(s: Shape)
    requires s.m.Node?
    ensures InOrder(Assembled(s)) == s.Entries()
  {
    LPlugOrder(s.l, s.m.left);
    RPlugOrder(s.r, s.m.right);
  }

  /** Stores next through ltreep. */
  method FillLeft(ltree: TreeEntry?, ltreep: TreeEntry?, next: TreeEntry?, ghost l: LSpine, ghost t: Tree) returns (ltree': TreeEntry?)
    requires LOpen(ltree, ltreep, l) && Rep(next, t) && LEndOnce(l) && Nodes(t) !! LNodes(l)
    modifies LNodes(l)`rchild
    ensures Rep(ltree', LPlug(l, t))
  {
    ltree' := ltree;
    if ltreep == null {
      ltree' := next;
    } else {
      ltreep.rchild := next;
    }
    LChainPlug(ltree', l, next, t);
  }

  /** Stores next through rtreep. */
  method FillRight(rtree: TreeEntry?, rtreep: TreeEntry?, next: TreeEntry?, ghost r: RSpine, ghost t: Tree) returns (rtree': TreeEntry?)
    requires ROpen(rtree, rtreep, r) && Rep(next, t) && REndOnce(r) && Nodes(t) !! RNodes(r)
    modifies RNodes(r)`lchild
    ensures Rep(rtree', RPlug(r, t))
  {
    rtree' := rtree;
    if rtreep == null {
      rtree' := next;
    } else {
      rtreep.lchild := next;
    }
    RChainPlug(rtree', r, next, t);
  }

  method FillHoles(c: Cut, lnext: TreeEntry?, rnext: TreeEntry?, ghost l: LSpine, ghost r: RSpine, ghost lt: Tree, ghost rt: Tree)
    returns (ltree: TreeEntry?, rtree: TreeEntry?)
    requires LOpen(c.ltree, c.ltreep, l) && ROpen(c.rtree, c.rtreep, r) && Rep(lnext, lt) && Rep(rnext, rt)
    requires LNodes(l) !! RNodes(r) && LEndOnce(l) && REndOnce(r)
    requires Nodes(lt) !! LNodes(l) && Nodes(lt) !! RNodes(r) && Nodes(rt) !! LNodes(l) && Nodes(rt) !! RNodes(r)
    modifies LNodes(l)`rchild, RNodes(r)`lchild
    ensures Rep(ltree, LPlug(l, lt)) && Rep(rtree, RPlug(r, rt))
  {
    assert allocated(RNodes(r)) && allocated(Nodes(rt));
    ltree := FillLeft(c.ltree, c.ltreep, lnext, l, lt);
    rtree := FillOther(c, rnext, r, rt, ltree, LPlug(l, lt));
  }

  /** The right hole, while the left tree stands complete. */
  method FillOther(c: Cut, rnext: TreeEntry?, ghost r: RSpine, ghost rt: Tree, ghost ltree: TreeEntry?, ghost left: Tree) returns (rtree: TreeEntry?)
    requires ROpen(c.rtree, c.rtreep, r) && Rep(rnext, rt) && REndOnce(r) && Nodes(rt) !! RNodes(r)
    requires Rep(ltree, left) && Nodes(left) !! RNodes(r)
    modifies RNodes(r)`lchild
    ensures Rep(ltree, left) && Rep(rtree, RPlug(r, rt))
  {
    assert allocated(Nodes(left));
    rtree := FillRight(c.rtree, c.rtreep, rnext, r, rt);
  }

  method Crown(tree: TreeEntry, ltree: TreeEntry?, rtree: TreeEntry?, ghost left: Tree, ghost right: Tree)
    requires Rep(ltree, left) && Rep(rtree, right) && tree !in Nodes(left) && tree !in Nodes(right)
    modifies {tree}`lchild, {tree}`rchild
    ensures Rep(tree, Node(left, tree, right))
  {
    tree.lchild := ltree;
    tree.rchild := rtree;
  }

  /** ipc_splay_prim_assemble: one search tree again, with the middle root on top. */
  method PrimAssemble(c: Cut, ghost s: Shape, ghost lo: int, ghost hi: int)
    requires s.At(c) && s.Ordered(lo, hi) && s.m.Node?
    modifies s.All()`lchild, s.All()`rchild
    ensures Rep(c.tree, Assembled(s))
  {
    AssemblyApart(s, lo, hi);
    var ltree, rtree := FillHoles(c, c.tree.lchild, c.tree.rchild, s.l, s.r, s.m.left, s.m.right);
    Crown(c.tree, ltree, rtree, LPlug(s.l, s.m.left), RPlug(s.r, s.m.right));
  }

  lemma {:induction false} BstLPlug(l: LSpine, t: Tree, lo: int, hi: int)
    requires LBst(l, lo) && Bst(t, Low(l, lo), hi) && Low(l, lo) < hi
    ensures Bst(LPlug(l, t), lo, hi)
  {
    match l
    case LTop =>
    case LLink(up, left, e) => BstLPlug(up, Node(left, e, t), lo, hi);
  }

  lemma {:induction false} BstRPlug(r: RSpine, t: Tree, lo: int, hi: int)
    requires RBst(r, hi) && Bst(t, lo, High(r, hi)) && lo < High(r, hi)
    ensures Bst(RPlug(r, t), lo, hi)
  {
    match r
    case RTop =>
    case RLink(up, e, right) => BstRPlug(up, Node(t, e, right), lo, hi);
  }

  lemma BstAssembled(s: Shape, lo: int, hi: int)
    requires s.Ordered(lo, hi) && s.m.Node?
    ensures Bst(Assembled(s), lo, hi)
  {
    BstLPlug(s.l, s.m.left, lo, s.m.entry.name);
    BstRPlug(s.r, s.m.right, s.m.entry.name, hi);
  }

  lemma AssemblyApart(s: Shape, lo: int, hi: int)
    requires s.Ordered(lo, hi) && s.m.Node?
    ensures Apart(s) && s.m.entry !in Nodes(s.m.left) && s.m.entry !in Nodes(s.m.right)
    ensures Nodes(LPlug(s.l, s.m.left)) !! RNodes(s.r)
    ensures s.m.entry !in Nodes(LPlug(s.l, s.m.left)) && s.m.entry !in Nodes(RPlug(s.r, s.m.right))
  {
    OrderedApart(s, lo, hi);
    BstRootsOnce(s.m, Low(s.l, lo), High(s.r, hi));
  }

  /** Assemble, then splay for another name. */
  method Resplay(c: Cut, name: Name, ghost s: Shape, ghost lo: int, ghost hi: int) returns (c': Cut, ghost s': Shape)
    requires s.At(c) && s.Ordered(lo, hi) && s.m.Node? && lo < name < hi
    modifies s.All()`lchild, s.All()`rchild
    ensures s'.At(c') && s'.Around(name, lo, hi) && Stopped(name, s'.m) && s'.Same(s)
  {
    PrimAssemble(c, s, lo, hi);
    BstAssembled(s, lo, hi);
    AssembledOrder(s);
    c', s' := PrimLookup(name, c.tree, Assembled(s), lo, hi);
  }

  /** A splay for a name above every entry stops at the largest, with nothing to its right. */
  lemma LargestOnTop(s: Shape, name: Name, lo: int, hi: int)
    requires s.Around(name, lo, hi) && Stopped(name, s.m)
    requires forall e :: e in s.All() ==> e.name <= name
    ensures s.r.RTop? && s.m.right.Leaf?
  {
    RBstBounds(s.r, hi);
    BstBounds(s.m.right, s.m.entry.name, High(s.r, hi));
  }

  method HangRight(root: TreeEntry, q: TreeEntry?, ghost x: Tree, ghost b: Tree)
    requires Rep(root, Node(x, root, Leaf)) && Rep(q, b) && root !in Nodes(x) && root !in Nodes(b)
    modifies {root}`rchild
    ensures Rep(root, Node(x, root, b))
  {
    root.rchild := q;
  }

  lemma HungRight(s: Shape, b: Tree, mid: int)
    requires s.Ordered(LO, HI) && s.m.Node? && s.r.RTop? && s.m.right.Leaf?
    requires s.m.entry.name < mid <= HI && Bst(b, mid, HI)
    ensures Assembled(s).right == Leaf
    ensures var t := Node(LPlug(s.l, s.m.left), s.m.entry, b);
      && InOrder(t) == s.Entries() + InOrder(b)
      && Nodes(t) == s.All() + Nodes(b)
      && Bst(t, LO, HI)
    ensures s.m.entry !in Nodes(LPlug(s.l, s.m.left)) && s.m.entry !in Nodes(b)
  {
    AssembledOrder(s);
    BstAssembled(s, LO, HI);
    AssemblyApart(s, LO, HI);
    BstBounds(b, mid, HI);
    BstTighten(b, mid, HI, s.m.entry.name, HI);
  }

  /** Splays the largest entry of tree p to its root, then hangs tree q to its right. */
  method JoinRight(p: TreeEntry, q: TreeEntry?, ghost a: Tree, ghost b: Tree, ghost mid: int)
    returns (root: TreeEntry, ghost t: Tree)
    requires Rep(p, a) && Bst(a, LO, mid) && Rep(q, b) && Bst(b, mid, HI) && mid <= HI
    modifies Nodes(a)`lchild, Nodes(a)`rchild
    ensures Rep(root, t) && Bst(t, LO, HI) && t.Node? && t.right == b
    ensures InOrder(t) == InOrder(a) + InOrder(b) && Nodes(t) == Nodes(a) + Nodes(b)
  {
    BstBounds(a, LO, mid);
    BstBounds(b, mid, HI);
    BstTighten(a, LO, mid, LO, HI);
    assert allocated(Nodes(b));
    var c, s := PrimLookup(LARGEST, p, a, LO, HI);
    LargestOnTop(s, LARGEST, LO, HI);
    PrimAssemble(c, s, LO, HI);
    HungRight(s, b, mid);
    root := c.tree;
    HangRight(root, q, LPlug(s.l, s.m.left), b);
    t := Node(LPlug(s.l, s.m.left), s.m.entry, b);
  }

  /** What is left on the two sides of a deleted middle root. */
  lemma DeletedFacts(s: Shape)
    requires s.Ordered(LO, HI) && s.m.Node?
    ensures Apart(s) && s.m.entry !in Nodes(s.m.left) && s.m.entry !in Nodes(s.m.right)
    ensures var a, b := LPlug(s.l, s.m.left), RPlug(s.r, s.m.right);
      && Bst(a, LO, s.m.entry.name) && Bst(b, s.m.entry.name, HI) && Bst(a, LO, HI) && Bst(b, LO, HI)
      && s.Entries() == InOrder(a) + [s.m.entry] + InOrder(b)
      && Nodes(a) + Nodes(b) + {s.m.entry} == s.All()
  {
    OrderedApart(s, LO, HI);
    BstRootsOnce(s.m, Low(s.l, LO), High(s.r, HI));
    BstAssembled(s, LO, HI);
    AssembledOrder(s);
    BstBounds(Assembled(s).left, LO, s.m.entry.name);
    BstBounds(Assembled(s).right, s.m.entry.name, HI);
    BstTighten(Assembled(s).left, LO, s.m.entry.name, LO, HI);
    BstTighten(Assembled(s).right, s.m.entry.name, HI, LO, HI);
  }

  /** Takes the middle root out and joins what is left on its two sides. */
  method RemoveRoot(c: Cut, ghost s: Shape) returns (root: TreeEntry?, ghost t: Tree)
    requires s.At(c) && s.Ordered(LO, HI) && s.m.Node?
    modifies s.All()`lchild, s.All()`rchild
    ensures Rep(root, t) && Bst(t, LO, HI)
    ensures InOrder(t) == InOrder(LPlug(s.l, s.m.left)) + InOrder(RPlug(s.r, s.m.right))
  {
    DeletedFacts(s);
    ghost var a, b := LPlug(s.l, s.m.left), RPlug(s.r, s.m.right);
    var ltree, rtree := FillHoles(c, c.tree.lchild, c.tree.rchild, s.l, s.r, s.m.left, s.m.right);
    if ltree == null {
      root, t := rtree, b;
    } else if rtree == null {
      root, t := ltree, a;
    } else {
      root, t := JoinRight(ltree, rtree, a, b, s.m.entry.name);
    }
  }

  method HangLeft(root: TreeEntry, p: TreeEntry?, ghost a: Tree, ghost y: Tree)
    requires Rep(root.rchild, y) && Rep(p, a) && root !in Nodes(a) && root !in Nodes(y)
    modifies {root}`lchild
    ensures Rep(root, Node(a, root, y))
  {
    root.lchild := p;
  }

  /** The middle root, with nothing to its right, takes the left tree; the right tree is let go. */
  method DetachRight(c: Cut, ghost s: Shape) returns (rtree: TreeEntry?)
    requires s.At(c) && s.Ordered(LO, HI) && s.m.Node? && s.m.right.Leaf?
    modifies s.All()`lchild, s.All()`rchild
    ensures Rep(c.tree, Node(LPlug(s.l, s.m.left), s.m.entry, Leaf)) && Rep(rtree, RPlug(s.r, Leaf))
  {
    AssemblyApart(s, LO, HI);
    assert s.m.entry in Nodes(s.m) && s.m.entry !in RNodes(s.r) && s.m.entry !in LNodes(s.l);
    assert allocated(Nodes(RPlug(s.r, Leaf)));
    assert Rep(c.tree.lchild, s.m.left) && Rep(c.tree.rchild, s.m.right);
    var ltree;
    ltree, rtree := FillHoles(c, c.tree.lchild, null, s.l, s.r, s.m.left, Leaf);
    HangLeft(c.tree, ltree, LPlug(s.l, s.m.left), Leaf);
  }

  /** Fills the left hole alone; the rest of the shape stays. */
  method PlugLeft(c: Cut, ghost s: Shape) returns (ltree: TreeEntry?)
    requires s.At(c) && Apart(s) && s.m.Node? && s.m.entry !in Nodes(s.m.left)
    modifies LNodes(s.l)`rchild
    ensures Rep(ltree, LPlug(s.l, s.m.left)) && Rep(c.tree, s.m) && ROpen(c.rtree, c.rtreep, s.r)
  {
    assert Rep(c.tree.lchild, s.m.left) && Nodes(s.m.left) <= Nodes(s.m);
    assert allocated(RNodes(s.r)) && allocated(Nodes(s.m));
    ltree := FillLeft(c.ltree, c.ltreep, c.tree.lchild, s.l, s.m.left);
  }

  /** The middle root gives up its left child to the left tree, which is let go. */
  method DetachLeft(c: Cut, ghost s: Shape) returns (ltree: TreeEntry?)
    requires s.At(c) && s.Ordered(LO, HI) && s.m.Node?
    modifies s.All()`lchild, s.All()`rchild
    ensures Rep(ltree, LPlug(s.l, s.m.left))
    ensures Rep(c.tree, Node(Leaf, s.m.entry, s.m.right)) && ROpen(c.rtree, c.rtreep, s.r)
  {
    AssemblyApart(s, LO, HI);
    assert s.m.entry in Nodes(s.m);
    assert allocated(RNodes(s.r)) && allocated(Nodes(LPlug(s.l, s.m.left)));
    ltree := PlugLeft(c, s);
    HangLeft(c.tree, null, Leaf, s.m.right);
  }

  /** A splay for a name below every entry stops at the smallest, with nothing to its left. */
  lemma SmallestOnTop(s: Shape, name: Name, lo: int, hi: int)
    requires s.Around(name, lo, hi) && Stopped(name, s.m)
    requires forall e :: e in s.All() ==> name <= e.name
    ensures s.l.LTop? && s.m.left.Leaf?
  {
    LBstBounds(s.l, lo);
    BstBounds(s.m.left, Low(s.l, lo), s.m.entry.name);
  }

  lemma HungLeft(s: Shape, a: Tree)
    requires s.Ordered(LO, HI) && s.m.Node? && s.l.LTop? && s.m.left.Leaf?
    requires Bst(a, LO, s.m.entry.name)
    ensures var t := Node(a, s.m.entry, RPlug(s.r, s.m.right)); InOrder(t) == InOrder(a) + s.Entries() && Bst(t, LO, HI)
    ensures s.m.entry !in Nodes(a) && s.m.entry !in Nodes(RPlug(s.r, s.m.right))
  {
    AssembledOrder(s);
    BstAssembled(s, LO, HI);
    AssemblyApart(s, LO, HI);
    BstBounds(a, LO, s.m.entry.name);
  }

  /** Assembles, with the smallest entry on top, and hangs tree p to its left. */
  method JoinLeft(c: Cut, p: TreeEntry?, ghost s: Shape, ghost a: Tree)
    requires s.At(c) && s.Ordered(LO, HI) && s.m.Node? && s.l.LTop? && s.m.left.Leaf?
    requires Rep(p, a) && Bst(a, LO, s.m.entry.name) && Nodes(a) !! s.All()
    modifies s.All()`lchild, s.All()`rchild
    ensures Rep(c.tree, Node(a, s.m.entry, RPlug(s.r, s.m.right)))
  {
    HungLeft(s, a);
    assert allocated(Nodes(a));
    PrimAssemble(c, s, LO, HI);
    assert Rep(c.tree.rchild, RPlug(s.r, s.m.right));
    HangLeft(c.tree, p, a, RPlug(s.r, s.m.right));
  }
}
