/**
 In-order traversal by pointer inversion.  On the way down the child pointer that was
 followed is reversed to the parent; on the way up it is restored.
 */
module SplayTraverse {
  import opened MachPort
  import opened SplayShape
  import opened SplayPrim

  /** The chain of inverted pointers above a subtree: which side of each ancestor it hangs on, and the ancestor's other side. */
  datatype Path =
    | PTop
    | PLeft(up: Path, entry: TreeEntry, right: Tree)
    | PRight(up: Path, left: Tree, entry: TreeEntry)

  ghost function PNodes(p: Path): set<TreeEntry> {
    match p
    case PTop => {}
    case PLeft(up, e, r) => PNodes(up) + {e} + Nodes(r)
    case PRight(up, l, e) => PNodes(up) + Nodes(l) + {e}
  }

  /** The entries before, and after, the subtree at the end of the path. */
  ghost function Before(p: Path): seq<TreeEntry> {
    match p
    case PTop => []
    case PLeft(up, _, _) => Before(up)
    case PRight(up, l, e) => Before(up) + InOrder(l) + [e]
  }

  ghost function After(p: Path): seq<TreeEntry> {
    match p
    case PTop => []
    case PLeft(up, e, r) => [e] + InOrder(r) + After(up)
    case PRight(up, _, _) => After(up)
  }

  /** The heap holds path p, inverted, above the subtree whose parent is given. */
  ghost predicate PathRep(parent: TreeEntry?, p: Path)
    reads PNodes(p)`lchild, PNodes(p)`rchild
  {
    match p
    case PTop => parent == null
    case PLeft(up, e, r) => parent == e && Rep(e.rchild, r) && PathRep(e.lchild, up)
    case PRight(up, l, e) => parent == e && Rep(e.lchild, l) && PathRep(e.rchild, up)
  }

  ghost function PLow(p: Path): int {
    match p
    case PTop => LO
    case PLeft(up, _, _) => PLow(up)
    case PRight(_, _, e) => e.name
  }

  ghost function PHigh(p: Path): int {
    match p
    case PTop => HI
    case PLeft(_, e, _) => e.name
    case PRight(up, _, _) => PHigh(up)
  }

  /** The path is in name order around the interval (PLow, PHigh) left for its subtree. */
  ghost predicate PBst(p: Path) {
    match p
    case PTop => true
    case PLeft(up, e, r) => PBst(up) && PLow(up) < e.name < PHigh(up) && Bst(r, e.name, PHigh(up))
    case PRight(up, l, e) => PBst(up) && PLow(up) < e.name < PHigh(up) && Bst(l, PLow(up), e.name)
  }

  lemma {:induction false} PBstBounds(p: Path)
    requires PBst(p)
    ensures LO <= PLow(p) && PHigh(p) <= HI
    ensures forall e :: e in PNodes(p) ==> e.name <= PLow(p) || PHigh(p) <= e.name
  {
    match p
    case PTop =>
    case PLeft(up, e, r) =>
      PBstBounds(up);
      BstBounds(r, e.name, PHigh(up));
    case PRight(up, l, e) =>
      PBstBounds(up);
      BstBounds(l, PLow(up), e.name);
  }

  /** The subtree t hangs at the end of path p. */
  ghost predicate Hangs(current: TreeEntry?, parent: TreeEntry?, t: Tree, p: Path)
    reads Nodes(t)`lchild, Nodes(t)`rchild, PNodes(p)`lchild, PNodes(p)`rchild
  {
    PathRep(parent, p) && Rep(current, t)
  }

  ghost predicate HangsInOrder(t: Tree, p: Path) {
    PBst(p) && PLow(p) < PHigh(p) && Bst(t, PLow(p), PHigh(p))
  }

  ghost predicate HangsApart(t: Tree, p: Path) {
    && Nodes(t) !! PNodes(p)
    && (t.Node? ==> t.entry !in Nodes(t.left) && t.entry !in Nodes(t.right) && Nodes(t.left) !! Nodes(t.right))
    && (p.PLeft? ==> p.entry !in PNodes(p.up) && p.entry !in Nodes(p.right) && Nodes(p.right) !! PNodes(p.up))
    && (p.PRight? ==> p.entry !in PNodes(p.up) && p.entry !in Nodes(p.left) && Nodes(p.left) !! PNodes(p.up))
  }

  lemma InOrderApart(t: Tree, p: Path)
    requires HangsInOrder(t, p)
    ensures HangsApart(t, p)
  {
    PBstBounds(p);
    BstBounds(t, PLow(p), PHigh(p));
    if t.Node? {
      BstBounds(t.left, PLow(p), t.entry.name);
      BstBounds(t.right, t.entry.name, PHigh(p));
    }
    match p
    case PTop =>
    case PLeft(up, e, r) =>
      PBstBounds(up);
      BstBounds(r, e.name, PHigh(up));
    case PRight(up, l, e) =>
      PBstBounds(up);
      BstBounds(l, PLow(up), e.name);
  }

  /** Follows a left child, inverting the pointer. */
  method DownLeft(current: TreeEntry, parent: TreeEntry?, ghost t: Tree, ghost p: Path) returns (next: TreeEntry)
    requires Hangs(current, parent, t, p) && HangsApart(t, p) && t.Node? && t.left.Node?
    modifies {current}`lchild
    ensures Hangs(next, current, t.left, PLeft(p, t.entry, t.right))
  {
    assert Rep(current.lchild, t.left) && Rep(current.rchild, t.right) && t.entry in Nodes(t);
    next := current.lchild;
    current.lchild := parent;
  }

  /** Follows a right child, inverting the pointer. */
  method DownRight(current: TreeEntry, parent: TreeEntry?, ghost t: Tree, ghost p: Path) returns (next: TreeEntry)
    requires Hangs(current, parent, t, p) && HangsApart(t, p) && t.Node? && t.right.Node?
    modifies {current}`rchild
    ensures Hangs(next, current, t.right, PRight(p, t.left, t.entry))
  {
    assert Rep(current.lchild, t.left) && Rep(current.rchild, t.right) && t.entry in Nodes(t);
    next := current.rchild;
    current.rchild := parent;
  }

  /** Climbs to the parent from its left side, restoring the pointer to what now hangs there. */
  method UpLeft(current: TreeEntry?, parent: TreeEntry, ghost t: Tree, ghost p: Path) returns (up: TreeEntry?)
    requires Hangs(current, parent, t, p) && HangsApart(t, p) && p.PLeft?
    modifies {parent}`lchild
    ensures Hangs(parent, up, Node(t, p.entry, p.right), p.up)
  {
    assert Rep(parent.rchild, p.right) && PathRep(parent.lchild, p.up) && p.entry in PNodes(p);
    up := parent.lchild;
    parent.lchild := current;
  }

  /** Climbs to the parent from its right side. */
  method UpRight(current: TreeEntry?, parent: TreeEntry, ghost t: Tree, ghost p: Path) returns (up: TreeEntry?)
    requires Hangs(current, parent, t, p) && HangsApart(t, p) && p.PRight?
    modifies {parent}`rchild
    ensures Hangs(parent, up, Node(p.left, p.entry, t), p.up)
  {
    assert Rep(parent.lchild, p.left) && PathRep(parent.rchild, p.up) && p.entry in PNodes(p);
    up := parent.rchild;
    parent.rchild := current;
  }

  ghost function All(t: Tree, p: Path): set<TreeEntry> {
    Nodes(t) + PNodes(p)
  }

  /** The four moves keep the order of the entries and what lies before and after the subtree. */
  lemma DownLeftOrder(t: Tree, p: Path)
    requires HangsInOrder(t, p) && t.Node?
    ensures HangsApart(t, p)
    ensures var p' := PLeft(p, t.entry, t.right);
      && HangsInOrder(t.left, p') && All(t.left, p') == All(t, p)
      && Before(p') == Before(p) && InOrder(t.left) + After(p') == InOrder(t) + After(p)
  {
    InOrderApart(t, p);
  }

  lemma DownRightOrder(t: Tree, p: Path)
    requires HangsInOrder(t, p) && t.Node?
    ensures HangsApart(t, p)
    ensures var p' := PRight(p, t.left, t.entry);
      && HangsInOrder(t.right, p') && All(t.right, p') == All(t, p)
      && Before(p') == Before(p) + InOrder(t.left) + [t.entry] && After(p') == After(p)
  {
    InOrderApart(t, p);
  }

  lemma UpRightOrder(t: Tree, p: Path)
    requires HangsInOrder(t, p) && p.PRight?
    ensures HangsApart(t, p)
    ensures var t' := Node(p.left, p.entry, t);
      && HangsInOrder(t', p.up) && All(t', p.up) == All(t, p)
      && Before(p.up) + InOrder(t') == Before(p) + InOrder(t) && After(p.up) == After(p)
  {
    InOrderApart(t, p);
  }

  lemma UpLeftOrder(t: Tree, p: Path)
    requires HangsInOrder(t, p) && p.PLeft?
    ensures HangsApart(t, p)
    ensures var t' := Node(t, p.entry, p.right);
      && HangsInOrder(t', p.up) && All(t', p.up) == All(t, p)
      && Passed(t', p.up) == Before(p) + InOrder(t) && [p.entry] + ToCome(t', p.up) == After(p)
  {
    InOrderApart(t, p);
  }

  /** The entries passed, and the entries to come, when the traversal stands on the root of t. */
  ghost function Passed(t: Tree, p: Path): seq<TreeEntry>
    requires t.Node?
  {
    Before(p) + InOrder(t.left)
  }

  ghost function ToCome(t: Tree, p: Path): seq<TreeEntry>
    requires t.Node?
  {
    InOrder(t.right) + After(p)
  }

  /** Where a step may leave the traversal, given the entries kept so far and those to come. */
  ghost predicate Stepped(done: bool, t: Tree, p: Path, kept: seq<TreeEntry>, todo: seq<TreeEntry>) {
    && HangsInOrder(t, p)
    && if done then p == PTop && InOrder(t) == kept && todo == []
       else t.Node? && Passed(t, p) == kept && [t.entry] + ToCome(t, p) == todo
  }

  lemma FirstEntry(t: Tree, p: Path)
    requires t.Node? && t.left == Leaf
    ensures Passed(t, p) == Before(p) && [t.entry] + ToCome(t, p) == InOrder(t) + After(p)
  {
  }

  lemma LastEntry(t: Tree, p: Path)
    requires t.Node? && t.right == Leaf
    ensures Before(p) + InOrder(t) == Passed(t, p) + [t.entry] && ToCome(t, p) == After(p)
  {
  }

  /** traverse_left: descend to the first entry of the subtree. */
  method TraverseLeft(current: TreeEntry, parent: TreeEntry?, ghost t: Tree, ghost p: Path)
    returns (current': TreeEntry, parent': TreeEntry?, ghost t': Tree, ghost p': Path)
    requires Hangs(current, parent, t, p) && HangsInOrder(t, p) && t.Node?
    modifies All(t, p)`lchild
    ensures Hangs(current', parent', t', p') && t'.Node? && All(t', p') == All(t, p)
    ensures Stepped(false, t', p', Before(p), InOrder(t) + After(p))
  {
    current', parent', t', p' := current, parent, t, p;
    while current'.lchild != null
      invariant Hangs(current', parent', t', p') && HangsInOrder(t', p') && t'.Node? && All(t', p') == All(t, p)
      invariant Before(p') == Before(p) && InOrder(t') + After(p') == InOrder(t) + After(p)
      decreases t'
    {
      assert Rep(current'.lchild, t'.left);
      DownLeftOrder(t', p');
      var next := DownLeft(current', parent', t', p');
      t', p' := t'.left, PLeft(p', t'.entry, t'.right);
      parent', current' := current', next;
    }
    assert Rep(current'.lchild, t'.left);
    FirstEntry(t', p');
  }

  /** traverse_back: climb out of right subtrees, to the next entry or past the root. */
  method TraverseBack(current: TreeEntry, parent: TreeEntry?, ghost t: Tree, ghost p: Path)
    returns (current': TreeEntry, parent': TreeEntry?, done: bool, ghost t': Tree, ghost p': Path)
    requires Hangs(current, parent, t, p) && HangsInOrder(t, p) && t.Node?
    modifies All(t, p)`lchild, All(t, p)`rchild
    ensures Hangs(current', parent', t', p') && t'.Node? && All(t', p') == All(t, p)
    ensures Stepped(done, t', p', Before(p) + InOrder(t), After(p))
  {
    current', parent', t', p' := current, parent, t, p;
    while parent' != null && current'.name > parent'.name
      invariant Hangs(current', parent', t', p') && HangsInOrder(t', p') && t'.Node? && All(t', p') == All(t, p)
      invariant Before(p') + InOrder(t') == Before(p) + InOrder(t) && After(p') == After(p)
      decreases p'
    {
      UpRightOrder(t', p');
      var up := UpRight(current', parent', t', p');
      t', p' := Node(p'.left, p'.entry, t'), p'.up;
      current', parent' := parent', up;
    }
    done := parent' == null;
    if !done {
      UpLeftOrder(t', p');
      var up := UpLeft(current', parent', t', p');
      t', p' := Node(t', p'.entry, p'.right), p'.up;
      current', parent' := parent', up;
    }
  }

  /** traverse_right: the root of t has been passed. */
  method TraverseRight(current: TreeEntry, parent: TreeEntry?, ghost t: Tree, ghost p: Path)
    returns (current': TreeEntry, parent': TreeEntry?, done: bool, ghost t': Tree, ghost p': Path)
    requires Hangs(current, parent, t, p) && HangsInOrder(t, p) && t.Node?
    modifies All(t, p)`lchild, All(t, p)`rchild
    ensures Hangs(current', parent', t', p') && t'.Node? && All(t', p') == All(t, p)
    ensures Stepped(done, t', p', Passed(t, p) + [t.entry], ToCome(t, p))
  {
    assert Rep(current.rchild, t.right);
    if current.rchild != null {
      DownRightOrder(t, p);
      var next := DownRight(current, parent, t, p);
      current', parent', t', p' := TraverseLeft(next, current, t.right, PRight(p, t.left, t.entry));
      done := false;
    } else {
      LastEntry(t, p);
      current', parent', done, t', p' := TraverseBack(current, parent, t, p);
    }
  }

  /** Deletes a current entry without children: like traverse_back, with nothing left to hang. */
  method DeleteLeaf(current: TreeEntry, parent: TreeEntry?, ghost t: Tree, ghost p: Path)
    returns (current': TreeEntry?, parent': TreeEntry?, done: bool, ghost t': Tree, ghost p': Path)
    requires Hangs(current, parent, t, p) && HangsInOrder(t, p) && t == Node(Leaf, current, Leaf)
    modifies All(t, p)`lchild, All(t, p)`rchild
    ensures Hangs(current', parent', t', p') && All(t', p') == All(t, p) - {t.entry}
    ensures Stepped(done, t', p', Passed(t, p), ToCome(t, p))
  {
    InOrderApart(t, p);
    FirstEntry(t, p);
    LastEntry(t, p);
    if parent == null {
      current', parent', done, t', p' := null, null, true, Leaf, PTop;
    } else if current.name < parent.name {
      UpLeftOrder(Leaf, p);
      var up := UpLeft(null, parent, Leaf, p);
      current', parent', done, t', p' := parent, up, false, Node(Leaf, p.entry, p.right), p.up;
    } else {
      UpRightOrder(Leaf, p);
      var up := UpRight(null, parent, Leaf, p);
      current', parent', done, t', p' := TraverseBack(parent, up, Node(p.left, p.entry, Leaf), p.up);
    }
  }

  /** What is left when the current entry goes: its subtrees fit the same place. */
  lemma SubtreesInOrder(t: Tree, p: Path)
    requires HangsInOrder(t, p) && t.Node?
    ensures HangsInOrder(t.left, p) && HangsInOrder(t.right, p) && HangsApart(t, p)
    ensures All(t.left, p) + All(t.right, p) == All(t, p) - {t.entry}
  {
    InOrderApart(t, p);
    BstBounds(t.left, PLow(p), t.entry.name);
    BstBounds(t.right, t.entry.name, PHigh(p));
    BstTighten(t.left, PLow(p), t.entry.name, PLow(p), PHigh(p));
    BstTighten(t.right, t.entry.name, PHigh(p), PLow(p), PHigh(p));
  }

  /** Deletes a current entry with one child, which takes its place. */
  method DeleteHalf(current: TreeEntry, parent: TreeEntry?, ghost t: Tree, ghost p: Path)
    returns (current': TreeEntry, parent': TreeEntry?, done: bool, ghost t': Tree, ghost p': Path)
    requires Hangs(current, parent, t, p) && HangsInOrder(t, p) && t.Node? && (t.left.Leaf? <==> t.right.Node?)
    modifies All(t, p)`lchild, All(t, p)`rchild
    ensures Hangs(current', parent', t', p') && All(t', p') == All(t, p) - {t.entry}
    ensures Stepped(done, t', p', Passed(t, p), ToCome(t, p))
  {
    SubtreesInOrder(t, p);
    assert Rep(current.lchild, t.left) && Rep(current.rchild, t.right);
    if current.lchild == null {
      current', parent', t', p' := TraverseLeft(current.rchild, parent, t.right, p);
      done := false;
    } else {
      current', parent', done, t', p' := TraverseBack(current.lchild, parent, t.left, p);
    }
  }

  lemma FullBounds(t: Tree, p: Path)
    requires HangsInOrder(t, p) && t.Node?
    ensures Bst(t.left, LO, t.entry.name) && Bst(t.right, t.entry.name, HI) && t.entry.name <= HI
  {
    PBstBounds(p);
    BstBounds(t.left, PLow(p), t.entry.name);
    BstBounds(t.right, t.entry.name, PHigh(p));
    BstTighten(t.left, PLow(p), t.entry.name, LO, t.entry.name);
    BstTighten(t.right, t.entry.name, PHigh(p), t.entry.name, HI);
  }

  lemma CancelSuffix(a: seq<TreeEntry>, b: seq<TreeEntry>, c: seq<TreeEntry>)
    requires a + c == b + c
    ensures a == b
  {
    assert |a| == |b|;
    assert a == (a + c)[..|a|] && b == (b + c)[..|b|];
  }

  /** The subtrees of t, joined into x under an entry already passed, stand in for t without its root. */
  lemma Merged(t: Tree, p: Path, x: Tree)
    requires HangsInOrder(t, p) && t.Node? && x.Node? && x.right == t.right && Bst(x, LO, HI)
    requires InOrder(x) == InOrder(t.left) + InOrder(t.right) && Nodes(x) == Nodes(t.left) + Nodes(t.right)
    ensures HangsInOrder(x, p) && All(x, p) == All(t, p) - {t.entry}
    ensures Passed(x, p) + [x.entry] == Passed(t, p) && ToCome(x, p) == ToCome(t, p)
  {
    SubtreesInOrder(t, p);
    BstBounds(t.left, PLow(p), PHigh(p));
    BstBounds(t.right, PLow(p), PHigh(p));
    BstTighten(x, LO, HI, PLow(p), PHigh(p));
    CancelSuffix(InOrder(x.left) + [x.entry], InOrder(t.left), InOrder(t.right));
  }

  /** Deletes a current entry with two children: the largest of the left ones takes its place, already passed. */
  method DeleteFull(current: TreeEntry, parent: TreeEntry?, ghost t: Tree, ghost p: Path)
    returns (current': TreeEntry, parent': TreeEntry?, done: bool, ghost t': Tree, ghost p': Path)
    requires Hangs(current, parent, t, p) && HangsInOrder(t, p) && t.Node? && t.left.Node? && t.right.Node?
    modifies All(t, p)`lchild, All(t, p)`rchild
    ensures Hangs(current', parent', t', p') && All(t', p') == All(t, p) - {t.entry}
    ensures Stepped(done, t', p', Passed(t, p), ToCome(t, p))
  {
    InOrderApart(t, p);
    FullBounds(t, p);
    assert Rep(current.lchild, t.left) && Rep(current.rchild, t.right);
    assert allocated(PNodes(p));
    var root, x := JoinRight(current.lchild, current.rchild, t.left, t.right, t.entry.name);
    Merged(t, p, x);
    current', parent', done, t', p' := TraverseRight(root, parent, x, p);
  }

  /** The body of ipc_splay_traverse_next. */
  method Advance(current: TreeEntry, parent: TreeEntry?, delete: bool, ghost t: Tree, ghost p: Path)
    returns (current': TreeEntry?, parent': TreeEntry?, done: bool, ghost t': Tree, ghost p': Path)
    requires Hangs(current, parent, t, p) && HangsInOrder(t, p) && t.Node?
    modifies All(t, p)`lchild, All(t, p)`rchild
    ensures Hangs(current', parent', t', p') && All(t', p') == All(t, p) - (if delete then {t.entry} else {})
    ensures Stepped(done, t', p', Passed(t, p) + (if delete then [] else [t.entry]), ToCome(t, p))
  {
    assert Rep(current.lchild, t.left) && Rep(current.rchild, t.right);
    assert Passed(t, p) + [] == Passed(t, p);
    if !delete {
      current', parent', done, t', p' := TraverseRight(current, parent, t, p);
    } else if current.lchild == null && current.rchild == null {
      current', parent', done, t', p' := DeleteLeaf(current, parent, t, p);
    } else if current.lchild == null || current.rchild == null {
      current', parent', done, t', p' := DeleteHalf(current, parent, t, p);
    } else {
      current', parent', done, t', p' := DeleteFull(current, parent, t, p);
    }
  }

  /** Assembles a split tree and descends to its first entry. */
  method Begin(c: Cut, ghost s: Shape) returns (current: TreeEntry, parent: TreeEntry?, ghost t: Tree, ghost p: Path)
    requires s.At(c) && s.Ordered(LO, HI) && s.m.Node?
    modifies s.All()`lchild, s.All()`rchild
    ensures Hangs(current, parent, t, p) && t.Node? && All(t, p) == s.All()
    ensures Stepped(false, t, p, [], s.Entries())
  {
    PrimAssemble(c, s, LO, HI);
    AssembledOrder(s);
    BstAssembled(s, LO, HI);
    assert InOrder(Assembled(s)) + After(PTop) == s.Entries();
    current, parent, t, p := TraverseLeft(c.tree, null, Assembled(s), PTop);
  }
}
