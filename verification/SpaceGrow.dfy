/** Growth of the entry table, as ipc_entry_grow_table does it: tree entries move in, the rest are recounted. */
module SpaceGrow {
  import opened MachPort
  import opened SpaceView

  const BLANK := Slot(0, false, NO_RIGHT, 0)

  /** The table with its new part zeroed. */
  ghost function Extended(v: View, size: nat, next: nat): View
    requires |v.slots| <= size
  {
    v.(slots := v.slots + seq(size - |v.slots|, i => BLANK), next := next)
  }

  /** Tree names whose index was in the old table, or that the traversal has passed. */
  predicate Settled(n: Name, osize: nat, c: int) {
    Index(n) < osize || n < c
  }

  ghost function SettledNames(names: set<Name>, osize: nat, c: int): set<Name> {
    set n | n in names && Settled(n, osize, c)
  }

  /** The free list as before the growth; unused new slots are blank and not on it. */
  ghost predicate OldFree(w: View, osize: nat)
    requires w.Sized()
  {
    && 0 < osize <= |w.slots| && w.held == {}
    && w.slots[0].right == NO_RIGHT && w.slots[0].gen == GENERATIONS - 1
    && Chain(w.slots, w.free)
    && (forall i :: 0 < i < osize ==> (i in w.free <==> !w.Used(i)))
    && (forall i :: osize <= i < |w.slots| ==> i !in w.free)
    && (forall i :: 0 < i < |w.slots| && !w.Used(i) ==> w.slots[i].right == NO_RIGHT)
  }

  /** The tree as the traversal has it: every name passed collides with a used slot of another generation. */
  ghost predicate PassedTree(w: View, osize: nat, c: int)
    requires w.Sized()
  {
    && w.heldTree == {} && w.total == |w.tree|
    && (forall n :: n in w.tree ==> IsValid(n) && w.tree[n].kind != None)
    && (forall n :: n in w.tree && 0 < Index(n) < |w.slots| && Settled(n, osize, c) ==> w.Used(Index(n)) && w.slots[Index(n)].gen != Gen(n))
    && (forall n :: n in w.tree && 0 < Index(n) < |w.slots| && !Settled(n, osize, c) ==> w.Used(Index(n)) ==> w.slots[Index(n)].gen != Gen(n))
    && (forall i :: 0 <= i < |w.slots| ==> (w.slots[i].collision <==> HasIndex(SettledNames(w.tree.Keys, osize, c), i)))
  }

  /** Always true: an invariant stated to hold wherever this is mentioned is passed around whole elsewhere. */
  ghost predicate InsideGrowth(u: nat) {
    true
  }

  ghost predicate Underway(w: View, osize: nat, c: int) {
    w.Sized() && OldFree(w, osize) && PassedTree(w, osize, c)
  }

  /** Underway, passed around whole. */
  ghost predicate Growing(w: View, osize: nat, c: int) {
    forall u: nat {:trigger InsideGrowth(u)} :: InsideGrowth(u) ==> Underway(w, osize, c)
  }

  lemma Look(w: View, osize: nat, c: int)
    requires Growing(w, osize, c)
    ensures Underway(w, osize, c)
  {
    assert InsideGrowth(0);
  }

  lemma ExtendedUnderway(v: View, size: nat, next: nat)
    requires v.Inv() && v.held == {} && v.heldTree == {} && |v.slots| <= size <= next < INDICES
    ensures Underway(Extended(v, size, next), |v.slots|, |v.slots| * GENERATIONS)
  {
    var w := Extended(v, size, next);
    ChainFrame(v.slots, w.slots, v.free);
    forall i | 0 <= i < |w.slots|
      ensures w.slots[i].collision <==> HasIndex(SettledNames(w.tree.Keys, |v.slots|, |v.slots| * GENERATIONS), i)
    {
      assert i < |v.slots| ==> (HasIndex(v.tree.Keys, i) <==> HasIndex(SettledNames(w.tree.Keys, |v.slots|, |v.slots| * GENERATIONS), i));
    }
  }

  lemma ExtendedGrowing(v: View, size: nat, next: nat)
    requires v.Inv() && v.held == {} && v.heldTree == {} && |v.slots| <= size <= next < INDICES
    ensures Extended(v, size, next).Sized()
    ensures Growing(Extended(v, size, next), |v.slots|, |v.slots| * GENERATIONS) && SameRights(v, Extended(v, size, next))
  {
    ExtendedUnderway(v, size, next);
  }

  /** The next entry of the traversal: into its slot if that is blank, else a collision. */
  ghost function Absorbed(w: View, n: Name): View
    requires n in w.tree && Index(n) < |w.slots| && w.total > 0
  {
    var i := Index(n);
    if w.slots[i].right.kind == None then
      w.(slots := w.slots[i := Slot(Gen(n), false, w.tree[n], w.slots[i].next)], tree := w.tree - {n}, total := w.total - 1)
    else
      w.(slots := w.slots[i := w.slots[i].(collision := true)])
  }

  /** n is the first entry of the new part the traversal has not passed. */
  ghost predicate IsNext(w: View, osize: nat, c: int, n: Name) {
    && n in w.tree && osize <= Index(n) < |w.slots| && c <= n
    && forall m :: m in w.tree && osize <= Index(m) < |w.slots| && !Settled(m, osize, c) ==> n <= m
  }

  lemma AbsorbedFree(w: View, osize: nat, c: int, n: Name)
    requires Underway(w, osize, c) && IsNext(w, osize, c, n) && w.total > 0
    ensures Absorbed(w, n).Sized() && OldFree(Absorbed(w, n), osize)
  {
    ChainFrame(w.slots, Absorbed(w, n).slots, w.free);
    assert forall j :: 0 < j < osize ==> Absorbed(w, n).slots[j] == w.slots[j];
  }

  /** Passing n settles exactly n. */
  lemma SettledPlus(w: View, osize: nat, c: int, n: Name)
    requires IsNext(w, osize, c, n)
    ensures forall m :: m in w.tree && Index(m) < |w.slots| ==> (Settled(m, osize, n + 1) <==> Settled(m, osize, c) || m == n)
  {
  }

  lemma AbsorbedTree(w: View, osize: nat, c: int, n: Name)
    requires Underway(w, osize, c) && IsNext(w, osize, c, n) && w.total > 0
    ensures Absorbed(w, n).Sized() && PassedTree(Absorbed(w, n), osize, n + 1)
  {
    AbsorbedCounts(w, osize, c, n);
    AbsorbedNames(w, osize, c, n);
    forall j | 0 <= j < |w.slots|
      ensures Absorbed(w, n).slots[j].collision <==> HasIndex(SettledNames(Absorbed(w, n).tree.Keys, osize, n + 1), j)
    {
      AbsorbedCollision(w, osize, c, n, j);
    }
  }

  lemma AbsorbedCounts(w: View, osize: nat, c: int, n: Name)
    requires Underway(w, osize, c) && IsNext(w, osize, c, n) && w.total > 0
    ensures var x := Absorbed(w, n); x.Sized() && |x.slots| == |w.slots| && x.heldTree == {} && x.total == |x.tree|
    ensures forall m :: m in Absorbed(w, n).tree ==> IsValid(m) && Absorbed(w, n).tree[m].kind != None
  {
    OneFewer(w.tree, n);
  }

  lemma OneFewer<K, V>(m: map<K, V>, k: K)
    requires k in m
    ensures |m - {k}| == |m| - 1
  {
    assert k in m.Keys && |m.Keys - {k}| == |m.Keys| - 1 && (m - {k}).Keys == m.Keys - {k};
  }

  lemma AbsorbedNames(w: View, osize: nat, c: int, n: Name)
    requires Underway(w, osize, c) && IsNext(w, osize, c, n) && w.total > 0
    ensures var x := Absorbed(w, n); forall m :: m in x.tree && 0 < Index(m) < |x.slots| ==>
      (x.Used(Index(m)) || Settled(m, osize, n + 1) ==> x.Used(Index(m)) && x.slots[Index(m)].gen != Gen(m))
  {
    var x := Absorbed(w, n);
    forall m | m in x.tree && 0 < Index(m) < |x.slots|
      ensures x.Used(Index(m)) || Settled(m, osize, n + 1) ==> x.Used(Index(m)) && x.slots[Index(m)].gen != Gen(m)
    {
      AbsorbedName(w, osize, c, n, m);
    }
  }

  lemma AbsorbedName(w: View, osize: nat, c: int, n: Name, m: Name)
    requires Underway(w, osize, c) && IsNext(w, osize, c, n) && w.total > 0
    requires m in Absorbed(w, n).tree && 0 < Index(m) < |w.slots|
    ensures var x := Absorbed(w, n); x.Used(Index(m)) || Settled(m, osize, n + 1) ==> x.Used(Index(m)) && x.slots[Index(m)].gen != Gen(m)
  {
    SettledPlus(w, osize, c, n);
    if Index(m) == Index(n) && Gen(m) == Gen(n) {
      SameName(m, n);
    }
  }

  lemma AbsorbedCollision(w: View, osize: nat, c: int, n: Name, j: nat)
    requires Underway(w, osize, c) && IsNext(w, osize, c, n) && w.total > 0 && j < |w.slots|
    ensures Absorbed(w, n).slots[j].collision <==> HasIndex(SettledNames(Absorbed(w, n).tree.Keys, osize, n + 1), j)
  {
    var x := Absorbed(w, n);
    SettledPlus(w, osize, c, n);
    var was, now := SettledNames(w.tree.Keys, osize, c), SettledNames(x.tree.Keys, osize, n + 1);
    if HasIndex(now, j) {
      var m :| m in now && Index(m) == j;
      assert m == n || m in was;
    }
    if HasIndex(was, j) {
      var m :| m in was && Index(m) == j;
      assert m in now;
    }
    if x.tree == w.tree {
      assert n in now;
    } else if j == Index(n) {
      assert !w.Used(j);
      assert !HasIndex(was, j);
    }
  }

  lemma AbsorbedGrowing(w: View, osize: nat, c: int, n: Name)
    requires Growing(w, osize, c) && IsNext(w, osize, c, n)
    ensures w.total > 0 && Growing(Absorbed(w, n), osize, n + 1)
  {
    Look(w, osize, c);
    assert n in w.tree.Keys;
    AbsorbedFree(w, osize, c, n);
    AbsorbedTree(w, osize, c, n);
  }

  lemma AbsorbedRights(w: View, osize: nat, c: int, n: Name)
    requires Growing(w, osize, c) && IsNext(w, osize, c, n) && w.total > 0
    ensures w.Sized() && Absorbed(w, n).Sized() && SameRights(w, Absorbed(w, n))
  {
    Look(w, osize, c);
    forall m: Name
      ensures w.RightOf(m) == Absorbed(w, n).RightOf(m)
    {
      if Index(m) == Index(n) && Gen(m) == Gen(n) {
        SameName(m, n);
      }
    }
  }

  /** The free list once the unused new slots from j on have been put in front of it. */
  ghost predicate NewFree(w: View, osize: nat, j: nat)
    requires w.Sized()
  {
    && 0 < osize <= j <= |w.slots| && w.held == {}
    && w.slots[0].right == NO_RIGHT && w.slots[0].gen == GENERATIONS - 1
    && Chain(w.slots, w.free)
    && (forall i :: 0 < i < |w.slots| && (i < osize || j <= i) ==> (i in w.free <==> !w.Used(i)))
    && (forall i :: osize <= i < j ==> i !in w.free)
    && (forall i :: 0 < i < |w.slots| && !w.Used(i) ==> w.slots[i].right == NO_RIGHT)
  }

  /** Slot i of the new part, if unused, goes to the head of the free list with generation -1. */
  ghost function Threaded(w: View, i: nat): View
    requires 0 < i < |w.slots|
  {
    if w.Used(i) then w else
      w.(slots := w.slots[i := Slot(GENERATIONS - 1, false, NO_RIGHT, w.slots[0].next)][0 := w.slots[0].(next := i)], free := [i] + w.free)
  }

  lemma ThreadedFree(w: View, osize: nat, i: nat)
    requires w.Sized() && osize <= i < |w.slots| && NewFree(w, osize, i + 1)
    ensures Threaded(w, i).Sized() && NewFree(Threaded(w, i), osize, i)
  {
    var x := Threaded(w, i);
    if !w.Used(i) {
      ChainPush(w.slots, w.free, i, Slot(GENERATIONS - 1, false, NO_RIGHT, w.slots[0].next));
      assert forall j :: 0 < j < |w.slots| ==> (x.Used(j) <==> w.Used(j));
      assert forall j :: j in x.free <==> j == i || j in w.free;
    }
  }

  lemma ThreadedTree(w: View, osize: nat, c: int, i: nat)
    requires w.Sized() && 0 < osize <= i < |w.slots| && PassedTree(w, osize, c) && AllSettled(w, osize, c)
    ensures Threaded(w, i).Sized() && PassedTree(Threaded(w, i), osize, c) && SameRights(w, Threaded(w, i))
  {
    var x := Threaded(w, i);
    assert forall j :: 0 < j < |w.slots| ==> (x.Used(j) <==> w.Used(j));
    if !w.Used(i) {
      assert forall n :: n in w.tree ==> Index(n) != i;
      assert !HasIndex(SettledNames(w.tree.Keys, osize, c), i);
    }
  }

  ghost predicate AllSettled(w: View, osize: nat, c: int) {
    forall n :: n in w.tree && Index(n) < |w.slots| ==> Settled(n, osize, c)
  }

  ghost predicate Linked(x: View, osize: nat, c: int, j: nat) {
    x.Sized() && NewFree(x, osize, j) && PassedTree(x, osize, c) && AllSettled(x, osize, c)
  }

  ghost predicate Alike(w: View, x: View) {
    && w.Sized() && x.Sized() && SameRights(w, x)
    && |x.slots| == |w.slots| && x.tree == w.tree && x.next == w.next && x.small == w.small && x.total == w.total
  }

  /** The free list of x is that of w with slots from j on in front, in order. */
  ghost predicate Listed(w: View, x: View, j: nat, added: seq<nat>) {
    x.free == added + w.free && Ascending(added, j)
  }

  ghost predicate Ascending(s: seq<nat>, lo: nat) {
    (forall k :: 0 <= k < |s| ==> lo <= s[k]) && (forall j, k :: 0 <= j < k < |s| ==> s[j] < s[k])
  }

  /** Slots from j on of the new part are threaded in front of the free list of w. */
  ghost predicate Threading(w: View, x: View, osize: nat, c: int, j: nat, added: seq<nat>) {
    forall u: nat {:trigger InsideGrowth(u)} :: InsideGrowth(u) ==> Linked(x, osize, c, j) && Alike(w, x) && Listed(w, x, j, added)
  }

  lemma LookThreading(w: View, x: View, osize: nat, c: int, j: nat, added: seq<nat>)
    requires Threading(w, x, osize, c, j, added)
    ensures Linked(x, osize, c, j) && Alike(w, x) && Listed(w, x, j, added)
  {
    assert InsideGrowth(0);
  }

  lemma StartThreading(w: View, osize: nat, c: int)
    requires Growing(w, osize, c) && AllSettled(w, osize, c)
    ensures w.Sized() && Threading(w, w, osize, c, |w.slots|, [])
  {
    Look(w, osize, c);
    assert w.free == [] + w.free;
  }

  ghost function PlusFree(x: View, i: nat, added: seq<nat>): seq<nat>
    requires i < |x.slots|
  {
    if x.Used(i) then added else [i] + added
  }

  lemma LinkedStep(w: View, x: View, osize: nat, c: int, i: nat)
    requires Linked(x, osize, c, i + 1) && Alike(w, x) && 0 < osize <= i < |x.slots|
    ensures Linked(Threaded(x, i), osize, c, i) && Alike(w, Threaded(x, i))
  {
    ThreadedFree(x, osize, i);
    ThreadedTree(x, osize, c, i);
  }

  lemma ListedStep(w: View, x: View, i: nat, added: seq<nat>)
    requires Listed(w, x, i + 1, added) && 0 < i < |x.slots|
    ensures Listed(w, Threaded(x, i), i, PlusFree(x, i, added))
  {
    assert [i] + (added + w.free) == [i] + added + w.free;
  }

  lemma ThreadStep(w: View, x: View, osize: nat, c: int, i: nat, added: seq<nat>)
    requires Threading(w, x, osize, c, i + 1, added) && 0 < osize <= i < |x.slots|
    ensures Threading(w, Threaded(x, i), osize, c, i, PlusFree(x, i, added))
    ensures x.Used(i) <==> x.slots[i].right.kind != None
  {
    LookThreading(w, x, osize, c, i + 1, added);
    LinkedStep(w, x, osize, c, i);
    ListedStep(w, x, i, added);
  }

  /** With every name settled, every new slot threaded and the small indices recounted, the space is consistent again. */
  lemma GrownInv(w: View, osize: nat, c: int)
    requires w.Sized() && NewFree(w, osize, osize) && PassedTree(w, osize, c) && AllSettled(w, osize, c)
    ensures w.(small := |IndicesIn(w.tree.Keys, |w.slots|, w.next)|).Inv()
  {
    forall i | 0 <= i < |w.slots|
      ensures w.slots[i].collision <==> HasIndex(w.tree.Keys, i)
    {
      if HasIndex(w.tree.Keys, i) {
        var n :| n in w.tree.Keys && Index(n) == i;
        assert n in SettledNames(w.tree.Keys, osize, c);
      }
    }
  }

  ghost function Recounted(x: View): View {
    x.(small := |IndicesIn(x.tree.Keys, |x.slots|, x.next)|)
  }

  lemma GrowthDone(w: View, x: View, osize: nat, c: int, added: seq<nat>)
    requires Threading(w, x, osize, c, osize, added)
    ensures Sound(Recounted(x)) && SameRights(w, Recounted(x)) && Listed(w, Recounted(x), osize, added)
    ensures x.held == {} && x.heldTree == {} && x.tree == w.tree && x.next == w.next && x.total == w.total && |x.slots| == |w.slots|
  {
    LookThreading(w, x, osize, c, osize, added);
    GrownInv(x, osize, c);
  }

  /** With an empty tree there is nothing to settle. */
  lemma NothingToMove(v: View, size: nat, next: nat)
    requires v.Inv() && v.total == 0 && |v.slots| <= size
    ensures v.tree == map[] && v.small == 0 && v.small == Recounted(Extended(v, size, next)).small
    ensures AllSettled(Extended(v, size, next), |v.slots|, |v.slots| * GENERATIONS)
  {
    assert v.tree.Keys == {} ==> v.tree == map[];
    assert IndicesIn(v.tree.Keys, |v.slots|, v.next) == {};
    assert IndicesIn(v.tree.Keys, size, next) == {};
  }
}
