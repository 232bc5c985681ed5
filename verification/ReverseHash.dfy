/**
 The local reverse hash table of a space: open addressing with linear probing, held in
 one field of the entry table.  a[k] is the index of an entry, 0 for an empty slot.
 */
module ReverseHash {
  import opened MachPort

  /** IH_LOCAL_HASH: the slot an object hashes to. */
  function Home(hash: Object -> nat, obj: Object, size: nat): (h: nat)
    requires size > 0
    ensures h < size
  {
    hash(obj) % size
  }

  function Next(k: nat, size: nat): (k': nat)
    requires k < size
    ensures k' < size
  {
    if k + 1 == size then 0 else k + 1
  }

  /** How many steps of Next lead from slot a to slot b. */
  ghost function Dist(a: nat, b: nat, size: nat): (d: int)
    requires a < size && b < size
    ensures 0 <= d < size
  {
    if a <= b then b - a else b - a + size
  }

  /** The entries in the table, and the object of each. */
  ghost predicate Fits(s: seq<nat>, objs: seq<Object>) {
    && 0 < |s| <= |objs|
    && forall k :: 0 <= k < |s| ==> s[k] < |s|
  }

  ghost predicate Once(s: seq<nat>) {
    forall j, k :: 0 <= j < k < |s| && s[j] != 0 ==> s[j] != s[k]
  }

  ghost function Contents(s: seq<nat>): set<nat> {
    set k | 0 <= k < |s| && s[k] != 0 :: s[k]
  }

  /** The way up from slot a to slot b passes slot d. */
  ghost predicate Passes(a: nat, d: nat, b: nat, size: nat)
    requires a < size && b < size && d < size
  {
    Dist(a, d, size) <= Dist(a, b, size)
  }

  ghost function HomeOf(s: seq<nat>, objs: seq<Object>, hash: Object -> nat, k: nat): (h: nat)
    requires Fits(s, objs) && k < |s|
    ensures h < |s|
  {
    Home(hash, objs[s[k]], |s|)
  }

  /** A probe for any entry of the table meets no empty slot before it. */
  ghost predicate Reachable(s: seq<nat>, objs: seq<Object>, hash: Object -> nat)
    requires Fits(s, objs)
  {
    forall k, d :: 0 <= k < |s| && 0 <= d < |s| && s[k] != 0 && Passes(HomeOf(s, objs, hash, k), d, k, |s|) ==> s[d] != 0
  }

  ghost predicate Probing(s: seq<nat>, objs: seq<Object>, hash: Object -> nat) {
    Fits(s, objs) && Once(s) && Reachable(s, objs, hash)
  }

  lemma {:induction false} Pigeons(s: seq<nat>, m: nat)
    requires m <= |s| && Once(s) && forall k :: 0 <= k < m ==> s[k] != 0
    ensures |Contents(s[..m])| == m
  {
    if m > 0 {
      Pigeons(s, m - 1);
      assert Contents(s[..m]) == Contents(s[..m - 1]) + {s[m - 1]} by {
        assert s[..m][m - 1] == s[m - 1];
        assert forall k :: 0 <= k < m - 1 ==> s[..m][k] == s[..m - 1][k];
      }
      assert s[m - 1] !in Contents(s[..m - 1]);
    }
  }

  ghost function OneTo(n: nat): (s: set<nat>)
    ensures |s| == n && forall i :: i in s <==> 0 < i <= n
  {
    if n == 0 then {} else OneTo(n - 1) + {n}
  }

  lemma Subset(x: set<nat>, y: set<nat>)
    requires x <= y
    ensures |x| <= |y|
  {
    if x != {} {
      var e :| e in x;
      Subset(x - {e}, y - {e});
    }
  }

  /** Slot 0 of the entry table is never hashed, so some slot is always empty. */
  lemma Room(s: seq<nat>) returns (z: nat)
    requires |s| > 0 && Once(s) && forall k :: 0 <= k < |s| ==> s[k] < |s|
    ensures z < |s| && s[z] == 0
  {
    if k :| 0 <= k < |s| && s[k] == 0 {
      z := k;
    } else {
      Pigeons(s, |s|);
      assert s[..|s|] == s;
      Subset(Contents(s), OneTo(|s| - 1));
      assert false;
    }
  }

  /** ipc_hash_local_lookup: the entry whose object is obj, 0 if none is hashed. */
  method Lookup(a: array<nat>, objs: seq<Object>, hash: Object -> nat, obj: Object) returns (index: nat)
    requires Probing(a[..], objs, hash)
    ensures index != 0 ==> index in Contents(a[..]) && objs[index] == obj
    ensures index == 0 ==> forall i :: i in Contents(a[..]) ==> objs[i] != obj
  {
    var size := a.Length;
    var home := Home(hash, obj, size);
    var hindex: nat := home;
    ghost var s := a[..];
    ghost var z := Room(s);
    while a[hindex] != 0
      invariant hindex < size && Dist(home, hindex, size) <= Dist(home, z, size)
      invariant forall d :: 0 <= d < size && Dist(home, d, size) < Dist(home, hindex, size) ==> s[d] == 0 || objs[s[d]] != obj
      decreases Dist(home, z, size) - Dist(home, hindex, size)
    {
      if objs[a[hindex]] == obj {
        return a[hindex];
      }
      hindex := Next(hindex, size);
    }
    index := 0;
    NotFound(s, objs, hash, obj, hindex);
  }

  lemma NotFound(s: seq<nat>, objs: seq<Object>, hash: Object -> nat, obj: Object, h: nat)
    requires Probing(s, objs, hash) && h < |s| && s[h] == 0
    requires var home := Home(hash, obj, |s|);
      forall d :: 0 <= d < |s| && Dist(home, d, |s|) < Dist(home, h, |s|) ==> s[d] == 0 || objs[s[d]] != obj
    ensures forall i :: i in Contents(s) ==> objs[i] != obj
  {
    forall k | 0 <= k < |s| && s[k] != 0
      ensures objs[s[k]] != obj
    {
      assert !Passes(HomeOf(s, objs, hash, k), h, k, |s|);
    }
  }

  /** ipc_hash_local_insert: into the first empty slot of the probe. */
  method Insert(a: array<nat>, objs: seq<Object>, hash: Object -> nat, obj: Object, index: nat)
    requires Probing(a[..], objs, hash)
    requires 0 < index < a.Length && index !in Contents(a[..]) && objs[index] == obj
    modifies a
    ensures Probing(a[..], objs, hash)
    ensures Contents(a[..]) == old(Contents(a[..])) + {index}
  {
    var size := a.Length;
    var home := Home(hash, obj, size);
    var hindex: nat := home;
    ghost var s := a[..];
    ghost var z := Room(s);
    while a[hindex] != 0
      invariant hindex < size && a[..] == s && Dist(home, hindex, size) <= Dist(home, z, size)
      invariant forall d :: 0 <= d < size && Dist(home, d, size) < Dist(home, hindex, size) ==> s[d] != 0
      decreases Dist(home, z, size) - Dist(home, hindex, size)
    {
      hindex := Next(hindex, size);
    }
    Inserted(s, objs, hash, hindex, index);
    a[hindex] := index;
    assert a[..] == s[hindex := index];
  }

  lemma Inserted(s: seq<nat>, objs: seq<Object>, hash: Object -> nat, h: nat, index: nat)
    requires Probing(s, objs, hash) && h < |s| && s[h] == 0 && 0 < index < |s| && index !in Contents(s)
    requires var home := Home(hash, objs[index], |s|);
      forall d :: 0 <= d < |s| && Dist(home, d, |s|) < Dist(home, h, |s|) ==> s[d] != 0
    ensures Probing(s[h := index], objs, hash)
    ensures Contents(s[h := index]) == Contents(s) + {index}
  {
    var s' := s[h := index];
    assert forall k :: 0 <= k < |s| && s[k] != 0 ==> s[k] in Contents(s);
    assert forall k :: 0 <= k < |s| && k != h ==> s'[k] == s[k];
    assert s'[h] == index && index in Contents(s');
    assert Contents(s') >= Contents(s) by {
      forall i | i in Contents(s) ensures i in Contents(s') {
        var k :| 0 <= k < |s| && s[k] == i && i != 0;
        assert s'[k] == i;
      }
    }
  }

  /** The test of ipc_hash_local_delete: does the probe from tindex to dindex pass hindex? */
  predicate Displaced(dindex: nat, hindex: nat, tindex: nat) {
    if dindex < hindex then dindex < tindex <= hindex else dindex < tindex || tindex <= hindex
  }

  lemma DisplacedPasses(d: nat, h: nat, t: nat, size: nat)
    requires d < size && h < size && t < size && d != h
    ensures Displaced(d, h, t) <==> Passes(t, h, d, size)
  {
  }

  /**
   During a deletion slot h is a hole: its entry has been taken out or moved up.  z is a slot
   that is empty throughout.  Entries up to slot d do not need the hole; later ones may.
   */
  ghost predicate Holed(s: seq<nat>, objs: seq<Object>, hash: Object -> nat, z: nat, h: nat, d: nat) {
    && Fits(s, objs) && z < |s| && s[z] == 0 && h < |s| && d < |s| && s[h] != 0 && Once(s[h := 0])
    && Dist(z, h, |s|) <= Dist(z, d, |s|)
    && (forall k, e :: 0 <= k < |s| && k != h && s[k] != 0 && 0 <= e < |s| && e != h && Passes(HomeOf(s, objs, hash, k), e, k, |s|) ==> s[e] != 0)
    && (forall k :: 0 <= k < |s| && k != h && s[k] != 0 && Passes(HomeOf(s, objs, hash, k), h, k, |s|) ==> Dist(z, d, |s|) < Dist(z, k, |s|))
  }

  /** The probe of an entry never passes the empty slot z, so what it passes lies in order above z. */
  lemma InOrder(z: nat, a: nat, d: nat, b: nat, size: nat)
    requires z < size && a < size && d < size && b < size
    requires Passes(a, d, b, size) && !Passes(a, z, b, size)
    ensures Dist(z, a, size) <= Dist(z, d, size) <= Dist(z, b, size)
  {
  }

  lemma HoleStarts(s: seq<nat>, objs: seq<Object>, hash: Object -> nat, z: nat, h: nat)
    requires Probing(s, objs, hash) && h < |s| && s[h] != 0 && z < |s| && s[z] == 0
    ensures Holed(s, objs, hash, z, h, h)
    ensures Contents(s[h := 0]) == Contents(s) - {s[h]}
  {
    forall k | 0 <= k < |s| && k != h && s[k] != 0 && Passes(HomeOf(s, objs, hash, k), h, k, |s|)
      ensures Dist(z, h, |s|) < Dist(z, k, |s|)
    {
      InOrder(z, HomeOf(s, objs, hash, k), h, k, |s|);
    }
    assert forall k :: 0 <= k < |s| && k != h ==> s[h := 0][k] == s[k];
  }

  /** The entry at the next slot does not need the hole: go on. */
  lemma HoleSkips(s: seq<nat>, objs: seq<Object>, hash: Object -> nat, z: nat, h: nat, d: nat)
    requires Holed(s, objs, hash, z, h, d)
    requires var d' := Next(d, |s|); s[d'] != 0 && !Displaced(d', h, HomeOf(s, objs, hash, d'))
    ensures Holed(s, objs, hash, z, h, Next(d, |s|)) && Next(d, |s|) != h
  {
    var d' := Next(d, |s|);
    assert Dist(z, d', |s|) == Dist(z, d, |s|) + 1;
    DisplacedPasses(d', h, HomeOf(s, objs, hash, d'), |s|);
  }

  lemma MovedPaths(s: seq<nat>, objs: seq<Object>, hash: Object -> nat, z: nat, h: nat, d: nat, d': nat, k: nat, e: nat)
    requires Holed(s, objs, hash, z, h, d) && d' < |s| && d' != h && s[d'] != 0 && Passes(HomeOf(s, objs, hash, d'), h, d', |s|)
    requires k < |s| && k != d' && s[h := s[d']][k] != 0
    requires e < |s| && e != d' && Passes(HomeOf(s[h := s[d']], objs, hash, k), e, k, |s|)
    ensures s[h := s[d']][e] != 0
  {
  }

  /** An entry whose path passes the new hole lies beyond it, seen from the empty slot z. */
  lemma HoleBefore(s: seq<nat>, objs: seq<Object>, hash: Object -> nat, z: nat, h: nat, d: nat, d': nat, k: nat)
    requires Holed(s, objs, hash, z, h, d) && d' < |s| && d' != h && s[d'] != 0 && Passes(HomeOf(s, objs, hash, d'), h, d', |s|)
    requires k < |s| && k != d' && s[h := s[d']][k] != 0 && Passes(HomeOf(s[h := s[d']], objs, hash, k), d', k, |s|)
    ensures Dist(z, d', |s|) < Dist(z, k, |s|)
  {
    var home := HomeOf(s[h := s[d']], objs, hash, k);
    if Passes(home, z, k, |s|) {
      MovedPaths(s, objs, hash, z, h, d, d', k, z);
    }
    InOrder(z, home, d', k, |s|);
  }

  /** The entry at the next slot does: it moves up, and leaves a new hole. */
  lemma HoleMoves(s: seq<nat>, objs: seq<Object>, hash: Object -> nat, z: nat, h: nat, d: nat)
    requires Holed(s, objs, hash, z, h, d)
    requires var d' := Next(d, |s|); s[d'] != 0 && Displaced(d', h, HomeOf(s, objs, hash, d'))
    ensures var d' := Next(d, |s|); Holed(s[h := s[d']], objs, hash, z, d', d')
    ensures var d' := Next(d, |s|); Contents(s[h := s[d']][d' := 0]) == Contents(s[h := 0])
  {
    var d' := Next(d, |s|);
    assert Dist(z, d', |s|) == Dist(z, d, |s|) + 1;
    DisplacedPasses(d', h, HomeOf(s, objs, hash, d'), |s|);
    var s' := s[h := s[d']];
    forall k, e | 0 <= k < |s| && k != d' && s'[k] != 0 && 0 <= e < |s| && e != d' && Passes(HomeOf(s', objs, hash, k), e, k, |s|)
      ensures s'[e] != 0
    {
      MovedPaths(s, objs, hash, z, h, d, d', k, e);
    }
    forall k | 0 <= k < |s| && k != d' && s'[k] != 0 && Passes(HomeOf(s', objs, hash, k), d', k, |s|)
      ensures Dist(z, d', |s|) < Dist(z, k, |s|)
    {
      HoleBefore(s, objs, hash, z, h, d, d', k);
    }
    MovedContents(s, h, d');
  }

  lemma MovedContents(s: seq<nat>, h: nat, d: nat)
    requires h < |s| && d < |s| && h != d && s[d] != 0 && Once(s[h := 0])
    ensures Once(s[h := s[d]][d := 0])
    ensures Contents(s[h := s[d]][d := 0]) == Contents(s[h := 0])
  {
    var x, y := s[h := 0], s[h := s[d]][d := 0];
    assert forall k :: 0 <= k < |s| && k != h && k != d ==> x[k] == y[k];
    assert x[d] == s[d] && y[h] == s[d] && x[h] == 0 && y[d] == 0;
    forall i | i in Contents(x)
      ensures i in Contents(y)
    {
      var k :| 0 <= k < |s| && x[k] == i && i != 0;
      assert y[if k == d then h else k] == i;
    }
    forall i | i in Contents(y)
      ensures i in Contents(x)
    {
      var k :| 0 <= k < |s| && y[k] == i && i != 0;
      assert x[if k == h then d else k] == i;
    }
  }

  /** The clump has ended: the hole can stay. */
  lemma HoleEnds(s: seq<nat>, objs: seq<Object>, hash: Object -> nat, z: nat, h: nat, d: nat)
    requires Holed(s, objs, hash, z, h, d) && s[Next(d, |s|)] == 0
    ensures Probing(s[h := 0], objs, hash)
  {
    var s' := s[h := 0];
    forall k | 0 <= k < |s| && s'[k] != 0
      ensures !Passes(HomeOf(s', objs, hash, k), h, k, |s|)
    {
      if Passes(HomeOf(s, objs, hash, k), h, k, |s|) {
        assert !Passes(HomeOf(s, objs, hash, k), z, k, |s|);
        InOrder(z, HomeOf(s, objs, hash, k), h, k, |s|);
      }
    }
  }

  /** ipc_hash_local_delete: take the index out and close the hole with displaced entries from the rest of the clump. */
  method Delete(a: array<nat>, objs: seq<Object>, hash: Object -> nat, obj: Object, index: nat)
    requires Probing(a[..], objs, hash) && index in Contents(a[..]) && objs[index] == obj
    modifies a
    ensures Probing(a[..], objs, hash)
    ensures Contents(a[..]) == old(Contents(a[..])) - {index}
  {
    var hindex := Find(a, objs, hash, obj, index);
    CloseHole(a, objs, hash, hindex);
  }

  /** The first loop of ipc_hash_local_delete. */
  method Find(a: array<nat>, objs: seq<Object>, hash: Object -> nat, obj: Object, index: nat) returns (hindex: nat)
    requires Probing(a[..], objs, hash) && index in Contents(a[..]) && objs[index] == obj
    ensures hindex < a.Length && a[hindex] == index
  {
    var size := a.Length;
    var home := Home(hash, obj, size);
    hindex := home;
    ghost var k :| 0 <= k < size && a[k] == index;
    while a[hindex] != index
      invariant hindex < size && Dist(home, hindex, size) <= Dist(home, k, size)
      decreases Dist(home, k, size) - Dist(home, hindex, size)
    {
      hindex := Next(hindex, size);
    }
  }

  /** The loops that follow: each round moves one displaced entry up into the hole. */
  method CloseHole(a: array<nat>, objs: seq<Object>, hash: Object -> nat, hole: nat)
    requires Probing(a[..], objs, hash) && hole < a.Length && a[hole] != 0
    modifies a
    ensures Probing(a[..], objs, hash)
    ensures Contents(a[..]) == old(Contents(a[..]) - {a[hole]})
  {
    var size := a.Length;
    var hindex: nat, dindex: nat, index: nat := hole, hole, a[hole];
    ghost var s := a[..];
    ghost var z := Room(s);
    ghost var rest := Contents(s) - {s[hole]};
    HoleStarts(s, objs, hash, z, hole);
    while index != 0
      invariant hindex < size && dindex < size && a[..] == s && |s| == size && z < size
      invariant index != 0 ==> hindex == dindex && Holed(s, objs, hash, z, hindex, dindex) && Contents(s[hindex := 0]) == rest
      invariant index == 0 ==> Probing(s, objs, hash) && Contents(s) == rest
      decreases if index == 0 then 0 else size - Dist(z, dindex, size)
    {
      dindex, index := NextDisplaced(a, objs, hash, hindex, dindex, z, s);
      a[hindex] := index;
      s := s[hindex := index];
      hindex := dindex;
    }
  }

  /** The inner loop: the next slot of the clump whose entry needs the hole, or the end of the clump. */
  method NextDisplaced(a: array<nat>, objs: seq<Object>, hash: Object -> nat, hindex: nat, start: nat, ghost z: nat, ghost s: seq<nat>)
    returns (dindex: nat, index: nat)
    requires a[..] == s && Holed(s, objs, hash, z, hindex, start)
    ensures dindex < |s| && index == s[dindex]
    ensures index == 0 ==> Probing(s[hindex := 0], objs, hash)
    ensures index != 0 ==> Holed(s[hindex := index], objs, hash, z, dindex, dindex)
    ensures index != 0 ==> Contents(s[hindex := index][dindex := 0]) == Contents(s[hindex := 0])
    ensures index != 0 ==> Dist(z, start, |s|) < Dist(z, dindex, |s|)
  {
    var size := a.Length;
    ghost var d: nat := start;
    dindex := Next(start, size);
    index := a[dindex];
    while index != 0 && !Displaced(dindex, hindex, Home(hash, objs[index], size))
      invariant d < size && dindex == Next(d, size) && index == s[dindex]
      invariant Holed(s, objs, hash, z, hindex, d) && Dist(z, start, size) <= Dist(z, d, size)
      decreases size - Dist(z, d, size)
    {
      HoleSkips(s, objs, hash, z, hindex, d);
      d := dindex;
      dindex := Next(dindex, size);
      index := a[dindex];
    }
    if index == 0 {
      HoleEnds(s, objs, hash, z, hindex, d);
    } else {
      HoleMoves(s, objs, hash, z, hindex, d);
    }
  }
}
