/** The global reverse hash table of ipc/ipc_hash.c: chained buckets of splay-tree entries, with move-to-front. */
module GlobalHash {
  import opened MachPort

  /** A hashed tree entry: the space and object it is found by, and its name. */
  datatype Member = Member(space: nat, obj: Object, name: Name)

  predicate Matches(m: Member, space: nat, obj: Object) {
    m.obj == obj && m.space == space
  }

  /** Member k taken to the front. */
  function ToFront(s: seq<Member>, k: nat): seq<Member>
    requires k < |s|
  {
    [s[k]] + s[..k] + s[k + 1..]
  }

  lemma ToFrontKeeps(s: seq<Member>, k: nat)
    requires k < |s|
    ensures multiset(ToFront(s, k)) == multiset(s)
  {
    assert s == s[..k] + [s[k]] + s[k + 1..];
  }

  ghost predicate Once(s: seq<Member>) {
    forall j, k :: 0 <= j < k < |s| ==> s[j] != s[k]
  }

  lemma OnceByCount(s: seq<Member>, t: seq<Member>)
    requires Once(s) && multiset(s) == multiset(t)
    ensures Once(t)
  {
    forall j, k | 0 <= j < k < |t|
      ensures t[j] != t[k]
    {
      if t[j] == t[k] {
        assert t == t[..j] + [t[j]] + t[j + 1..k] + [t[k]] + t[k + 1..];
        assert multiset(t)[t[j]] >= 2;
        OnceCount(s, t[j]);
      }
    }
  }

  lemma {:induction false} OnceCount(s: seq<Member>, m: Member)
    requires Once(s)
    ensures multiset(s)[m] <= 1
  {
    if s != [] {
      assert s == [s[0]] + s[1..];
      OnceCount(s[1..], m);
      assert s[0] !in s[1..];
    }
  }

  class GlobalTable {
    const buckets: array<seq<Member>>
    const hash: (nat, Object) -> nat

    ghost predicate Valid()
      reads buckets
    {
      && buckets.Length > 0
      && forall b :: 0 <= b < buckets.Length ==> Once(buckets[b]) && forall m :: m in buckets[b] ==> Home(m.space, m.obj) == b
    }

    function Home(space: nat, obj: Object): (b: nat)
      requires buckets.Length > 0
      ensures b < buckets.Length
    {
      hash(space, obj) % buckets.Length
    }

    ghost predicate Has(m: Member)
      reads buckets
    {
      buckets.Length > 0 && m in buckets[Home(m.space, m.obj)]
    }

    constructor (size: nat, hash: (nat, Object) -> nat)
      requires size > 0
      ensures Valid() && fresh(buckets) && forall m :: !Has(m)
    {
      buckets := new seq<Member>[size](i => []);
      this.hash := hash;
    }

    /** ipc_hash_global_lookup: finds an entry of the space for the object, and moves it to the front of its bucket. */
    method Lookup(space: nat, obj: Object) returns (found: bool, name: Name)
      requires Valid()
      modifies buckets
      ensures Valid() && forall m :: Has(m) == old(Has(m))
      ensures found ==> Has(Member(space, obj, name))
      ensures !found ==> forall m :: Has(m) ==> !Matches(m, space, obj)
    {
      var b := Home(space, obj);
      var s := buckets[b];
      var k := 0;
      while k < |s| && !Matches(s[k], space, obj)
        invariant k <= |s| && forall j :: 0 <= j < k ==> !Matches(s[j], space, obj)
      {
        k := k + 1;
      }
      found, name := k < |s|, NULL;
      if found {
        name := s[k].name;
        ToFrontKeeps(s, k);
        OnceByCount(s, ToFront(s, k));
        assert forall m :: m in ToFront(s, k) <==> m in multiset(ToFront(s, k));
        assert forall m :: m in s <==> m in multiset(s);
        buckets[b] := ToFront(s, k);
      }
    }

    /** ipc_hash_global_insert: at the front of its bucket. */
    method Insert(m: Member)
      requires Valid() && !Has(m)
      modifies buckets
      ensures Valid() && forall x :: Has(x) <==> old(Has(x)) || x == m
    {
      var b := Home(m.space, m.obj);
      buckets[b] := [m] + buckets[b];
    }

    /** ipc_hash_global_delete */
    method Delete(m: Member)
      requires Valid() && Has(m)
      modifies buckets
      ensures Valid() && forall x :: Has(x) <==> old(Has(x)) && x != m
    {
      var b := Home(m.space, m.obj);
      var s := buckets[b];
      var k := 0;
      while s[k] != m
        invariant k < |s| && m in s[k..]
        decreases |s| - k
      {
        k := k + 1;
      }
      assert forall x :: x in s[..k] + s[k + 1..] <==> x in s && x != m;
      buckets[b] := s[..k] + s[k + 1..];
    }
  }
}
