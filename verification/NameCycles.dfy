/** Generations: how soon a slot of the table issues a name again. */
module NameCycles {
  import opened MachPort
  import opened SpaceView

  /** A space with a free slot: its number, and its generation. */
  ghost predicate Free(v: View) {
    v.free != [] && 0 < v.free[0] < |v.slots| <= INDICES && v.slots[v.free[0]].gen < GENERATIONS
  }

  ghost function FreeGen(v: View): nat
    requires Free(v)
  {
    v.slots[v.free[0]].gen
  }

  lemma HasFree(v: Consistent)
    requires v.free != []
    ensures Free(v)
  {
    SpaceView.Look(v);
  }

  /** The first free slot is issued and given back. */
  ghost function Turn(v: View): View
    requires Free(v)
  {
    FreedSlot(Got(v), v.free[0])
  }

  /** It is the first again, of the next generation. */
  lemma TurnExact(v: Consistent)
    requires Free(v)
    ensures Sound(Turn(v)) && SameRights(v, Turn(v)) && Turn(v).free == v.free
    ensures Free(Turn(v)) && FreeGen(Turn(v)) == (FreeGen(v) + 1) % GENERATIONS
  {
    SpaceView.Look(v);
    FirstOfFree(v);
    GotInv(v);
    assert v.free[0] in v.free;
    UnusedApart(v, v.free[0]);
    FreedSlotInv(Got(v), v.free[0]);
    HasFree(Turn(v));
  }

  ghost function Turns(v: Consistent, n: nat): (w: Consistent)
    requires Free(v)
    ensures Free(w) && w.free == v.free
    decreases n
  {
    if n == 0 then v else
      TurnExact(v);
      Turns(Turn(v), n - 1)
  }

  lemma {:induction false} TurnsGen(v: Consistent, n: nat)
    requires Free(v)
    ensures FreeGen(Turns(v, n)) == (FreeGen(v) + n) % GENERATIONS
    decreases n
  {
    if n > 0 {
      TurnExact(v);
      TurnsGen(Turn(v), n - 1);
      Wraps(FreeGen(v) + 1, n - 1);
    }
  }

  lemma Wraps(a: nat, b: nat)
    ensures (a % GENERATIONS + b) % GENERATIONS == (a + b) % GENERATIONS
  {
    assert a == a / GENERATIONS * GENERATIONS + a % GENERATIONS;
  }

  /** A slot issues the same name twice only after all other generations in between: exactly every 256 turns. */
  lemma IssuedAgain(v: Consistent, j: nat, k: nat)
    requires Free(v) && j <= k
    ensures Issued(Turns(v, j)) == Issued(Turns(v, k)) <==> (k - j) % GENERATIONS == 0
  {
    TurnsGen(v, j);
    TurnsGen(v, k);
    var g := FreeGen(v);
    Wraps(g + j, 1);
    Wraps(g + k, 1);
    assert Gen(Issued(Turns(v, j))) == (g + j + 1) % GENERATIONS && Gen(Issued(Turns(v, k))) == (g + k + 1) % GENERATIONS;
    Apart(g + j + 1, k - j);
  }

  lemma Apart(a: nat, b: nat)
    ensures a % GENERATIONS == (a + b) % GENERATIONS <==> b % GENERATIONS == 0
  {
  }
}
