/** The sizes a table may have: ipc/ipc_table.c. */
module TableSizes {
  import opened MachPort

  /** What ipc/ipc_table.h asks of ipc_table_entries: increasing, the last two equal, none too large for an index. */
  ghost predicate Filled(sizes: seq<nat>) {
    && |sizes| >= 2 && sizes[|sizes| - 1] == sizes[|sizes| - 2]
    && (forall k :: 0 <= k < |sizes| ==> 0 < sizes[k] < INDICES)
    && (forall j, k :: 0 <= j < k < |sizes| - 1 ==> sizes[j] < sizes[k])
  }

  lemma NextSize(sizes: seq<nat>, level: nat)
    requires Filled(sizes) && 0 < level < |sizes|
    ensures 0 < sizes[level - 1] <= sizes[level] < INDICES
    ensures sizes[level - 1] < sizes[level] <==> level < |sizes| - 1
  {
  }

  /** The first n sizes are increasing, at least min, and bounded by what the increments allow. */
  ghost predicate Rising(s: seq<nat>, n: nat, min: nat, elemsize: nat, page: nat)
    requires n <= |s| && elemsize > 0
  {
    && (forall k :: 0 <= k < n ==> min <= s[k] <= Limit(k, min, elemsize, page) / elemsize)
    && (forall j, k :: 0 <= j < k < n ==> s[j] < s[k])
  }

  ghost function Limit(k: nat, min: nat, elemsize: nat, page: nat): nat {
    if k == 0 then 2 * page + min * elemsize + 8 * page else Limit(k - 1, min, elemsize, page) + 8 * page
  }

  lemma {:induction false} LimitClosed(k: nat, min: nat, elemsize: nat, page: nat)
    ensures Limit(k, min, elemsize, page) == 2 * page + min * elemsize + 8 * page * (k + 1)
  {
    if k > 0 {
      LimitClosed(k - 1, min, elemsize, page);
    }
  }

  /** Every size so far is below size / elemsize: what keeps the sequence rising. */
  ghost predicate Below(s: seq<nat>, n: nat, size: nat, elemsize: nat)
    requires n <= |s| && elemsize > 0
  {
    forall k :: 0 <= k < n ==> s[k] < size / elemsize
  }

  lemma Doubled(size: nat, elemsize: nat)
    requires 0 < elemsize <= size
    ensures size / elemsize < 2 * size / elemsize
  {
  }

  lemma Raised(size: nat, incr: nat, elemsize: nat)
    requires 0 < elemsize <= incr
    ensures size / elemsize < (size + incr) / elemsize
  {
  }

  lemma AtLeast(size: nat, min: nat, elemsize: nat)
    requires 0 < elemsize && size >= min * elemsize
    ensures size / elemsize >= min
  {
    var q := size / elemsize;
    assert size < (q + 1) * elemsize;
    if q + 1 <= min {
      Times(q + 1, min, elemsize);
    }
  }

  lemma Times(a: nat, b: nat, c: nat)
    requires a <= b
    ensures a * c <= b * c
  {
  }

  lemma DivideBoth(a: nat, b: nat, c: nat)
    requires a <= b && 0 < c
    ensures a / c <= b / c
  {
    var q := a / c;
    assert q * c <= a <= b;
    AtLeast(b, q, c);
  }

  // ------------------------------------------------------------ the sizes in closed form

  ghost function Power(e: nat): (p: nat)
    ensures p > 0
  {
    if e == 0 then 1 else 2 * Power(e - 1)
  }

  /** How many powers of two are below the page size, counting from the power e. */
  ghost function Below2(e: nat, page: nat): (n: nat)
    ensures Power(e + n) >= page && (n > 0 ==> Power(e + n - 1) < page)
    decreases page - Power(e)
  {
    if Power(e) >= page then 0 else 1 + Below2(e + 1, page)
  }

  /** The increment of the q-th period of fifteen, in pages. */
  ghost function Pages(q: nat): nat {
    if q == 0 then 1 else if q == 1 then 2 else if q == 2 then 4 else 8
  }

  /** By how many pages q whole periods raise the size. */
  ghost function PagesBefore(q: nat): nat {
    15 * if q == 0 then 0 else if q == 1 then 1 else if q == 2 then 3 else 7 + 8 * (q - 3)
  }

  /** The i-th size in bytes that is tried, and by how much the next one is larger. */
  ghost function Bytes(i: nat, page: nat): nat
    decreases i, 0
  {
    if i == 0 then 1 else Bytes(i - 1, page) + Raise(i - 1, page)
  }

  ghost function Raise(i: nat, page: nat): nat
    decreases i, 1
  {
    if i < Below2(0, page) then Bytes(i, page) else Increment(i - Below2(0, page), page)
  }

  /** Fifteen times a page, fifteen times two, fifteen times four, and eight from then on. */
  ghost function Increment(k: nat, page: nat): nat {
    if k < 15 then page else if k < 30 then 2 * page else if k < 45 then 4 * page else 8 * page
  }

  lemma {:induction false} BytesPower(i: nat, page: nat)
    requires i <= Below2(0, page)
    ensures Bytes(i, page) == Power(i)
  {
    if i > 0 {
      BytesPower(i - 1, page);
    }
  }

  /** The sizes in closed form: powers of two up to the first that is a page or more, then t steps of the period q. */
  lemma BytesClosed(q: nat, t: nat, page: nat)
    requires t <= 15
    ensures var n := Below2(0, page);
      (forall i :: 0 <= i <= n ==> Bytes(i, page) == Power(i)) && Bytes(n + 15 * q + t, page) == Power(n) + (PagesBefore(q) + t * Pages(q)) * page
  {
    forall i | 0 <= i <= Below2(0, page) {
      BytesPower(i, page);
    }
    PeriodStarts(q, page);
    PeriodSteps(q, t, page);
    Distribute(PagesBefore(q), t * Pages(q), page);
    Associate(t, Pages(q), page);
  }

  lemma {:induction false} PeriodSteps(q: nat, t: nat, page: nat)
    requires t <= 15
    ensures var i := Below2(0, page) + 15 * q; Bytes(i + t, page) == Bytes(i, page) + t * (Pages(q) * page)
    decreases t
  {
    if t > 0 {
      PeriodSteps(q, t - 1, page);
      RaiseAt(q, t - 1, page);
      Distribute(t - 1, 1, Pages(q) * page);
    }
  }

  lemma {:induction false} PeriodStarts(q: nat, page: nat)
    ensures Bytes(Below2(0, page) + 15 * q, page) == Power(Below2(0, page)) + PagesBefore(q) * page
    decreases q
  {
    if q == 0 {
      BytesPower(Below2(0, page), page);
    } else {
      PeriodStarts(q - 1, page);
      PeriodSteps(q - 1, 15, page);
      Associate(15, Pages(q - 1), page);
      Distribute(PagesBefore(q - 1), 15 * Pages(q - 1), page);
    }
  }

  lemma Associate(a: nat, b: nat, c: nat)
    ensures a * b * c == a * (b * c)
  {
  }

  lemma Distribute(a: nat, b: nat, c: nat)
    ensures (a + b) * c == a * c + b * c
  {
  }

  lemma RaiseAt(q: nat, t: nat, page: nat)
    requires t < 15
    ensures Raise(Below2(0, page) + 15 * q + t, page) == Increment(15 * q, page) == Pages(q) * page
  {
  }

  lemma NextBytes(i: nat, q: nat, t: nat, page: nat)
    requires t < 15 && i == Below2(0, page) + 15 * q + t
    ensures Bytes(i + 1, page) == Bytes(i, page) + Increment(15 * q, page)
  {
    RaiseAt(q, t, page);
  }

  /** The fifteen sizes after the i-th each add incr. */
  ghost predicate Steady(i: nat, incr: nat, page: nat) {
    forall t: nat {:trigger StepOf(i, t)} :: t < 15 ==> Bytes(StepOf(i, t) + 1, page) == Bytes(StepOf(i, t), page) + incr
  }

  ghost function StepOf(i: nat, t: nat): nat {
    i + t
  }

  lemma SteadyPeriod(q: nat, page: nat)
    ensures Steady(Below2(0, page) + 15 * q, Increment(15 * q, page), page)
  {
    var i := Below2(0, page) + 15 * q;
    forall t: nat {:trigger StepOf(i, t)} | t < 15
      ensures Bytes(StepOf(i, t) + 1, page) == Bytes(StepOf(i, t), page) + Increment(15 * q, page)
    {
      NextBytes(i + t, q, t, page);
    }
  }

  lemma SteadyAt(i: nat, t: nat, incr: nat, page: nat)
    requires Steady(i, incr, page) && t < 15
    ensures Bytes(i + t + 1, page) == Bytes(i + t, page) + incr
  {
    assert StepOf(i, t) == i + t;
  }

  lemma NextPower(i: nat, page: nat)
    requires i < Below2(0, page)
    ensures Bytes(i + 1, page) == Bytes(i, page) + Bytes(i, page)
  {
  }

  lemma {:induction false} PowerGrows(i: nat, j: nat)
    requires i <= j
    ensures Power(i) <= Power(j)
    decreases j
  {
    if i < j {
      PowerGrows(i, j - 1);
    }
  }

  /** The powers of two tried are those below the page size. */
  lemma PowerPage(i: nat, page: nat)
    requires i <= Below2(0, page)
    ensures Bytes(i, page) < page <==> i < Below2(0, page)
  {
    BytesPower(i, page);
    if i < Below2(0, page) {
      PowerGrows(i, Below2(0, page) - 1);
    }
  }

  lemma {:induction false} BytesGrow(i: nat, j: nat, page: nat)
    requires i <= j
    ensures Bytes(i, page) <= Bytes(j, page)
    decreases j
  {
    if i < j {
      BytesGrow(i, j - 1, page);
    }
  }

  /** The first index elements are the sizes from the first large enough one on. */
  ghost predicate Lists(s: seq<nat>, index: nat, first: nat, minsize: nat, elemsize: nat, page: nat)
    requires elemsize > 0
  {
    && index <= |s| && (forall k :: 0 <= k < index ==> s[k] == Bytes(first + k, page) / elemsize)
    && (forall j :: 0 <= j < first ==> Bytes(j, page) < minsize) && (index > 0 ==> Bytes(first, page) >= minsize)
  }

  /** One more size is large enough. */
  lemma StoredLists(s: seq<nat>, s': seq<nat>, index: nat, first: nat, minsize: nat, elemsize: nat, page: nat)
    requires elemsize > 0 && Lists(s, index, first, minsize, elemsize, page) && |s'| == |s| && index < |s|
    requires Bytes(first + index, page) >= minsize
    requires (forall k :: 0 <= k < index ==> s'[k] == s[k]) && s'[index] == Bytes(first + index, page) / elemsize
    ensures Lists(s', index + 1, first, minsize, elemsize, page)
  {
  }

  /** Or none is so far, nor is this one. */
  lemma SkippedLists(s: seq<nat>, s': seq<nat>, index: nat, first: nat, minsize: nat, elemsize: nat, page: nat)
    requires elemsize > 0 && Lists(s, index, first, minsize, elemsize, page) && |s'| == |s|
    requires Bytes(first + index, page) < minsize
    ensures index == 0 && Lists(s', 0, first + 1, minsize, elemsize, page)
  {
    BytesGrow(first, first + index, page);
  }

  lemma TriedLists(s: seq<nat>, s': seq<nat>, index: nat, index': nat, i: nat, minsize: nat, elemsize: nat, page: nat)
    requires elemsize > 0 && index <= i && Lists(s, index, i - index, minsize, elemsize, page) && |s'| == |s|
    requires index' == (if Bytes(i, page) >= minsize then index + 1 else index) && index' <= |s|
    requires (forall k :: 0 <= k < index ==> s'[k] == s[k]) && (index' > index ==> s'[index] == Bytes(i, page) / elemsize)
    ensures index' <= i + 1 && Lists(s', index', i + 1 - index', minsize, elemsize, page)
  {
    if index' > index {
      StoredLists(s, s', index, i - index, minsize, elemsize, page);
    } else {
      SkippedLists(s, s', index, i - index, minsize, elemsize, page);
    }
  }

  /** What the table holds: the sizes from the first large enough one on. */
  ghost predicate Sizes(s: seq<nat>, num: nat, min: nat, elemsize: nat, page: nat)
    requires elemsize > 0
  {
    exists first: nat :: Lists(s, num, first, min * elemsize, elemsize, page)
  }

  /** Stores size as element index, if it is large enough. */
  method Put(its: array<nat>, index: nat, size: nat, ghost min: nat, minsize: nat, elemsize: nat, ghost page: nat) returns (index': nat)
    requires index < its.Length && elemsize > 0 && minsize == min * elemsize && min > 0
    requires Rising(its[..], index, min, elemsize, page) && Below(its[..], index, size, elemsize) && size <= Limit(index, min, elemsize, page)
    modifies its
    ensures index' == if size >= minsize then index + 1 else index
    ensures Rising(its[..], index', min, elemsize, page) && forall k :: 0 <= k < index' ==> its[k] <= size / elemsize
    ensures forall k :: 0 <= k < its.Length && (k < index || index' <= k) ==> its[k] == old(its[k])
    ensures index' > index ==> its[index] == size / elemsize
  {
    index' := index;
    if size >= minsize {
      AtLeast(size, min, elemsize);
      DivideBoth(size, Limit(index, min, elemsize, page), elemsize);
      its[index] := size / elemsize;
      index' := index + 1;
    }
  }

  /** What the filling keeps: index elements are in place, size is the next one. */
  ghost predicate Filling(s: seq<nat>, index: nat, size: nat, min: nat, elemsize: nat, page: nat)
    requires elemsize > 0
  {
    && index <= |s| && Rising(s, index, min, elemsize, page) && Below(s, index, size, elemsize)
    && size <= Limit(index, min, elemsize, page) && min * elemsize <= Limit(index, min, elemsize, page) - 8 * page
  }

  /** One step: size is stored if large enough, and raised. */
  method Step(its: array<nat>, index: nat, size: nat, incr: nat, ghost min: nat, minsize: nat, elemsize: nat, ghost page: nat) returns (index': nat)
    requires index < its.Length && 0 < elemsize && min > 0 && minsize == min * elemsize && Filling(its[..], index, size, min, elemsize, page)
    requires incr <= 8 * page && (elemsize <= incr || (incr == size && (index > 0 || size >= minsize ==> elemsize <= size)))
    modifies its
    ensures index' == (if size >= minsize then index + 1 else index) && Filling(its[..], index', size + incr, min, elemsize, page)
    ensures forall k :: 0 <= k < its.Length && (k < index || index' <= k) ==> its[k] == old(its[k])
    ensures index' > index ==> its[index] == size / elemsize
  {
    index' := Put(its, index, size, min, minsize, elemsize, page);
    if index' > 0 {
      if elemsize <= incr {
        Raised(size, incr, elemsize);
      } else {
        Doubled(size, elemsize);
      }
    }
  }

  /** Index of the first i sizes are in place, and size is the i-th. */
  ghost predicate Underway(s: seq<nat>, index: nat, i: nat, size: nat, min: nat, elemsize: nat, page: nat)
    requires elemsize > 0
  {
    Filling(s, index, size, min, elemsize, page) && size == Bytes(i, page) && index <= i && Lists(s, index, i - index, min * elemsize, elemsize, page)
  }

  /** Always true: an invariant stated to hold wherever this is mentioned is passed around whole elsewhere. */
  ghost predicate InsideSizes(s: seq<nat>, u: nat) {
    true
  }

  /** Underway, passed around whole. */
  ghost predicate Trying(s: seq<nat>, index: nat, i: nat, size: nat, min: nat, elemsize: nat, page: nat)
    requires elemsize > 0
  {
    forall u: nat {:trigger InsideSizes(s, u)} :: InsideSizes(s, u) ==> Underway(s, index, i, size, min, elemsize, page)
  }

  lemma LookSizes(s: seq<nat>, index: nat, i: nat, size: nat, min: nat, elemsize: nat, page: nat)
    requires elemsize > 0 && Trying(s, index, i, size, min, elemsize, page)
    ensures Underway(s, index, i, size, min, elemsize, page)
  {
    assert InsideSizes(s, 0);
  }

  /** One step of both, to the next size. */
  method Try(its: array<nat>, index: nat, size: nat, incr: nat, ghost min: nat, minsize: nat, elemsize: nat, ghost page: nat, ghost i: nat) returns (index': nat)
    requires index < its.Length && 0 < elemsize && min > 0 && minsize == min * elemsize && Trying(its[..], index, i, size, min, elemsize, page)
    requires incr <= 8 * page && (elemsize <= incr || (incr == size && (index > 0 || size >= minsize ==> elemsize <= size)))
    requires Bytes(i + 1, page) == Bytes(i, page) + incr
    modifies its
    ensures index' == (if size >= minsize then index + 1 else index) && Trying(its[..], index', i + 1, size + incr, min, elemsize, page)
    ensures forall k :: index' <= k < its.Length ==> its[k] == old(its[k])
  {
    LookSizes(its[..], index, i, size, min, elemsize, page);
    index' := Step(its, index, size, incr, min, minsize, elemsize, page);
    TriedLists(old(its[..]), its[..], index, index', i, minsize, elemsize, page);
    assert Underway(its[..], index', i + 1, size + incr, min, elemsize, page);
  }

  /** The powers of two below the page size. */
  method Powers(its: array<nat>, num: nat, ghost min: nat, minsize: nat, elemsize: nat, page: nat) returns (index: nat, size: nat, ghost i: nat)
    requires num <= its.Length && 0 < elemsize <= page && min > 0 && minsize == min * elemsize
    modifies its
    ensures index <= num && Trying(its[..], index, i, size, min, elemsize, page) && (index < num ==> i == Below2(0, page))
    ensures forall k :: num <= k < its.Length ==> its[k] == old(its[k])
  {
    Times(1, min, elemsize);
    index, size, i := 0, 1, 0;
    assert Underway(its[..], 0, 0, 1, min, elemsize, page);
    while index < num && size < page
      invariant index <= num && 0 < size < 2 * page && (index > 0 ==> size >= elemsize)
      invariant i <= Below2(0, page) && Trying(its[..], index, i, size, min, elemsize, page)
      invariant forall k :: num <= k < its.Length ==> its[k] == old(its[k])
      decreases page - size
    {
      LookSizes(its[..], index, i, size, min, elemsize, page);
      PowerPage(i, page);
      NextPower(i, page);
      index := Try(its, index, size, size, min, minsize, elemsize, page, i);
      size, i := size + size, i + 1;
    }
    LookSizes(its[..], index, i, size, min, elemsize, page);
    PowerPage(i, page);
  }

  /** ipc_table_fill: powers of two below the page size, then steps of one page, two pages, and so on up to eight. */
  method Fill(its: array<nat>, num: nat, min: nat, elemsize: nat, page: nat)
    requires num <= its.Length && min > 0 && 0 < elemsize <= page
    modifies its
    ensures Rising(its[..], num, min, elemsize, page) && Sizes(its[..], num, min, elemsize, page)
    ensures forall k :: num <= k < its.Length ==> its[k] == old(its[k])
  {
    var minsize := min * elemsize;
    var index, size;
    ghost var i: nat, q: nat := 0, 0;
    index, size, i := Powers(its, num, min, minsize, elemsize, page);
    var incr := page;
    while index < num
      invariant index <= num && incr == Increment(15 * q, page)
      invariant Trying(its[..], index, i, size, min, elemsize, page) && (index < num ==> i == Below2(0, page) + 15 * q)
      invariant forall k :: num <= k < its.Length ==> its[k] == old(its[k])
      decreases num - index, minsize - size
    {
      SteadyPeriod(q, page);
      index, size, i := Period(its, num, index, size, incr, min, minsize, elemsize, page, i);
      if incr < 8 * page {
        incr := 2 * incr;
      }
      q := q + 1;
    }
    LookSizes(its[..], num, i, size, min, elemsize, page);
  }

  method TrySteady(its: array<nat>, index: nat, size: nat, incr: nat, ghost min: nat, minsize: nat, elemsize: nat, ghost page: nat, ghost i0: nat, ghost t: nat)
    returns (index': nat)
    requires index < its.Length && 0 < elemsize <= page <= incr <= 8 * page && min > 0 && minsize == min * elemsize
    requires Trying(its[..], index, i0 + t, size, min, elemsize, page) && Steady(i0, incr, page) && t < 15
    modifies its
    ensures index' == (if size >= minsize then index + 1 else index) && Trying(its[..], index', i0 + t + 1, size + incr, min, elemsize, page)
    ensures forall k :: index' <= k < its.Length ==> its[k] == old(its[k])
  {
    SteadyAt(i0, t, incr, page);
    index' := Try(its, index, size, incr, min, minsize, elemsize, page, i0 + t);
  }

  /** Fifteen steps of the same increment. */
  method Period(its: array<nat>, num: nat, index0: nat, size0: nat, incr: nat, ghost min: nat, minsize: nat, elemsize: nat, ghost page: nat, ghost i0: nat)
    returns (index: nat, size: nat, ghost i: nat)
    requires index0 < num <= its.Length && 0 < elemsize <= page <= incr <= 8 * page && min > 0 && minsize == min * elemsize
    requires Trying(its[..], index0, i0, size0, min, elemsize, page) && Steady(i0, incr, page)
    modifies its
    ensures index0 <= index <= num && Trying(its[..], index, i, size, min, elemsize, page) && (index < num ==> i == i0 + 15)
    ensures index > index0 || (size0 < size && size0 < minsize)
    ensures forall k :: num <= k < its.Length ==> its[k] == old(its[k])
  {
    index, size, i := index0, size0, i0;
    var period := 0;
    while period < 15 && index < num
      invariant period <= 15 && index0 <= index <= num && size0 <= size
      invariant period > 0 ==> index > index0 || (size0 < size && size0 < minsize)
      invariant i == i0 + period && Trying(its[..], index, i, size, min, elemsize, page)
      invariant forall k :: num <= k < its.Length ==> its[k] == old(its[k])
      decreases 15 - period
    {
      index := TrySteady(its, index, size, incr, min, minsize, elemsize, page, i0, period);
      period, size, i := period + 1, size + incr, i + 1;
    }
  }

  /** ipc_table_init: the last size for entries is repeated, the last for dead-name requests is zero. */
  method Init(its: array<nat>, dnrequests: array<nat>, page: nat)
    requires its.Length == 512 && dnrequests.Length == 64 && its != dnrequests && 16 <= page <= 0x1_0000
    modifies its, dnrequests
    ensures Filled(its[..]) && dnrequests[63] == 0
    ensures Sizes(its[..], 511, 4, 16, page) && Sizes(dnrequests[..], 63, 2, 8, page)
    ensures (forall k :: 0 <= k < 63 ==> 2 <= dnrequests[k]) && forall j, k :: 0 <= j < k < 63 ==> dnrequests[j] < dnrequests[k]
  {
    Fill(dnrequests, 63, 2, 8, page);
    ghost var i :| Lists(dnrequests[..], 63, i, 16, 8, page);
    dnrequests[63] := 0;
    assert Lists(dnrequests[..], 63, i, 16, 8, page);
    InitEntries(its, page);
  }

  method InitEntries(its: array<nat>, page: nat)
    requires its.Length == 512 && 16 <= page <= 0x1_0000
    modifies its
    ensures Filled(its[..]) && Sizes(its[..], 511, 4, 16, page)
  {
    Fill(its, 511, 4, 16, page);
    ghost var i :| Lists(its[..], 511, i, 64, 16, page);
    its[511] := its[510];
    assert Lists(its[..], 511, i, 64, 16, page);
    forall k | 0 <= k < 511
      ensures 0 < its[k] < INDICES
    {
      LimitSmall(k, page);
    }
  }

  lemma LimitSmall(k: nat, page: nat)
    requires k < 511 && page <= 0x1_0000
    ensures Limit(k, 4, 16, page) / 16 < INDICES
  {
    LimitClosed(k, 4, 16, page);
    Times(k + 1, 511, 8 * page);
    assert Limit(k, 4, 16, page) < 16 * INDICES;
  }
}
