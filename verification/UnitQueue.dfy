/** The pool of receive units (CUnitQueue) that all receive buffers of one multiplexer share. */
module UnitQueueModule {
  import opened Bytes
  import opened SndBufferModule

  /** flag 0: free, 1: occupied, 2: read out of order but not released yet. */
  class Unit {
    var flag: int
    var payload: Bytes
    var header: Header

    constructor ()
      ensures flag == 0
    {
      flag := 0;
      payload := [];
      header := Header(0, false, false, false);
    }
  }

  function Row(us: seq<Unit>): set<Unit> {
    set u | u in us
  }

  /** The units of all entries. */
  function Units(es: seq<seq<Unit>>): (us: set<Unit>)
    ensures forall k, l | 0 <= k < |es| && 0 <= l < |es[k]| :: es[k][l] in us
  {
    if es == [] then {} else Units(es[..|es| - 1]) + Row(es[|es| - 1])
  }

  lemma {:induction false} UnitsPlaced(es: seq<seq<Unit>>, u: Unit)
    requires u in Units(es)
    ensures exists k, l :: 0 <= k < |es| && 0 <= l < |es[k]| && es[k][l] == u
    decreases |es|
  {
    var n := |es| - 1;
    if u in Row(es[n]) {
      var l :| 0 <= l < |es[n]| && es[n][l] == u;
    } else {
      UnitsPlaced(es[..n], u);
      var k, l :| 0 <= k < n && 0 <= l < |es[k]| && es[..n][k][l] == u;
      assert es[k][l] == u;
    }
  }

  /** Every entry has n units and no unit sits in two places. */
  ghost predicate Grid(es: seq<seq<Unit>>, n: int) {
    && (forall k | 0 <= k < |es| :: |es[k]| == n)
    && (forall k, j, l | 0 <= k < |es| && 0 <= j < l < n :: es[k][j] != es[k][l])
    && (forall k | 0 <= k < |es| :: Row(es[k]) !! Units(es[..k]))
  }

  /** The units among us that are in use. */
  ghost function InUse(us: set<Unit>): set<Unit>
    reads us
  {
    set u | u in us && u.flag != 0
  }

  lemma InUseSize(us: set<Unit>)
    ensures |InUse(us)| <= |us|
  {
    SubsetSize(InUse(us), us);
  }

  lemma InUseAdd(us: set<Unit>, vs: set<Unit>)
    ensures InUse(us + vs) == InUse(us) + InUse(vs)
  {
  }

  lemma GridAdd(es: seq<seq<Unit>>, us: seq<Unit>, n: int)
    requires Grid(es, n) && |us| == n && Row(us) !! Units(es)
    requires forall j, l | 0 <= j < l < n :: us[j] != us[l]
    ensures Grid(es + [us], n) && Units(es + [us]) == Units(es) + Row(us)
  {
    hide Units;
    var fs := es + [us];
    assert fs[..|es|] == es;
    forall k | 0 <= k < |fs| ensures Row(fs[k]) !! Units(fs[..k]) {
      if k < |es| {
        assert fs[..k] == es[..k];
      }
    }
    UnitsSnoc(es, us);
  }

  lemma FirstEntry(us: seq<Unit>, n: int)
    requires |us| == n && forall j, l | 0 <= j < l < n :: us[j] != us[l]
    ensures Grid([us], n) && Units([us]) == Row(us)
  {
    hide Units;
    var es := [us];
    assert forall k | 0 <= k < |es| :: es[k] == us && es[..k] == [];
    NoUnits();
    UnitsSnoc([], us);
    assert [] + [us] == es;
  }

  lemma {:induction false} RowSize(us: seq<Unit>)
    requires forall j, l | 0 <= j < l < |us| :: us[j] != us[l]
    ensures |Row(us)| == |us|
    decreases |us|
  {
    if us != [] {
      var n := |us| - 1;
      RowSize(us[..n]);
      assert Row(us) == Row(us[..n]) + {us[n]};
    }
  }

  lemma SubsetSize(us: set<Unit>, vs: set<Unit>)
    requires us <= vs
    ensures |us| <= |vs|
  {
    assert vs == us + (vs - us);
  }

  lemma NoUnits()
    ensures Units([]) == {}
  {
  }

  lemma UnitsSnoc(es: seq<seq<Unit>>, us: seq<Unit>)
    ensures Units(es + [us]) == Units(es) + Row(us)
  {
    assert (es + [us])[..|es|] == es;
  }

  class UnitQueue {
    const unitSize: int
    // the entries in ring order; the entry and the unit the last search ended at
    var entries: seq<seq<Unit>>
    var currEntry: int
    var availUnit: int
    var size: int
    var count: int

    // the units of all entries
    ghost var pool: set<Unit>

    ghost predicate Shape()
      reads this
    {
      && unitSize > 0
      && |entries| > 0 && 0 <= currEntry < |entries| && 0 <= availUnit < unitSize
      && Grid(entries, unitSize) && pool == Units(entries) && size == |pool|
    }

    /** The counter is exact: it is the number of units in use, over all buffers that share the pool. */
    ghost predicate Valid()
      reads this, pool
    {
      Shape() && count == |InUse(pool)|
    }

    /** A free unit is handed to a buffer. */
    method Occupy(u: Unit)
      requires Valid() && u in pool && u.flag == 0
      modifies u`flag, this`count
      ensures Valid() && u.flag == 1 && InUse(pool) == old(InUse(pool)) + {u} && count == old(count) + 1
    {
      hide Grid, Units;
      ghost var was := InUse(pool);
      u.flag := 1;
      count := count + 1;
      assert InUse(pool) == was + {u};
    }

    /** A buffer is done with a unit. */
    method Release(u: Unit)
      requires Valid() && u in pool && u.flag != 0
      modifies u`flag, this`count
      ensures Valid() && u.flag == 0 && InUse(pool) == old(InUse(pool)) - {u}
    {
      hide Grid, Units;
      ghost var was := InUse(pool);
      u.flag := 0;
      count := count - 1;
      assert InUse(pool) == was - {u};
    }

    /** A unit in use was read early and stays in use. */
    method MarkRead(u: Unit)
      requires Valid() && u in pool && u.flag != 0
      modifies u`flag
      ensures Valid() && u.flag == 2 && InUse(pool) == old(InUse(pool))
    {
      hide Grid, Units;
      ghost var was := InUse(pool);
      u.flag := 2;
      assert InUse(pool) == was;
    }

    static method NewUnits(n: int) returns (us: seq<Unit>)
      requires n > 0
      ensures |us| == n && fresh(Row(us)) && InUse(Row(us)) == {}
      ensures forall j, l | 0 <= j < l < n :: us[j] != us[l]
    {
      us := [];
      while |us| < n
        invariant |us| <= n && fresh(us)
        invariant forall j | 0 <= j < |us| :: us[j].flag == 0
        invariant forall j, l | 0 <= j < l < |us| :: us[j] != us[l]
      {
        var u := new Unit();
        us := us + [u];
      }
    }

    constructor (n: int)
      requires n > 0
      ensures Valid() && InUse(pool) == {} && unitSize == n && fresh(pool)
      ensures |entries| == 1 && currEntry == 0 && availUnit == 0 && size == n && count == 0
    {
      hide InUse, Grid, Units;
      var us := NewUnits(n);
      FirstEntry(us, n);
      RowSize(us);
      unitSize := n;
      entries := [us];
      currEntry := 0;
      availUnit := 0;
      size := n;
      count := 0;
      pool := Row(us);
    }

    /** The units before position l of entry k. */
    ghost function Visited(k: int, l: int): set<Unit>
      requires 0 <= k <= |entries| && 0 <= l && (l > 0 ==> k < |entries| && l <= |entries[k]|)
      reads this
    {
      Units(entries[..k]) + if l > 0 then Row(entries[k][..l]) else {}
    }

    lemma VisitUnit(k: int, l: int)
      requires Grid(entries, unitSize) && 0 <= k < |entries| && 0 <= l < unitSize
      ensures
        var u := entries[k][l];
        && u !in Visited(k, l)
        && InUse(Visited(k, l + 1)) == InUse(Visited(k, l)) + if u.flag != 0 then {u} else {}
    {
      hide Units;
      var u := entries[k][l];
      assert u in Row(entries[k]);
      assert entries[k][..l + 1] == entries[k][..l] + [u];
      assert Visited(k, l + 1) == Visited(k, l) + {u};
    }

    lemma VisitEntry(k: int)
      requires Grid(entries, unitSize) && 0 <= k < |entries| && unitSize > 0
      ensures Visited(k, unitSize) == Visited(k + 1, 0)
    {
      hide Units;
      assert entries[k][..unitSize] == entries[k];
      assert entries[..k + 1] == entries[..k] + [entries[k]];
      UnitsSnoc(entries[..k], entries[k]);
    }

    /** Counts the units in use, whatever the counter says. */
    method Recount() returns (real_count: int)
      requires Shape()
      ensures real_count == |InUse(pool)|
    {
      hide Units, Visited, InUse;
      VisitNone();
      real_count := 0;
      for k := 0 to |entries|
        invariant real_count == |InUse(Visited(k, 0))|
      {
        for l := 0 to unitSize
          invariant real_count == |InUse(Visited(k, l))|
        {
          VisitUnit(k, l);
          NotInUse(Visited(k, l), entries[k][l]);
          if entries[k][l].flag != 0 {
            real_count := real_count + 1;
          }
        }
        VisitEntry(k);
      }
    }

    lemma NotInUse(us: set<Unit>, u: Unit)
      requires u !in us
      ensures u !in InUse(us)
    {
    }

    lemma VisitNone()
      requires pool == Units(entries)
      ensures InUse(Visited(0, 0)) == {} && Visited(|entries|, 0) == pool
    {
      assert entries[..|entries|] == entries;
    }

    /** Corrects the counter, then grows the pool by one entry when at least nine tenths of it are in use. */
    method Increase() returns (grown: bool)
      requires Shape()
      modifies this`entries, this`pool, this`size, this`count
      ensures Valid() && InUse(pool) == old(InUse(pool))
      ensures old(pool) <= pool && forall v | v in pool && v !in old(pool) :: fresh(v)
      ensures grown <==> 10 * |InUse(pool)| >= 9 * old(size)
      ensures size == old(size) + if grown then unitSize else 0
      ensures currEntry == old(currEntry) && availUnit == old(availUnit)
      ensures !grown ==> entries == old(entries)
      ensures grown ==> |entries| == |old(entries)| + 1 && |entries[|old(entries)|]| == unitSize > 0
                        && entries[|old(entries)|][0] in pool && entries[|old(entries)|][0] !in InUse(pool)
    {
      hide Units, Grid, InUse;
      count := Recount();
      if 10 * count < 9 * size {
        return false;
      }
      Grow();
      grown := true;
    }

    /** One more entry, of free units. */
    method Grow()
      requires Valid()
      modifies this`entries, this`pool, this`size
      ensures Valid() && InUse(pool) == old(InUse(pool)) && size == old(size) + unitSize
      ensures old(pool) <= pool && forall v | v in pool && v !in old(pool) :: fresh(v)
      ensures |entries| == |old(entries)| + 1 && |entries[|old(entries)|]| == unitSize > 0
      ensures entries[|old(entries)|][0] in pool && entries[|old(entries)|][0] !in InUse(pool)
    {
      hide Units, Grid, InUse;
      var us := NewUnits(unitSize);
      forall u | u in Units(entries) ensures u !in Row(us) {
        UnitsPlaced(entries, u);
      }
      GridAdd(entries, us, unitSize);
      InUseAdd(Units(entries), Row(us));
      RowSize(us);
      assert InUse(pool) + {} == InUse(pool);
      assert us[0] in Row(us);
      FreeOne(pool, Row(us), us[0]);
      entries := entries + [us];
      pool := pool + Row(us);
      size := size + unitSize;
    }

    lemma FreeOne(us: set<Unit>, vs: set<Unit>, u: Unit)
      requires u in vs && u !in us && InUse(vs) == {}
      ensures u !in InUse(us + vs)
    {
      assert u in InUse(vs) <==> u.flag != 0;
    }

    /** The next free unit the search meets, or null. */
    method GetNextAvailUnit() returns (u: Unit?)
      requires Valid()
      modifies this`entries, this`pool, this`size, this`currEntry, this`availUnit, this`count
      ensures Valid() && InUse(pool) == old(InUse(pool))
      ensures old(pool) <= pool && forall v | v in pool && v !in old(pool) :: fresh(v)
      ensures u != null ==> u in pool && u.flag == 0
      ensures u == null <==> old(10 * |InUse(pool)| <= 9 * |pool| && AllBusy())
      ensures old(10 * |InUse(pool)| <= 9 * |pool|) && u != null ==>
                entries == old(entries) && pool == old(pool) && size == old(size)
      ensures forall l | old(10 * |InUse(pool)| <= 9 * |pool| && NextFree(l)) ::
                u == old(entries[currEntry][l]) && currEntry == old(currEntry) && availUnit == l
    {
      hide Units, Grid, InUse, NextFree;
      ghost var busy := InUse(pool);
      InUseSize(pool);
      PoolSize();
      if count * 10 > size * 9 {
        var g := Increase();
        InUseSize(pool);
        NewFree(|old(entries)|);
      }
      u := null;
      if count < size {
        u := SearchOrGrow();
      }
    }

    /** Every unit the search looks at, from where the last one ended, is in use. It never looks at the last unit of an
        entry of several. */
    ghost predicate AllBusy()
      reads this, pool
    {
      AllBusyFrom(currEntry, availUnit)
    }

    ghost predicate AllBusyFrom(entrance: int, from: int)
      reads this`entries, this`pool, pool
    {
      forall k, l | 0 <= k < |entries| && 0 <= l < |entries[k]| && Looked(entrance, from, k, l) ::
        entries[k][l] in pool && entries[k][l].flag != 0
    }

    /** The search would stop at unit l of the entry the last one ended in: it is the first free one from there on, and
        not the last one. */
    ghost predicate NextFree(l: int)
      reads this, pool
    {
      NextFreeFrom(currEntry, availUnit, l)
    }

    ghost predicate NextFreeFrom(entrance: int, from: int, l: int)
      reads this`entries, this`pool, pool
    {
      && 0 <= entrance < |entries| && 0 <= from <= l < |entries[entrance]| && l < unitSize - 1
      && (forall j | from <= j <= l :: entries[entrance][j] in pool)
      && entries[entrance][l].flag == 0
      && (forall j | from <= j < l :: entries[entrance][j].flag != 0)
    }

    /** Unit l of entry k lies on the way of a search that starts at the given place. */
    ghost predicate Looked(entrance: int, from: int, k: int, l: int) {
      l == 0 || (l < unitSize - 1 && (k == entrance ==> from <= l))
    }

    lemma PoolSize()
      requires Shape()
      ensures |pool| >= 1
    {
      assert entries[0][0] in pool;
    }

    lemma NewFree(k: int)
      requires Shape() && 0 <= k < |entries| && entries[k][0] in pool && entries[k][0] !in InUse(pool)
      ensures !AllBusy()
    {
      assert Looked(currEntry, availUnit, k, 0);
    }

    method SearchOrGrow() returns (u: Unit?)
      requires Valid()
      modifies this`entries, this`pool, this`size, this`currEntry, this`availUnit, this`count
      ensures Valid() && InUse(pool) == old(InUse(pool))
      ensures old(pool) <= pool && forall v | v in pool && v !in old(pool) :: fresh(v)
      ensures u != null ==> u in pool && u.flag == 0
      ensures u == null <==> old(AllBusy())
      ensures u != null ==> entries == old(entries) && pool == old(pool) && size == old(size)
      ensures forall l | old(NextFree(l)) ::
                u == old(entries[currEntry][l]) && currEntry == old(currEntry) && availUnit == l
    {
      hide Units, Grid;
      ghost var busy := InUse(pool);
      u := Search();
      assert InUse(pool) == busy && pool == old(pool);
      if u == null {
        var g := Increase();
      }
    }

    /** The entry reached after s turns. */
    function Turned(entrance: int, s: int): int
      reads this`entries
    {
      if entrance + s < |entries| then entrance + s else entrance + s - |entries|
    }

    /** The first unit of entry k, and those from the given one up to the last but one, are in use. */
    ghost predicate Passed(k: int, from: int)
      reads this`entries, this`pool, pool
    {
      0 <= k < |entries| && forall l | 0 <= l < |entries[k]| && (l == 0 || from <= l < unitSize - 1) ::
        entries[k][l] in pool && entries[k][l].flag != 0
    }

    lemma EntrySize(k: int)
      requires Shape() && 0 <= k < |entries|
      ensures |entries[k]| == unitSize && forall l | 0 <= l < unitSize :: entries[k][l] in pool
    {
      hide Units;
    }

    lemma PassedAt(k: int, from: int, l: int)
      requires Passed(k, from) && 0 <= l < |entries[k]| && (l == 0 || from <= l < unitSize - 1)
      ensures entries[k][l] in pool && entries[k][l].flag != 0
    {
    }

    /** Scans each entry once, from the unit the last search ended at. */
    method Search() returns (u: Unit?)
      requires Valid()
      modifies this`currEntry, this`availUnit
      ensures Valid() && entries == old(entries)
      ensures u != null ==> u in pool && u.flag == 0
      ensures u == null <==> old(AllBusy())
      ensures forall l | NextFreeFrom(old(currEntry), old(availUnit), l) ::
                u == entries[old(currEntry)][l] && currEntry == old(currEntry) && availUnit == l
    {
      hide InUse, Units, Grid, Passed, AllBusyFrom, NextFreeFrom;
      var entrance := currEntry;
      ghost var from := availUnit;
      ghost var steps := 0;
      while true
        invariant Valid()
        invariant 0 <= steps < |entries|
        invariant currEntry == Turned(entrance, steps)
        invariant availUnit == if steps == 0 then from else 0
        invariant steps > 0 ==> forall l :: !NextFreeFrom(entrance, from, l)
        invariant forall s | 0 <= s < steps :: Passed(Turned(entrance, s), if s == 0 then from else 0)
        decreases |entries| - steps
      {
        u := ScanEntry();
        EntrySize(currEntry);
        if u != null {
          NotBusy(entrance, from, currEntry, availUnit);
          return;
        }
        currEntry := if currEntry + 1 == |entries| then 0 else currEntry + 1;
        availUnit := 0;
        steps := steps + 1;
        if currEntry == entrance {
          BusyAll(entrance, from);
          return null;
        }
      }
    }

    lemma NotBusy(entrance: int, from: int, k: int, l: int)
      requires 0 <= k < |entries| && 0 <= l < |entries[k]| && Looked(entrance, from, k, l) && entries[k][l].flag == 0
      ensures !AllBusyFrom(entrance, from)
    {
    }

    lemma BusyAll(entrance: int, from: int)
      requires 0 <= entrance < |entries|
      requires forall s | 0 <= s < |entries| :: Passed(Turned(entrance, s), if s == 0 then from else 0)
      ensures AllBusyFrom(entrance, from)
    {
      hide Passed;
      forall k, l | 0 <= k < |entries| && 0 <= l < |entries[k]| && Looked(entrance, from, k, l)
        ensures entries[k][l] in pool && entries[k][l].flag != 0
      {
        var s := if k >= entrance then k - entrance else k - entrance + |entries|;
        assert Turned(entrance, s) == k;
        PassedAt(k, if s == 0 then from else 0, l);
      }
    }

    /** The rest of the current entry up to its last unit, then its first unit. */
    method ScanEntry() returns (u: Unit?)
      requires Valid()
      modifies this`availUnit
      ensures Valid()
      ensures u != null ==> u in pool && u.flag == 0 && u == entries[currEntry][availUnit]
      ensures u != null ==> availUnit == 0 || old(availUnit) <= availUnit < unitSize - 1
      ensures u == null ==> Passed(currEntry, old(availUnit))
      ensures forall l | NextFreeFrom(currEntry, old(availUnit), l) :: u == entries[currEntry][l] && availUnit == l
    {
      hide InUse, Grid, Units;
      EntrySize(currEntry);
      while availUnit != unitSize - 1
        invariant Valid() && old(availUnit) <= availUnit
        invariant forall j | old(availUnit) <= j < availUnit :: entries[currEntry][j].flag != 0
        decreases unitSize - availUnit
      {
        if entries[currEntry][availUnit].flag == 0 {
          return entries[currEntry][availUnit];
        }
        availUnit := availUnit + 1;
      }
      if entries[currEntry][0].flag == 0 {
        availUnit := 0;
        return entries[currEntry][0];
      }
      u := null;
    }
  }

  lemma AllFree(us: set<Unit>)
    requires InUse(us) == {}
    ensures forall u | u in us :: u.flag == 0
  {
    forall u | u in us ensures u.flag == 0 {
      assert u in InUse(us) <==> u.flag != 0;
    }
  }

  lemma Distinct(es: seq<seq<Unit>>, n: int, k: int, j: int, l: int)
    requires Grid(es, n) && 0 <= k < |es| && 0 <= j < n && 0 <= l < n && j != l
    ensures es[k][j] != es[k][l]
  {
  }

  lemma PairSize(a: Unit, b: Unit)
    ensures |{a, b}| <= 2
  {
  }

  lemma FlagIs(us: set<Unit>, u: Unit)
    requires u in us
    ensures u.flag == 0 <==> u !in InUse(us)
  {
  }

  /** A pool of one entry, in which the first unit and the one the last search found are in use. */
  ghost predicate Walked(q: UnitQueue, us: seq<Unit>, i: int)
    reads q, q.pool
  {
    && q.Valid() && q.entries == [us] && |us| == q.unitSize == q.size
    && q.currEntry == 0 && 0 <= i < |us| && q.availUnit == i
    && us[0] in q.pool && us[i] in q.pool && InUse(q.pool) == {us[0], us[i]}
  }

  /** The next search finds the unit behind the last one, which is released. */
  method WalkOn(q: UnitQueue, us: seq<Unit>, i: int)
    requires Walked(q, us, i) && i + 2 < |us|
    modifies q, q.pool
    ensures Walked(q, us, i + 1) && q.pool == old(q.pool)
  {
    hide Units, InUse, Grid;
    q.EntrySize(0);
    PairSize(us[0], us[i]);
    FlagIs(q.pool, us[0]);
    FlagIs(q.pool, us[i]);
    FlagIs(q.pool, us[i + 1]);
    Distinct(q.entries, |us|, 0, 0, i + 1);
    Distinct(q.entries, |us|, 0, i, i + 1);
    assert q.NextFree(i + 1);
    var u := q.GetNextAvailUnit();
    q.Occupy(u);
    if i > 0 {
      Distinct(q.entries, |us|, 0, 0, i);
      q.Release(us[i]);
    }
    assert InUse(q.pool) == {us[0], us[i + 1]};
  }

  /** The first search of a fresh pool finds its first unit. */
  method FirstTaken(n: int) returns (q: UnitQueue, us: seq<Unit>)
    requires n >= 3
    ensures fresh(q) && fresh(q.pool) && |us| == n && Walked(q, us, 0)
  {
    hide Units, InUse, Grid;
    q := new UnitQueue(n);
    q.EntrySize(0);
    us := q.entries[0];
    FlagIs(q.pool, us[0]);
    assert q.NextFree(0);
    var u := q.GetNextAvailUnit();
    q.Occupy(u);
    assert InUse(q.pool) == {us[0], us[0]};
  }

  /** The first unit and the last but one are in use and the search stands there: it answers none. */
  method LastMissed(q: UnitQueue, us: seq<Unit>) returns (u: Unit?, busy: int, flag: int)
    requires |us| >= 3 && Walked(q, us, |us| - 2)
    modifies q
    ensures u == null && busy == 2 && flag == 0
  {
    hide Units, InUse, Grid;
    var n := |us|;
    q.EntrySize(0);
    FlagIs(q.pool, us[0]);
    FlagIs(q.pool, us[n - 2]);
    FlagIs(q.pool, us[n - 1]);
    Distinct(q.entries, n, 0, 0, n - 1);
    Distinct(q.entries, n, 0, n - 2, n - 1);
    Distinct(q.entries, n, 0, 0, n - 2);
    assert |{us[0], us[n - 2]}| == 2;
    busy, flag := q.count, us[n - 1].flag;
    u := q.GetNextAvailUnit();
  }

  /** A pool of at least three units, from whose start a connection took units one after the other up to the last but
      one, and released all but the first and the last of those: the search answers none, although the last unit of the
      pool is free. */
  method FreeUnitMissed(n: int) returns (u: Unit?, busy: int, flag: int)
    requires n >= 3
    ensures u == null && busy == 2 && flag == 0
  {
    hide Walked;
    var q, us := FirstTaken(n);
    for i := 0 to n - 2
      invariant fresh(q) && fresh(q.pool) && |us| == n && Walked(q, us, i)
    {
      WalkOn(q, us, i);
    }
    u, busy, flag := LastMissed(q, us);
  }
}
