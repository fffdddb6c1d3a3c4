/** The receiver's buffer (CRcvBuffer): a ring of units. start is the unbounded number of the unit at the read
    position, lastAck that of the first unacknowledged one; number n sits in slot n - origin modulo the size. */
module RcvBufferModule {
  import opened Bytes
  import opened Ring
  import opened UnitQueueModule
  import opened SndBufferModule
  import opened Protocol
  import opened Messages

  function UnitsIn(at: map<int, Unit>): set<Unit> {
    set n | n in at :: at[n]
  }

  /** The ring pu holds exactly the units at, numbered from start on. */
  ghost predicate Ringed(pu: seq<Unit?>, at: map<int, Unit>, start: int, origin: int) {
    && |pu| > 0
    && (forall n | n in at :: start <= n < start + |pu| && pu[Slot(n, origin, |pu|)] == at[n])
    && (forall n | start <= n < start + |pu| :: n !in at ==> pu[Slot(n, origin, |pu|)] == null)
  }

  /** No unit sits in two slots. */
  ghost predicate Separate(at: map<int, Unit>) {
    forall n, m | n in at && m in at && n != m :: at[n] != at[m]
  }

  /** The units are in use and hold these payloads. */
  ghost predicate Holding(at: map<int, Unit>, slots: map<int, Bytes>, pool: set<Unit>, held: set<Unit>)
    reads held
  {
    && at.Keys == slots.Keys
    && held == UnitsIn(at) && (forall n | n in at :: at[n] in held)
    && forall n | n in at :: at[n] in pool && at[n].flag != 0 && at[n].payload == slots[n]
  }

  lemma UnitsPut(at: map<int, Unit>, n: int, u: Unit)
    requires n !in at
    ensures UnitsIn(at[n := u]) == UnitsIn(at) + {u}
  {
    var m := at[n := u];
    assert m[n] == u;
    forall v | v in UnitsIn(at) ensures v in UnitsIn(m) {
      var k :| k in at && at[k] == v;
      assert k in m && m[k] == v;
    }
  }

  lemma UnitsDrop(at: map<int, Unit>, n: int)
    requires n in at && Separate(at)
    ensures UnitsIn(at - {n}) == UnitsIn(at) - {at[n]}
  {
    var m := at - {n};
    forall v | v in UnitsIn(at) && v != at[n] ensures v in UnitsIn(m) {
      var k :| k in at && at[k] == v;
      assert k in m && m[k] == v;
    }
  }

  lemma RingedPut(pu: seq<Unit?>, at: map<int, Unit>, start: int, origin: int, n: int, u: Unit)
    requires Ringed(pu, at, start, origin) && start <= n < start + |pu| && n !in at
    ensures Ringed(pu[Slot(n, origin, |pu|) := u], at[n := u], start, origin)
  {
    hide Slot;
    var size := |pu|;
    forall m | start <= m < start + size && m != n ensures Slot(m, origin, size) != Slot(n, origin, size) {
      if Slot(m, origin, size) == Slot(n, origin, size) {
        SlotInjective(m, n, origin, size);
      }
    }
  }

  /** Emptying the first slot moves the window one number on. */
  lemma RingedDrop(pu: seq<Unit?>, at: map<int, Unit>, start: int, origin: int)
    requires Ringed(pu, at, start, origin)
    ensures Ringed(pu[Slot(start, origin, |pu|) := null], at - {start}, start + 1, origin)
  {
    hide Slot;
    var size := |pu|;
    SlotRound(start, origin, size);
    forall m | start < m < start + size ensures Slot(m, origin, size) != Slot(start, origin, size) {
      if Slot(m, origin, size) == Slot(start, origin, size) {
        SlotInjective(m, start, origin, size);
      }
    }
  }

  lemma RingedAt(pu: seq<Unit?>, at: map<int, Unit>, start: int, origin: int, n: int)
    requires Ringed(pu, at, start, origin) && start <= n < start + |pu|
    ensures pu[Slot(n, origin, |pu|)] == if n in at then at[n] else null
  {
  }

  lemma SeparatePut(at: map<int, Unit>, n: int, u: Unit)
    requires Separate(at) && n !in at && forall m | m in at :: at[m] != u
    ensures Separate(at[n := u])
  {
  }

  class RcvBuffer {
    const size: int
    const pUnit: array<Unit?>
    const queue: UnitQueue
    var startPos: int
    var lastAckPos: int
    var maxPos: int
    var notch: int

    ghost const origin: int
    ghost var start: int
    ghost var lastAck: int
    ghost var at: map<int, Unit>
    ghost var slots: map<int, Bytes>
    // the units in the ring
    ghost var held: set<Unit>

    ghost function At(n: int): int
      requires size > 0
    {
      Slot(n, origin, size)
    }

    /** Everything but the read position. */
    ghost predicate Stored()
      reads this, pUnit, queue, queue.pool, held
    {
      && size == pUnit.Length && size > 0
      && start <= lastAck < start + size && lastAckPos == At(lastAck)
      && Ringed(pUnit[..], at, start, origin)
      && Separate(at)
      && queue.Valid() && Holding(at, slots, queue.pool, held)
    }

    ghost predicate Valid()
      reads this, pUnit, queue, queue.pool, held
    {
      Stored() && startPos == At(start)
    }

    /** The part of a receiver's state this buffer keeps. */
    ghost predicate Shows(r: Receiver)
      reads this
    {
      r.bufSize == size && r.start == start && r.lastAck == lastAck && r.slots == slots && r.notch == notch
    }

    constructor (q: UnitQueue, capacity: int, ghost isn: int)
      requires capacity > 0 && q.Valid()
      ensures Valid() && queue == q && size == capacity && fresh(pUnit)
      ensures slots == map[] && start == isn && lastAck == isn && notch == 0 && at == map[] && held == {} && maxPos == 0
    {
      size := capacity;
      pUnit := new Unit?[capacity](_ => null);
      queue := q;
      startPos := 0;
      lastAckPos := 0;
      maxPos := 0;
      notch := 0;
      origin := isn;
      start := isn;
      lastAck := isn;
      at := map[];
      slots := map[];
      held := {};
      new;
      assert At(isn) == 0;
    }

    method GetRcvDataSize() returns (n: int)
      requires Valid()
      ensures n == lastAck - start
    {
      hide Ringed, Separate, Holding, Slot;
      SlotDistance(start, lastAck, origin, size);
      if lastAckPos >= startPos {
        return lastAckPos - startPos;
      }
      return size + lastAckPos - startPos;
    }

    /** One slot stays empty, to tell a full buffer from an empty one. */
    method GetAvailBufSize() returns (n: int)
      requires Valid()
      ensures n == size - (lastAck - start) - 1
    {
      var d := GetRcvDataSize();
      return size - d - 1;
    }

    /** Puts a free unit in slot offset past the last acknowledged one, unless that slot is taken. */
    method AddData(unit: Unit, offset: int, ghost n: int) returns (res: int)
      requires Valid() && unit in queue.pool && unit.flag == 0
      requires 0 <= offset && n == lastAck + offset && n < start + size
      modifies this`maxPos, this`at, this`held, this`slots, pUnit, unit`flag, queue`count
      ensures Valid()
      ensures res == if n in old(slots) then -1 else 0
      ensures slots == if n in old(slots) then old(slots) else old(slots)[n := unit.payload]
      ensures at == if n in old(slots) then old(at) else old(at)[n := unit]
      ensures unit.flag == if n in old(slots) then 0 else 1
      ensures held == if n in old(slots) then old(held) else old(held) + {unit}
      ensures maxPos == if offset > old(maxPos) then offset else old(maxPos)
    {
      hide Ringed, Separate, Slot, Units, Grid, InUse, UnitsIn;
      SlotMove(lastAck, n, origin, size);
      RingedAt(pUnit[..], at, start, origin, n);
      var pos := (lastAckPos + offset) % size;
      if offset > maxPos {
        maxPos := offset;
      }
      if pUnit[pos] != null {
        return -1;
      }
      PutUnit(pos, unit, n);
      res := 0;
    }

    method PutUnit(pos: int, unit: Unit, ghost n: int)
      requires Valid() && unit in queue.pool && unit.flag == 0
      requires start <= n < start + size && n !in at && pos == At(n)
      modifies this`at, this`held, this`slots, pUnit, unit`flag, queue`count
      ensures Valid() && slots == old(slots)[n := unit.payload] && at == old(at)[n := unit] && unit.flag == 1
      ensures held == old(held) + {unit}
    {
      hide Ringed, Slot, Units, Grid, InUse, Separate, UnitsIn;
      ghost var pu := pUnit[..];
      UnitsPut(at, n, unit);
      SeparatePut(at, n, unit);
      RingedPut(pu, at, start, origin, n, unit);
      pUnit[pos] := unit;
      queue.Occupy(unit);
      at := at[n := unit];
      slots := slots[n := unit.payload];
      held := held + {unit};
      assert pUnit[..] == pu[pos := unit];
    }

    /** Releases the unit at the read position p. */
    method DropFirst(p: int, ghost u: Unit) returns (next: int)
      requires Stored() && p == At(start) && start < lastAck && start in at && u == at[start]
      modifies this`at, this`held, this`slots, this`start, pUnit, u`flag, queue`count
      ensures Stored() && start == old(start) + 1 && next == At(start)
      ensures slots == old(slots) - {old(start)} && at == old(at) - {old(start)}
      ensures u.flag == 0 && held <= old(held)
    {
      hide Ringed, Slot, Units, Grid, InUse, UnitsIn;
      ghost var pu := pUnit[..];
      UnitsDrop(at, start);
      RingedDrop(pu, at, start, origin);
      RingedAt(pu, at, start, origin, start);
      NextSlot(start, origin, size);
      var tmp := pUnit[p];
      pUnit[p] := null;
      queue.Release(tmp);
      next := if p + 1 == size then 0 else p + 1;
      assert pUnit[..] == pu[p := null];
      at := at - {start};
      slots := slots - {start};
      held := held - {u};
      start := start + 1;
    }

    /** Copies the next len acknowledged bytes out, releasing each unit read to its end. */
    method ReadBuffer(len: int, ghost r: Receiver) returns (data: Bytes)
      requires Valid() && Shows(r) && Readable(r)
      modifies this`startPos, this`notch, this`at, this`held, this`slots, this`start, pUnit, held, queue`count
      ensures Valid() && Shows(Recv(r, len).0) && data == Recv(r, len).1
      ensures held <= old(held)
      ensures forall n | n in at :: n in old(at) && at[n] == old(at)[n]
      ensures forall n | n in old(at) && n !in at :: old(at)[n].flag == 0
    {
      hide Ringed, Separate, Holding, Slot, Recv, Readable, Units, Grid, InUse;
      var p := startPos;
      var rs := len;
      data := [];
      ghost var cur := r;
      ReadStart(r, len);
      SameSlot();
      while p != lastAckPos && rs > 0
        invariant Stored() && p == At(start) && Shows(cur) && Readable(cur)
        invariant p == lastAckPos <==> start == lastAck
        invariant Recv(r, len) == (Recv(cur, rs).0, data + Recv(cur, rs).1)
        invariant held <= old(held)
        invariant forall n | n in at :: n in old(at) && at[n] == old(at)[n]
        invariant forall n | n in old(at) && n !in at :: old(at)[n].flag == 0
        decreases lastAck - start, rs
      {
        FirstPresent(cur);
        ghost var u := at[start];
        assert u == old(at)[start] && u in old(held);
        var piece;
        ghost var was := data;
        p, rs, piece, cur := ReadUnit(p, rs, cur, u);
        data := data + piece;
        SameSlot();
        assert was + (piece + Recv(cur, rs).1) == data + Recv(cur, rs).1;
      }
      ReadEnd(cur, rs);
      SetStart(p);
      assert data + [] == data;
    }

    /** Moves the acknowledgement position len slots on. */
    method AckData(len: int)
      requires Valid() && 0 <= len && lastAck + len < start + size
      modifies this`lastAckPos, this`maxPos, this`lastAck
      ensures Valid() && lastAck == old(lastAck) + len
      ensures maxPos == if old(maxPos) < len then 0 else old(maxPos) - len
    {
      hide Ringed, Separate, Slot, Units, Grid, InUse;
      SlotMove(lastAck, lastAck + len, origin, size);
      lastAckPos := (lastAckPos + len) % size;
      maxPos := maxPos - len;
      if maxPos < 0 {
        maxPos := 0;
      }
      lastAck := lastAck + len;
    }

    method SetStart(p: int)
      requires Stored() && p == At(start)
      modifies this`startPos
      ensures Valid()
    {
      hide Ringed, Separate, Slot, Units, Grid, InUse;
      startPos := p;
    }

    lemma FirstPresent(r: Receiver)
      requires Stored() && Shows(r) && Readable(r) && start < lastAck
      ensures start in at && start in slots && at[start] in held
    {
    }

    lemma SameSlot()
      requires size > 0 && start <= lastAck < start + size && lastAckPos == At(lastAck)
      ensures At(start) == lastAckPos <==> start == lastAck
    {
      hide Slot;
      if At(start) == lastAckPos {
        SlotInjective(start, lastAck, origin, size);
      }
    }

    /** One round of the reading loop: part of the unit u at position p, or all that is left of it. */
    method ReadUnit(p: int, rs: int, ghost r: Receiver, ghost u: Unit)
      returns (p': int, rs': int, piece: Bytes, ghost r': Receiver)
      requires Stored() && p == At(start) && Shows(r) && Readable(r)
      requires start < lastAck && rs > 0 && start in at && u == at[start]
      modifies this`notch, this`at, this`held, this`slots, this`start, pUnit, u`flag, queue`count
      ensures Stored() && p' == At(start) && Shows(r') && Readable(r')
      ensures Recv(r, rs) == (Recv(r', rs').0, piece + Recv(r', rs').1)
      ensures held <= old(held)
      ensures (at == old(at) && u.flag == old(u.flag)) || (at == old(at) - {old(start)} && u.flag == 0)
      ensures start > old(start) || (start == old(start) && rs' < rs)
    {
      hide Ringed, Separate, Slot, Units, Grid, InUse;
      RingedAt(pUnit[..], at, start, origin, start);
      RecvOne(r, rs);
      var length := |pUnit[p].payload|;
      var unitsize := length - notch;
      if unitsize > rs {
        unitsize := rs;
      }
      piece := pUnit[p].payload[notch..notch + unitsize];
      if rs > unitsize || rs == length - notch {
        p' := DropFirst(p, u);
        notch := 0;
        r' := r.(slots := r.slots - {r.start}, start := r.start + 1, notch := 0);
      } else {
        p' := p;
        notch := notch + rs;
        r' := r.(notch := r.notch + rs);
      }
      rs' := rs - unitsize;
    }

    // ----- message mode -----

    /** v shows the flags and headers of the stored units. */
    ghost predicate Views(v: map<int, Cell>)
      reads this, held
    {
      && v.Keys == at.Keys
      && forall n | n in at :: n in v && at[n] in held && at[n].flag == v[n].flag && at[n].header == v[n].header
    }

    /** Nothing was stored past maxPos, which stays within the ring. */
    ghost predicate MaxOk()
      reads this
    {
      0 <= maxPos && lastAck + maxPos < start + size
    }

    lemma SlotIsAck(c: int)
      requires size > 0 && start <= lastAck < start + size && start <= c < start + size && lastAckPos == At(lastAck)
      ensures At(c) == lastAckPos <==> c == lastAck
    {
      hide Slot;
      if At(c) == lastAckPos {
        SlotInjective(c, lastAck, origin, size);
      }
    }

    lemma UnitAt(n: int, v: map<int, Cell>)
      requires Stored() && Views(v) && start <= n < start + size
      ensures 0 <= At(n) < pUnit.Length
      ensures (pUnit[At(n)] == null <==> n !in v) && (n in v <==> n in at)
      ensures n in v ==>
        && n in at && pUnit[At(n)] == at[n] && at[n] in held && n in slots
        && pUnit[At(n)].flag == v[n].flag && pUnit[At(n)].header == v[n].header && pUnit[At(n)].payload == slots[n]
    {
      hide Slot, Separate;
      assert n in at <==> n in at.Keys;
      assert n in v <==> n in v.Keys;
      RingedAt(pUnit[..], at, start, origin, n);
    }

    /** addData in message mode: the unit carries the header the sender gave number n. */
    method AddMsgUnit(unit: Unit, offset: int, ghost n: int, ghost v: map<int, Cell>, ghost h: int -> Header, ghost isn: int)
      returns (res: int, ghost v': map<int, Cell>)
      requires Valid() && MaxOk() && Views(v) && MsgOk(v, h, isn, start, lastAck, maxPos)
      requires unit in queue.pool && unit.flag == 0 && unit.header == h(n)
      requires 0 <= offset && n == lastAck + offset && n + 1 < start + size
      modifies this`maxPos, this`at, this`held, this`slots, pUnit, unit`flag, queue`count
      ensures Valid() && MaxOk() && Views(v') && MsgOk(v', h, isn, start, lastAck, maxPos)
      ensures v' == if n in v then v else v[n := Cell(1, h(n))]
      ensures slots == if n in v then old(slots) else old(slots)[n := unit.payload]
      ensures held == if n in v then old(held) else old(held) + {unit}
      ensures res == (if n in v then -1 else 0) && maxPos == if offset > old(maxPos) then offset else old(maxPos)
    {
      hide Slot, Stored, MsgOk;
      AtFacts();
      SlotKeys(v);
      FreeApart(unit);
      Repeated(v, h, isn, start, lastAck, maxPos, n);
      if n !in v {
        Arrives(v, h, isn, start, lastAck, maxPos, n);
      }
      res := AddData(unit, offset, n);
      v' := if n in v then v else v[n := Cell(1, h(n))];
    }

    lemma StoredApart(unit: Unit)
      requires Valid() && unit.flag == 0
      ensures forall n | n in at :: at[n] != unit && at[n] in held
      ensures start <= lastAck && unit !in held
    {
      hide Slot, Ringed, Separate;
    }

    lemma FreeApart(unit: Unit)
      requires Stored() && unit.flag == 0
      ensures forall n | n in at :: at[n] != unit
    {
      hide Slot, Ringed, Separate;
    }

    /** ackData in message mode. */
    method AckMsgUnits(len: int, ghost v: map<int, Cell>, ghost h: int -> Header, ghost isn: int)
      requires Valid() && MaxOk() && Views(v) && MsgOk(v, h, isn, start, lastAck, maxPos)
      requires 0 <= len && lastAck + len < start + size && forall n | lastAck <= n < lastAck + len :: n in v
      modifies this`lastAckPos, this`maxPos, this`lastAck
      ensures Valid() && MaxOk() && Views(v) && MsgOk(v, h, isn, start, lastAck, maxPos) && lastAck == old(lastAck) + len
      ensures maxPos == if old(maxPos) < len then 0 else old(maxPos) - len
    {
      hide Slot, Stored, MsgOk;
      Acknowledges(v, h, isn, start, lastAck, maxPos, len);
      AckData(len);
    }

    /** Whether the message at the read position is whole as far as acknowledged data goes. */
    method LookAhead(ghost v: map<int, Cell>) returns (good: bool)
      requires Stored() && startPos == At(start) && Views(v) && start < lastAck
      ensures good <==> Ahead(v, start, lastAck)
    {
      hide Slot, Ringed, Separate, Holding;
      var i := startPos;
      ghost var k := start;
      SlotIsAck(k);
      while i != lastAckPos
        invariant start <= k <= lastAck && i == At(k)
        invariant Ahead(v, start, lastAck) == Ahead(v, k, lastAck)
        invariant i == lastAckPos <==> k == lastAck
        decreases lastAck - k
      {
        UnitAt(k, v);
        if pUnit[i] == null || pUnit[i].flag != 1 {
          return false;
        }
        if Boundary(pUnit[i].header) == 1 || Boundary(pUnit[i].header) == 3 {
          return true;
        }
        NextSlot(k, origin, size);
        i := if i + 1 == size then 0 else i + 1;
        k := k + 1;
        SlotIsAck(k);
      }
      good := true;
    }

    /** scanMsg, first loop: discards units at the read position until a message worth keeping starts there. */
    method SkipBad(ghost v: map<int, Cell>) returns (ghost v': map<int, Cell>)
      requires Valid() && Views(v)
      modifies this`startPos, this`at, this`held, this`slots, this`start, pUnit, held, queue`count
      ensures Valid() && Views(v') && start == Skipped(v, old(start), lastAck) && v' == From(v, start)
      ensures old(start) <= start <= lastAck
      ensures start < lastAck ==> start in v && v[start].flag == 1 && v[start].header.first && Ahead(v, start, lastAck)
      ensures forall n | old(start) <= n < start ::
                !(n in v && v[n].flag == 1 && v[n].header.first && Ahead(v, n, lastAck))
      ensures slots.Keys == v'.Keys && forall n | n in slots :: n in old(slots) && slots[n] == old(slots)[n]
      ensures held <= old(held)
    {
      hide Slot, Stored, Views, Ahead, Skipped, From;
      AtFacts();
      SlotIsAck(start);
      SlotKeys(v);
      v' := From(v, start);
      while startPos != lastAckPos
        invariant Valid() && Views(v') && old(start) <= start && v' == From(v, start) && held <= old(held)
        invariant size > 0 && start <= lastAck < start + size && lastAckPos == At(lastAck)
        invariant startPos == lastAckPos <==> start == lastAck
        invariant Skipped(v, old(start), lastAck) == Skipped(v, start, lastAck)
        invariant forall n | n in slots :: n in old(slots) && slots[n] == old(slots)[n]
        decreases lastAck - start
      {
        var stop := SkipStep(v);
        if stop {
          SkipUnfold(v, start, lastAck);
          break;
        }
        v' := From(v, start);
        AtFacts();
        SlotIsAck(start);
      }
      SkipEnd(v, start, lastAck);
      SkippedIs(v, old(start), lastAck);
      SlotKeys(v');
    }

    /** One round of the skip loop: stops at a good message, else discards what is at the read position. */
    method SkipStep(ghost v: map<int, Cell>) returns (stop: bool)
      requires Valid() && Views(From(v, start)) && start < lastAck
      modifies this`startPos, this`at, this`held, this`slots, this`start, pUnit, held, queue`count
      ensures Valid() && Views(From(v, start)) && held <= old(held)
      ensures stop ==> start == old(start) && slots == old(slots) && Good(v, start, lastAck)
      ensures !stop ==> start == old(start) + 1 && Skipped(v, old(start), lastAck) == Skipped(v, start, lastAck)
      ensures forall n | n in slots :: n in old(slots) && slots[n] == old(slots)[n]
    {
      hide Slot, Stored, Views, Ahead, Skipped;
      AtFacts();
      UnitAt(start, From(v, start));
      SkipUnfold(v, start, lastAck);
      AheadFrom(v, start, start, lastAck);
      if pUnit[startPos] == null {
        SkipEmpty(v);
        return false;
      }
      if pUnit[startPos].flag == 1 && Boundary(pUnit[startPos].header) > 1 {
        var good := LookAhead(From(v, start));
        if good {
          return true;
        }
      }
      SkipUnit(v, at[start]);
      stop := false;
    }

    lemma SlotKeys(v: map<int, Cell>)
      requires Stored() && Views(v)
      ensures slots.Keys == v.Keys && From(v, start) == v
    {
      hide Slot, Separate;
      assert forall n :: n in v <==> n in at.Keys;
      assert forall n | n in at :: n >= start;
    }

    /** Steps over an empty slot. */
    method SkipEmpty(ghost v: map<int, Cell>)
      requires Valid() && Views(From(v, start)) && start < lastAck && start !in at
      modifies this`startPos, this`start
      ensures Valid() && start == old(start) + 1 && Views(From(v, start))
    {
      hide Slot, Separate, Holding, Ringed, Units, Grid, InUse;
      RingedDrop(pUnit[..], at, start, origin);
      RingedAt(pUnit[..], at, start, origin, start);
      NextSlot(start, origin, size);
      assert pUnit[..][At(start) := null] == pUnit[..];
      assert at - {start} == at;
      startPos := if startPos + 1 == size then 0 else startPos + 1;
      start := start + 1;
    }

    /** Discards the unit u at the read position. */
    method SkipUnit(ghost v: map<int, Cell>, ghost u: Unit)
      requires Valid() && Views(From(v, start)) && start < lastAck && start in at && u == at[start]
      modifies this`startPos, this`at, this`held, this`slots, this`start, pUnit, u`flag, queue`count
      ensures Valid() && start == old(start) + 1 && Views(From(v, start)) && held <= old(held)
      ensures slots == old(slots) - {old(start)}
    {
      hide Slot, Stored;
      AtFacts();
      var next := DropFirst(startPos, u);
      AtFacts();
      SetStart(next);
    }

    lemma AtFacts()
      requires Stored()
      ensures size > 0 && start <= lastAck < start + size && lastAckPos == At(lastAck)
      ensures forall n | n in at :: at[n] in held && n in slots
      ensures start in at ==> forall n | n in at && n != start :: at[n] != at[start]
    {
      hide Slot, Ringed;
      assert at.Keys == slots.Keys;
    }

    /** scanMsg, second loop: the first message to end that may be delivered. In slots p..q, numbers a..b; passack:
        whether it reaches past the acknowledged data. Not whole: the answer for a message larger than the buffer. */
    method FindMsg(ghost v: map<int, Cell>, ghost h: int -> Header, ghost isn: int)
      returns (found: bool, p: int, q: int, passack: bool, ghost whole: bool, ghost a: int, ghost b: int)
      requires Valid() && MaxOk() && Views(v) && MsgOk(v, h, isn, start, lastAck, maxPos)
      ensures whole ==> found && start <= a && Deliverable(v, h, lastAck, a, b) && p == At(a) && q == At(b)
      ensures whole ==> b < start + size && (passack <==> b >= lastAck)
      ensures whole ==> forall d, c | start <= d && c < b :: !Deliverable(v, h, lastAck, d, c)
      ensures !whole ==> forall d, c | start <= d :: !Deliverable(v, h, lastAck, d, c)
      ensures found && !whole ==> passack && p == (q + 1) % size
    {
      hide Slot, Ringed, Separate, Holding, Units, Grid, InUse, MsgOk, Scanned, Deliverable;
      p := -1;
      q := startPos;
      SlotIsAck(start);
      passack := startPos == lastAckPos;
      found, whole, a, b := false, false, 0, 0;
      var i := 0;
      var n := GetRcvDataSize();
      n := n + maxPos;
      NothingScanned(v, h, lastAck, start);
      while i <= n && !found
        invariant 0 <= i <= n + 1
        invariant !found ==> q == At(start + i) && (passack <==> start + i >= lastAck)
        invariant !found ==> Scanned(v, h, start, start + i, p != -1, a) && (p != -1 ==> p == At(a))
        invariant forall d, c | start <= d && c < (if found then b else start + i) :: !Deliverable(v, h, lastAck, d, c)
        invariant found == whole
        invariant found ==> start <= a && Deliverable(v, h, lastAck, a, b) && p == At(a) && q == At(b)
        invariant found ==> b < start + size && (passack <==> b >= lastAck)
        decreases n + 1 - i, !found
      {
        found, p, a := Look(v, h, isn, p, q, passack, start + i, a);
        if found {
          whole, b := true, start + i;
        } else {
          NextSlot(start + i, origin, size);
          q := if q + 1 == size then 0 else q + 1;
          i := i + 1;
          PassedAck(start + i);
          if q == lastAckPos {
            passack := true;
          }
        }
      }
      NoneBeyond(v, h, isn, start, lastAck, maxPos);
      if !found && p != -1 && (q + 1) % size == p {
        found := true;
      }
    }

    /** Slot q comes back to the acknowledgement position only from there or once around the ring. */
    lemma PassedAck(c: int)
      requires size > 0 && start <= lastAck < start + size && start < c <= start + size && lastAckPos == At(lastAck)
      ensures c == lastAck ==> At(c) == lastAckPos
      ensures At(c) == lastAckPos ==> c >= lastAck
    {
      hide Slot;
      if c == start + size {
      } else {
        SlotIsAck(c);
      }
    }

    /** One unit of the search. */
    method Look(ghost v: map<int, Cell>, ghost h: int -> Header, ghost isn: int, p: int, q: int, passack: bool,
                ghost c: int, ghost a: int)
      returns (found: bool, p': int, ghost a': int)
      requires Stored() && Views(v) && MsgOk(v, h, isn, start, lastAck, maxPos)
      requires start <= c < start + size && q == At(c) && (passack <==> c >= lastAck)
      requires Scanned(v, h, start, c, p != -1, a) && (p != -1 ==> p == At(a))
      ensures found ==> start <= a' && Deliverable(v, h, lastAck, a', c) && p' == At(a')
      ensures !found ==> Scanned(v, h, start, c + 1, p' != -1, a') && (p' != -1 ==> p' == At(a'))
      ensures !found ==> forall d | start <= d :: !Deliverable(v, h, lastAck, d, c)
    {
      hide Slot, Stored, Views, Scanned, Ends, Deliverable;
      AtFacts();
      UnitAt(c, v);
      HeaderAt(v, h, isn, start, lastAck, maxPos, c);
      EndsDeliver(v, h, start, lastAck, c);
      p', a', found := p, a, false;
      if pUnit[q] != null && pUnit[q].flag == 1 {
        ScanUnit(v, h, isn, start, c, p != -1, a);
        match Boundary(pUnit[q].header)
        case 3 => p', a', found := q, c, true;
        case 2 => p', a' := q, c;
        case 1 =>
          if p != -1 {
            found := true;
          }
        case _ =>
      } else {
        ScanHole(v, h, start, c);
        p' := -1;
        a' := 0;
      }
      if found && passack && pUnit[q].header.inOrder {
        found := false;
      }
    }

    /** As much of a unit as the reader still has room for. */
    static method Piece(payload: Bytes, rs: int) returns (piece: Bytes, left: int)
      requires 0 <= rs
      ensures piece == payload[..if |payload| > rs then rs else |payload|] && left == rs - |piece|
    {
      var unitsize := |payload|;
      if rs >= 0 && unitsize > rs {
        unitsize := rs;
      }
      piece, left := [], rs;
      if unitsize > 0 {
        piece := payload[..unitsize];
        left := rs - unitsize;
      }
    }

    /** Copies units a..b out of slots p..q and releases them. */
    method ReadAcked(p0: int, q: int, len: int, ghost v: map<int, Cell>, ghost b: int) returns (data: Bytes)
      requires Valid() && Views(From(v, start)) && 0 <= len && start <= b < lastAck && b + 1 < start + size
      requires p0 == At(start) && q == At(b) && forall n | start <= n <= b :: n in v
      modifies this`startPos, this`at, this`held, this`slots, this`start, pUnit, held, queue`count
      ensures Valid() && start == b + 1 && Views(From(v, start)) && held <= old(held)
      ensures data == Cutoff(Text(old(slots), old(start), b), len)
      ensures forall n | n in slots :: n in old(slots) && slots[n] == old(slots)[n]
    {
      hide Slot, Stored, Views;
      AtFacts();
      NextSlot(b, origin, size);
      var stop := if q + 1 == size then 0 else q + 1;
      var p, rs := p0, len;
      data := [];
      ghost var slots0, a := slots, start;
      SameSlots(a, b);
      while p != stop
        invariant Valid() && a <= start <= b + 1 && p == At(start) && Views(From(v, start)) && held <= old(held)
        invariant size > 0 && b + 1 <= lastAck
        invariant p == stop <==> start == b + 1
        invariant forall n | n in slots :: n in slots0 && slots[n] == slots0[n]
        invariant data == Cutoff(Text(slots0, a, start - 1), len) && rs == len - |data| && 0 <= rs
        decreases b - start
      {
        assert start <= b;
        AtFacts();
        UnitAt(start, From(v, start));
        NextSlot(start, origin, size);
        CutoffNext(Text(slots0, a, start - 1), slots0[start], len);
        var piece;
        piece, rs := Piece(pUnit[p].payload, rs);
        data := data + piece;
        SkipUnit(v, at[start]);
        p := if p + 1 == size then 0 else p + 1;
        SameSlots(start, b);
      }
    }

    lemma SameSlots(k: int, b: int)
      requires size > 0 && k <= b + 1 < k + size
      ensures At(k) == At(b + 1) <==> k == b + 1
    {
      hide Slot;
      if At(k) == At(b + 1) {
        SlotInjective(k, b + 1, origin, size);
      }
    }

    /** Copies units a..b out of slots p..q and marks them as read. */
    method ReadPastAck(p0: int, q: int, len: int, ghost v: map<int, Cell>, ghost a: int, ghost b: int) returns (data: Bytes)
      requires Valid() && Views(v) && 0 <= len && start <= a <= b && b + 1 < start + size
      requires p0 == At(a) && q == At(b) && forall n | a <= n <= b :: n in v
      modifies held`flag
      ensures Valid() && Views(Marked(v, a, b))
      ensures data == Cutoff(Text(slots, a, b), len)
    {
      hide Slot, Stored, Views;
      AtFacts();
      NextSlot(b, origin, size);
      var stop := if q + 1 == size then 0 else q + 1;
      var p, rs := p0, len;
      data := [];
      ghost var k := a;
      SameSlots(a, b);
      MarkedNone(v, a);
      while p != stop
        invariant Valid() && a <= k <= b + 1 && p == At(k) && Views(Marked(v, a, k - 1))
        invariant p == stop <==> k == b + 1
        invariant data == Cutoff(Text(slots, a, k - 1), len) && rs == len - |data| && 0 <= rs
        decreases b - k
      {
        UnitAt(k, Marked(v, a, k - 1));
        CutoffNext(Text(slots, a, k - 1), slots[k], len);
        var piece;
        piece, rs := Piece(pUnit[p].payload, rs);
        data := data + piece;
        MarkUnit(p, v, a, k);
        NextSlot(k, origin, size);
        p := if p + 1 == size then 0 else p + 1;
        k := k + 1;
        SameSlots(k, b);
      }
    }

    method MarkUnit(p: int, ghost v: map<int, Cell>, ghost a: int, ghost k: int)
      requires Valid() && Views(Marked(v, a, k - 1)) && start <= a <= k < start + size && p == At(k) && k in v
      modifies held`flag
      ensures Valid() && Views(Marked(v, a, k))
    {
      hide Slot, Units, Grid, InUse, Ringed;
      UnitAt(k, Marked(v, a, k - 1));
      AllDiffer(k);
      queue.MarkRead(pUnit[p]);
    }

    lemma AllDiffer(k: int)
      requires Stored() && k in at
      ensures forall n | n in at && n != k :: at[n] != at[k]
      ensures at[k] in queue.pool && at[k] in held && at[k].flag != 0
    {
      hide Slot, Ringed;
    }

    lemma StoredAs(v: map<int, Cell>)
      requires Valid() && Views(v)
      ensures v.Keys == slots.Keys && start <= lastAck
    {
      hide Slot, Ringed, Separate;
    }

    /** readMsg: the first message that may be delivered, cut to len bytes. It is one whole message of units not read
        before; acknowledged ones are released, the others kept and marked; nothing unread is discarded on the way.
        Nothing is returned exactly if nothing may be delivered or the buffer looks empty, with no acknowledged data and
        nothing noted past it (see LooksEmpty). */
    method ReadMsg(len: int, ghost v: map<int, Cell>, ghost h: int -> Header, ghost isn: int)
      returns (data: Bytes, ghost found: bool, ghost a: int, ghost b: int, ghost v': map<int, Cell>)
      requires Valid() && MaxOk() && Views(v) && MsgOk(v, h, isn, start, lastAck, maxPos) && 0 <= len
      requires forall n | n in v :: n + 1 < start + size
      modifies this`startPos, this`at, this`held, this`slots, this`start, pUnit, held, queue`count
      ensures Valid() && MaxOk() && Views(v') && MsgOk(v', h, isn, start, lastAck, maxPos)
      ensures found ==> old(start) <= a && Deliverable(v, h, lastAck, a, b) && data == Cutoff(Text(old(slots), a, b), len)
      ensures !found ==> data == []
      ensures old(start) == lastAck && maxPos <= 0 ==> !found
      ensures !found && !(old(start) == lastAck && maxPos <= 0) ==>
        forall d, c | old(start) <= d :: !Deliverable(v, h, lastAck, d, c)
      ensures found ==> forall d, c | old(start) <= d && c < b :: !Deliverable(v, h, lastAck, d, c)
      ensures v' == if !found then From(v, start) else if b < lastAck then From(v, b + 1) else Marked(From(v, start), a, b)
      ensures forall n | n in v && n !in v' :: v[n].flag == 2 || (found && a <= n <= b)
      ensures old(start) <= start && (found ==> if b < lastAck then start == b + 1 else start <= a)
      ensures slots.Keys == v'.Keys && forall n | n in slots :: n in old(slots) && slots[n] == old(slots)[n]
      ensures held <= old(held)
    {
      hide Slot, Stored, Views, MsgOk, Deliverable, Skipped, Marked, From, Text, Cutoff;
      data, found, a, b := [], false, 0, 0;
      AtFacts();
      SlotIsAck(start);
      SlotKeys(v);
      v' := v;
      if startPos == lastAckPos && maxPos <= 0 {
        return;
      }
      SkipKeeps(v, h, isn, start, lastAck, maxPos);
      ghost var t := Skipped(v, start, lastAck);
      FromIs(v, t);
      ghost var v1 := SkipBad(v);
      SlotKeys(v1);
      ghost var slots1 := slots;
      data, found, a, b, v' := ReadNext(len, v1, h, isn);
      SkipThenRead(v, h, isn, old(start), lastAck, maxPos, old(slots), slots1, found, a, b);
      SlotKeys(v');
    }

    /** Stores unit at the read position of an empty buffer and reads, before and after it is acknowledged. */
    method ReadTwice(unit: Unit, len: int) returns (before: Bytes, after: Bytes)
      requires Valid() && start == lastAck == 0 && maxPos == 0 && at == map[] && held == {} && size > 1
      requires unit in queue.pool && unit.flag == 0 && unit.header == Header(0, false, true, true) && len == |unit.payload|
      modifies this, pUnit, unit, held, queue`count
      ensures before == [] && after == old(unit.payload)
    {
      hide Slot, Stored, Views, MsgOk, Deliverable, Text, From, Cutoff;
      ghost var h := Numbered([], 0);
      ghost var v := map[];
      NothingStored();
      NothingViewed();
      var res;
      res, v := AddMsgUnit(unit, 0, 0, v, h, 0);
      ghost var found, a, b, w;
      before, found, a, b, w := ReadMsg(len, v, h, 0);
      AckPosition(w, h, 0, start, lastAck, maxPos);
      OneMessage(v, h, slots);
      AckMsgUnits(1, w, h, 0);
      after, found, a, b, w := ReadMsg(len, v, h, 0);
    }

    lemma NothingViewed()
      requires at == map[]
      ensures Views(map[])
    {
    }

    /** The search, and the reading of what it found. */
    method ReadNext(len: int, ghost v: map<int, Cell>, ghost h: int -> Header, ghost isn: int)
      returns (data: Bytes, ghost found: bool, ghost a: int, ghost b: int, ghost v': map<int, Cell>)
      requires Valid() && MaxOk() && Views(v) && MsgOk(v, h, isn, start, lastAck, maxPos) && 0 <= len
      requires (forall n | n in v :: n + 1 < start + size) && From(v, start) == v
      requires start < lastAck ==> h(start).first && start in v && v[start].flag == 1
      modifies this`startPos, this`at, this`held, this`slots, this`start, pUnit, held, queue`count
      ensures Valid() && MaxOk() && Views(v') && MsgOk(v', h, isn, start, lastAck, maxPos)
      ensures found ==> old(start) <= a && Deliverable(v, h, lastAck, a, b) && data == Cutoff(Text(old(slots), a, b), len)
      ensures !found ==> data == [] && v' == v && forall d, c | old(start) <= d :: !Deliverable(v, h, lastAck, d, c)
      ensures found ==> forall d, c | old(start) <= d && c < b :: !Deliverable(v, h, lastAck, d, c)
      ensures found ==> v' == if b < lastAck then From(v, b + 1) else Marked(v, a, b)
      ensures start == if found && b < lastAck then b + 1 else old(start)
      ensures held <= old(held) && forall n | n in slots :: n in old(slots) && slots[n] == old(slots)[n]
      ensures found && b < lastAck ==> a == old(start)
    {
      hide Slot, Stored, Views, MsgOk, Deliverable, Marked, From, Text, Cutoff;
      var ok, p, q, passack;
      ok, p, q, passack, found, a, b := FindMsg(v, h, isn);
      data, v' := [], v;
      if ok {
        data, v' := TakeMsg(p, q, passack, len, v, h, isn, found, a, b);
      }
    }

    /** Reads the message FindMsg answered with. */
    method TakeMsg(p: int, q: int, passack: bool, len: int, ghost v: map<int, Cell>, ghost h: int -> Header,
                   ghost isn: int, ghost whole: bool, ghost a: int, ghost b: int)
      returns (data: Bytes, ghost v': map<int, Cell>)
      requires Valid() && MaxOk() && Views(v) && MsgOk(v, h, isn, start, lastAck, maxPos) && 0 <= len
      requires (forall n | n in v :: n + 1 < start + size) && From(v, start) == v
      requires start < lastAck ==> h(start).first && start in v && v[start].flag == 1
      requires whole ==> start <= a && Deliverable(v, h, lastAck, a, b) && p == At(a) && q == At(b)
      requires whole ==> (passack <==> b >= lastAck)
      requires whole ==> forall d, c | start <= d && c < b :: !Deliverable(v, h, lastAck, d, c)
      requires !whole ==> passack && p == (q + 1) % size
      modifies this`startPos, this`at, this`held, this`slots, this`start, pUnit, held, queue`count
      ensures Valid() && MaxOk() && Views(v') && MsgOk(v', h, isn, start, lastAck, maxPos)
      ensures whole ==> data == Cutoff(Text(old(slots), a, b), len)
      ensures !whole ==> data == []
      ensures v' == if !whole then v else if b < lastAck then From(v, b + 1) else Marked(v, a, b)
      ensures start == if whole && b < lastAck then b + 1 else old(start)
      ensures held <= old(held) && forall n | n in slots :: n in old(slots) && slots[n] == old(slots)[n]
      ensures whole && b < lastAck ==> a == old(start)
    {
      hide Slot, Stored, Views, MsgOk, Marked, From, Text, Cutoff;
      AtFacts();
      data, v' := [], v;
      if whole {
        WholeIn(v, h, lastAck, a, b);
        assert b in v;
        SlotMove(b, b + 1, origin, size);
        SameSlots(a, b);
      }
      if p == (q + 1) % size {
        return;
      }
      if !passack {
        FirstAtStart(v, h, isn, start, lastAck, maxPos, a, b, start);
        ReadInOrder(v, h, isn, start, lastAck, maxPos, b);
        data := ReadAcked(p, q, len, v, b);
        v' := From(v, start);
      } else {
        ReadEarly(v, h, isn, start, lastAck, maxPos, a, b);
        data := ReadPastAck(p, q, len, v, a, b);
        v' := Marked(v, a, b);
      }
    }
  }

  /** A message of one block, which may be read out of order, arrives at the read position of an empty buffer: it is not
      read until it is acknowledged. */
  method ArrivedButMissed(payload: Bytes) returns (before: Bytes, after: Bytes)
    requires payload != []
    ensures before == [] && after == payload
  {
    var q := new UnitQueue(32);
    var buf := new RcvBuffer(q, 8, 0);
    var unit := FreshUnit(q, payload);
    before, after := buf.ReadTwice(unit, |payload|);
  }

  /** A free unit that holds a one-block message without order flag. */
  method FreshUnit(q: UnitQueue, payload: Bytes) returns (unit: Unit)
    requires q.Valid() && InUse(q.pool) == {}
    modifies q.pool`payload, q.pool`header
    ensures q.Valid() && unit in q.pool && unit.flag == 0 && unit.payload == payload
    ensures unit.header == Header(0, false, true, true)
  {
    hide Grid, Units;
    q.EntrySize(0);
    AllFree(q.pool);
    unit := q.entries[0][0];
    unit.payload := payload;
    unit.header := Header(0, false, true, true);
    assert InUse(q.pool) == {};
  }

  /** Two buffers on one pool with no unit in common: reading from the first changes nothing the second holds, and
      the shared counter stays exact for both. */
  method ReadBesideAnother(b: RcvBuffer, other: RcvBuffer, len: int, ghost r: Receiver) returns (data: Bytes)
    requires b.Valid() && other.Valid() && b != other && b.queue == other.queue && b.pUnit != other.pUnit
    requires b.held !! other.held && b.Shows(r) && Readable(r)
    modifies b, b.pUnit, b.held, b.queue`count
    ensures b.Valid() && other.Valid() && data == Recv(r, len).1
    ensures other.slots == old(other.slots) && other.at == old(other.at)
    ensures b.held !! other.held
  {
    hide Ringed, Separate, Slot, Units, Grid, InUse, Recv, Readable;
    data := b.ReadBuffer(len, r);
    assert other.pUnit[..] == old(other.pUnit[..]);
  }

  /** Likewise for storing a unit: what the pool hands out as free is in nobody's ring. */
  method AddBesideAnother(b: RcvBuffer, other: RcvBuffer, unit: Unit, offset: int, ghost n: int) returns (res: int)
    requires b.Valid() && other.Valid() && b != other && b.queue == other.queue && b.pUnit != other.pUnit
    requires b.held !! other.held && unit in b.queue.pool && unit.flag == 0
    requires 0 <= offset && n == b.lastAck + offset && n < b.start + b.size
    modifies b, b.pUnit, unit`flag, b.queue`count
    ensures b.Valid() && other.Valid()
    ensures other.slots == old(other.slots) && other.at == old(other.at)
    ensures b.held !! other.held
  {
    hide Ringed, Separate, Slot, Units, Grid, InUse;
    res := b.AddData(unit, offset, n);
    assert other.pUnit[..] == old(other.pUnit[..]);
  }

  lemma ReadStart(r: Receiver, len: int)
    requires Readable(r)
    ensures Recv(r, len) == (Recv(r, len).0, [] + Recv(r, len).1)
  {
    hide Recv;
    assert [] + Recv(r, len).1 == Recv(r, len).1;
  }

  lemma ReadEnd(r: Receiver, rs: int)
    requires Readable(r) && (r.start == r.lastAck || rs <= 0)
    ensures Recv(r, rs) == (r, [])
  {
  }

  /** One round of the reading loop on values. */
  lemma RecvOne(r: Receiver, rs: int)
    requires Readable(r) && r.start < r.lastAck && rs > 0
    ensures r.start in r.slots && 0 <= r.notch <= |r.slots[r.start]|
    ensures
      var left := |r.slots[r.start]| - r.notch;
      var take := if left > rs then rs else left;
      var r1 := r.(slots := r.slots - {r.start}, start := r.start + 1, notch := 0);
      var r2 := r.(notch := r.notch + rs);
      var piece := r.slots[r.start][r.notch..r.notch + take];
      if rs >= left then
        Readable(r1) && Recv(r, rs) == (Recv(r1, rs - take).0, piece + Recv(r1, rs - take).1)
      else
        Readable(r2) && Recv(r, rs) == (Recv(r2, 0).0, piece + Recv(r2, 0).1)
  {
    var unit := r.slots[r.start][r.notch..];
    var left := |unit|;
    if rs >= left {
      assert unit == r.slots[r.start][r.notch..r.notch + left];
    } else {
      assert unit[..rs] == r.slots[r.start][r.notch..r.notch + rs];
      assert unit[..rs] + [] == unit[..rs];
    }
  }
}
