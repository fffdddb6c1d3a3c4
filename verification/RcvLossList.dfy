/** The receiver's loss list (CRcvLossList): the same layout as the sender's, linked both ways, with numbers only
    ever added at the end. */
module RcvLossListModule {
  import opened SeqNo
  import opened Ring
  import opened Runs
  import opened Chain
  import opened Nak

  class RcvLossList {
    const size: int
    const data1: array<int>
    const data2: array<int>
    const next: array<int>
    const prior: array<int>
    var head: int
    var tail: int
    var length: int
    ghost var c: Chain

    ghost predicate Shape() {
      && size > 0
      && data1.Length == data2.Length == next.Length == prior.Length == size
      && data1 != data2 && data1 != next && data2 != next
      && prior != data1 && prior != data2 && prior != next
    }

    ghost predicate Valid()
      reads this, data1, data2, next, prior
    {
      && Shape()
      && Wellformed(c, size, NIL)
      && Stored(c, size, data1[..], data2[..], next[..])
      && BackStored(c, size, prior[..])
      && head == Loc(c, size, c.first)
      && (c.first != NIL ==> IsTail(c, tail))
      && length == |Elems()|
    }

    ghost function Elems(): set<int>
      reads this
    {
      Members(c.hi)
    }

    /** a..b fits after everything stored. */
    ghost predicate FitsAfter(a: int, b: int)
      reads this
    {
      && 0 <= a <= b
      && Spans(a, b, size)
      && forall x | x in Elems() :: x < a && Spans(x, b, size)
    }

    constructor (capacity: int)
      requires capacity > 0
      ensures Valid() && Elems() == {} && size == capacity
      ensures fresh(data1) && fresh(data2) && fresh(next) && fresh(prior)
    {
      size := capacity;
      data1 := new int[capacity](_ => -1);
      data2 := new int[capacity](_ => -1);
      next := new int[capacity](_ => -1);
      prior := new int[capacity](_ => -1);
      head := -1;
      tail := -1;
      length := 0;
      c := Chain(NIL, map[], map[], map[], 0, map[]);
    }

    /** Adds seqno1..seqno2, which must lie past everything in the list. */
    method Insert(seqno1: int, seqno2: int, ghost a: int, ghost b: int)
      requires Valid() && FitsAfter(a, b) && seqno1 == Wire(a) && seqno2 == Wire(b)
      modifies this, data1, data2, next, prior
      ensures Valid() && Elems() == old(Elems()) + Range(a, b)
    {
      hide Slot, Num, Wire, Members, SeqOff, IncSeq, Wellformed, Stored, BackStored, Reaches;
      WireIsNum(a);
      WireIsNum(b);
      AfterReaches(c, size, a, b);
      if length == 0 {
        InsertFirst(seqno1, seqno2, a, b);
        return;
      }
      HeadFacts(c, size, a, b, data1[..], data2[..], next[..]);
      LastRun(c, size, tail, a, b, data1[..], data2[..], next[..]);
      var offset := SeqOff(data1[head], seqno1);
      var loc := (head + offset) % size;
      if data2[tail] != -1 && IncSeq(data2[tail]) == seqno1 {
        ExtendTail(seqno1, seqno2, a, b);
      } else {
        Append(tail, loc, seqno1, seqno2, c.owner[tail], a, b);
      }
    }

    /** The first run goes to slot 0. */
    method InsertFirst(seqno1: int, seqno2: int, ghost a: int, ghost b: int)
      requires Valid() && Reaches(c, size, a, b) && seqno1 == Num(a) && seqno2 == Num(b) && length == 0
      modifies this, data1, data2, next, prior
      ensures Valid() && Elems() == old(Elems()) + Range(a, b)
    {
      hide Slot, Num, Members, Wellformed, Stored;
      EmptyChain(c, size);
      Rebase(c, size, a, data1[..], data2[..], next[..]);
      c := c.(origin := a);
      Append(-1, 0, seqno1, seqno2, NIL, a, b);
    }

    /** A new run a..b in slot loc, after the last run p in slot i (p is NIL when the list is empty). */
    method Append(i: int, loc: int, seqno1: int, seqno2: int, ghost p: int, ghost a: int, ghost b: int)
      requires Valid() && Reaches(c, size, a, b) && seqno1 == Num(a) && seqno2 == Num(b)
      requires a !in c.hi && loc == At(c, size, a) && Gap(c, p, a) && i == Loc(c, size, p)
      requires if p == NIL then c.first == NIL else c.succ[p] == NIL
      modifies this`length, this`c, this`head, this`tail, data1, data2, next, prior
      ensures Valid() && Elems() == old(Elems()) + Range(a, b)
    {
      hide Slot, Num, Members, SeqLen, Wellformed, Reaches, Stored, BackStored, InsertRun;
      ghost var d1, d2, nx, pr := data1[..], data2[..], next[..], prior[..];
      AppendEffect(c, size, p, a, b, d1, d2, nx, pr);
      NewNode(i, loc, seqno1, seqno2);
      length := length + SeqLen(seqno1, seqno2);
      c := InsertRun(c, size, p, a, b);
      assert data2[..] == d2[loc := if seqno1 == seqno2 then -1 else seqno2];
      assert next[..] == if p == NIL then nx[loc := -1] else nx[loc := -1][i := loc];
    }

    /** Writes a node into slot loc, whatever the slot holds, and links it behind the one in slot i, if there is one. */
    method NewNode(i: int, loc: int, seqno1: int, seqno2: int)
      requires Shape() && 0 <= loc < size && -1 <= i < size
      modifies this`head, this`tail, data1, data2, next, prior
      ensures data1[..] == old(data1[..])[loc := seqno1]
      ensures data2[..] == if seqno2 == seqno1 then old(data2[..]) else old(data2[..])[loc := seqno2]
      ensures next[..] == (if i == -1 then old(next[..]) else old(next[..])[i := loc])[loc := -1]
      ensures prior[..] == old(prior[..])[loc := i]
      ensures tail == loc && head == if i == -1 then loc else old(head)
    {
      data1[loc] := seqno1;
      if seqno2 != seqno1 {
        data2[loc] := seqno2;
      }
      if i == -1 {
        head := loc;
      } else {
        next[i] := loc;
      }
      prior[loc] := i;
      next[loc] := -1;
      tail := loc;
    }

    /** a..b continues the last run. */
    method ExtendTail(seqno1: int, seqno2: int, ghost a: int, ghost b: int)
      requires Valid() && Reaches(c, size, a, b) && seqno1 == Num(a) && seqno2 == Num(b)
      requires c.first != NIL && c.owner[tail] in c.hi && c.hi[c.owner[tail]] == a - 1
      modifies this`length, this`c, data2
      ensures Valid() && Elems() == old(Elems()) + Range(a, b)
    {
      hide Slot, Num, Members, SeqLen, Wellformed, Reaches, Stored, BackStored;
      ghost var l, d2 := c.owner[tail], data2[..];
      ExtendEffect(c, size, tail, a, b, data1[..], d2, next[..], prior[..]);
      data2[tail] := seqno2;
      length := length + SeqLen(seqno1, seqno2);
      assert data2[..] == d2[tail := seqno2];
      c := SetEnd(c, l, b);
    }

    /** Takes one number off the list; true when it was there. */
    method Remove(seqno: int, ghost n: int) returns (found: bool)
      requires Valid() && 0 <= n && seqno == Wire(n)
      requires forall x | x in Elems() :: Near(x, n)
      modifies this, data1, data2, next, prior
      ensures Valid() && Elems() == old(Elems()) - {n}
      ensures found <==> n in old(Elems())
    {
      hide Slot, Num, Wire, Members, SeqOff, Wellformed, Stored, BackStored, NearAll;
      WireIsNum(n);
      if length == 0 {
        assert Elems() == {};
        return false;
      }
      HeadNumber(c, size, data1[..], data2[..], next[..]);
      FirstFacts(c, size, data1[..], data2[..], next[..]);
      NearFromMembers(c, size, n);
      NearFacts(c, size, n, c.first);
      var offset := SeqOff(data1[head], seqno);
      if offset < 0 {
        return false;
      }
      AheadSlot(c, size, n, c.first);
      var loc := (head + offset) % size;
      SlotHolds(c, size, n, data1[..], data2[..], next[..]);
      if seqno == data1[loc] {
        NodeAt(c, size, NIL, data1[..], data2[..], next[..], n);
        RunAt(c, size, NIL, n);
        if data2[loc] == -1 {
          RemoveSingle(loc, n);
        } else {
          RemoveStart(loc, n);
        }
        return true;
      }
      assert n !in c.hi;
      found := RemoveInside(loc, seqno, n);
    }

    /** The run in slot loc is the single number l: unlink it. */
    method RemoveSingle(loc: int, ghost l: int)
      requires Valid() && l in c.hi && loc == At(c, size, l) && c.hi[l] == l
      modifies this`length, this`c, this`head, this`tail, data1, next, prior
      ensures Valid() && Elems() == old(Elems()) - {l} && l in old(Elems())
    {
      hide Slot, Num, Members, SeqLen, Wellformed, Stored, BackStored, Unlink;
      ghost var d1, d2, nx, pr := data1[..], data2[..], next[..], prior[..];
      RunAt(c, size, NIL, l);
      UnlinkBothWays(c, size, l, tail, d1, d2, nx, pr);
      if head == loc {
        head := next[head];
        if head != -1 {
          prior[head] := -1;
        }
      } else {
        next[prior[loc]] := next[loc];
        if next[loc] != -1 {
          prior[next[loc]] := prior[loc];
        } else {
          tail := prior[loc];
        }
      }
      data1[loc] := -1;
      length := length - 1;
      ghost var p, m := c.pred[l], c.succ[l];
      assert data1[..] == d1[loc := -1] && data2[..] == d2[loc := -1];
      assert next[..] == if p == NIL then nx else nx[At(c, size, p) := nx[loc]];
      assert prior[..] == if m == NIL then pr else pr[At(c, size, m) := pr[loc]];
      c := Unlink(c, size, l);
    }

    /** The run in slot loc starts with l and goes on: move it to the next slot. */
    method RemoveStart(loc: int, ghost l: int)
      requires Valid() && l in c.hi && loc == At(c, size, l) && l < c.hi[l]
      modifies this`length, this`c, this`head, this`tail, data1, data2, next, prior
      ensures Valid() && Elems() == old(Elems()) - {l} && l in old(Elems())
    {
      hide Slot, Num, Members, SeqCmp, IncSeq, Wellformed, Stored, BackStored, Advance;
      ghost var d1, d2, nx, pr := data1[..], data2[..], next[..], prior[..];
      RunAt(c, size, NIL, l);
      AdvanceBothWays(c, size, l, tail, d1, d2, nx, pr);
      var i := (loc + 1) % size;
      data1[i] := IncSeq(data1[loc]);
      if SeqCmp(data2[loc], IncSeq(data1[loc])) > 0 {
        data2[i] := data2[loc];
      }
      data1[loc] := -1;
      data2[loc] := -1;
      assert data1[..] == d1[i := Num(l + 1)][loc := -1];
      assert data2[..] == d2[i := if c.hi[l] == l + 1 then -1 else Num(c.hi[l])][loc := -1];
      RelinkMoved(loc, i, l);
      length := length - 1;
      c := Advance(c, size, l);
    }

    /** Points the neighbours of the run at l, in slot loc, to its new slot i. */
    method RelinkMoved(loc: int, i: int, ghost l: int)
      requires Shape() && 0 <= loc < size && 0 <= i < size && loc != i
      requires l in c.succ && l in c.pred
      requires next[loc] == Loc(c, size, c.succ[l]) && prior[loc] == Loc(c, size, c.pred[l])
      requires head == loc <==> c.pred[l] == NIL
      requires tail == loc <==> c.succ[l] == NIL
      requires c.pred[l] != NIL ==> At(c, size, c.pred[l]) != i
      modifies this`head, this`tail, next, prior
      ensures head == (if c.pred[l] == NIL then i else old(head))
      ensures tail == (if c.succ[l] == NIL then i else old(tail))
      ensures
        var nx' := old(next[..])[i := old(next[loc])];
        next[..] == if c.pred[l] == NIL then nx' else nx'[At(c, size, c.pred[l]) := i]
      ensures
        var pr' := old(prior[..])[i := old(prior[loc])];
        prior[..] == if c.succ[l] == NIL then pr' else pr'[At(c, size, c.succ[l]) := i]
    {
      hide Slot;
      next[i] := next[loc];
      prior[i] := prior[loc];
      if head == loc {
        head := i;
      } else {
        next[prior[i]] := i;
      }
      if tail == loc {
        tail := i;
      } else {
        prior[next[i]] := i;
      }
    }

    /** Walks back over empty slots from the one before loc0. */
    method SearchBack(loc0: int, ghost n: int) returns (i: int, ghost j: int)
      requires Valid() && loc0 == At(c, size, n) && c.first in c.hi && c.first < n
      ensures 0 <= i < size && i == At(c, size, j) && c.first <= j < n && data1[i] != -1
      ensures forall k | j < k < n :: data1[At(c, size, k)] == -1
    {
      hide Slot, Before, Num, Wellformed, Stored, BackStored;
      RunAt(c, size, NIL, c.first);
      FirstFacts(c, size, data1[..], data2[..], next[..]);
      BackOne(c, size, n);
      i := Before(loc0, size);
      j := n - 1;
      while data1[i] == -1
        invariant i == At(c, size, j) && c.first <= j < n
        invariant forall k | j < k < n :: data1[At(c, size, k)] == -1
        decreases j
      {
        BackOne(c, size, j);
        i := Before(i, size);
        j := j - 1;
      }
    }

    /** No run starts at seqno: look for the run before slot loc and take seqno out of its middle or end. */
    method RemoveInside(loc0: int, seqno: int, ghost n: int) returns (found: bool)
      requires Valid() && NearAll(c, n) && seqno == Num(n) && loc0 == At(c, size, n)
      requires c.first in c.hi && c.first < n && n !in c.hi
      modifies this`length, this`c, this`tail, data1, data2, next, prior
      ensures Valid() && Elems() == old(Elems()) - {n}
      ensures found <==> n in old(Elems())
    {
      hide Slot, Num, Members, SeqCmp, IncSeq, DecSeq, Wellformed, Stored, BackStored, NearAll;
      var i: int;
      ghost var j: int;
      i, j := SearchBack(loc0, n);
      ghost var l := FoundBefore(c, size, n, j, data1[..], data2[..], next[..]);
      if data2[i] == -1 || SeqCmp(seqno, data2[i]) > 0 {
        return false;
      }
      if seqno == data2[i] {
        TrimEnd(i, seqno, l, n);
      } else {
        AheadSlot(c, size, n + 1, n);
        CutOut(i, (loc0 + 1) % size, seqno, l, n);
      }
      return true;
    }

    /** seqno ends the run at l, in slot i. */
    method TrimEnd(i: int, seqno: int, ghost l: int, ghost n: int)
      requires Valid() && l in c.hi && i == At(c, size, l) && l < n == c.hi[l] && seqno == Num(n)
      modifies this`length, this`c, data2
      ensures Valid() && Elems() == old(Elems()) - {n} && n in old(Elems())
    {
      hide Slot, Num, Members, IncSeq, DecSeq, Wellformed, Stored, BackStored;
      ghost var d2 := data2[..];
      RunAt(c, size, NIL, l);
      TrimEffect(c, size, l, tail, data1[..], d2, next[..], prior[..]);
      if seqno == IncSeq(data1[i]) {
        data2[i] := -1;
      } else {
        data2[i] := DecSeq(seqno);
      }
      length := length - 1;
      assert data2[..] == d2[i := if n - 1 == l then -1 else Num(n - 1)];
      c := SetEnd(c, l, n - 1);
    }

    /** The run in slot i ends before seqno, and slot loc takes over what follows it. */
    method CutData(i: int, loc: int, seqno: int)
      requires Shape() && 0 <= i < size && 0 <= loc < size && i != loc
      modifies data1, data2
      ensures data1[..] == old(data1[..])[loc := IncSeq(seqno)]
      ensures data2[..] ==
        old(data2[..])[loc := if SeqCmp(old(data2[i]), IncSeq(seqno)) > 0 then old(data2[i]) else old(data2[loc])]
                      [i := if seqno == IncSeq(old(data1[i])) then -1 else DecSeq(seqno)]
    {
      hide SeqCmp, IncSeq, DecSeq;
      data1[loc] := IncSeq(seqno);
      if SeqCmp(data2[i], data1[loc]) > 0 {
        data2[loc] := data2[i];
      }
      if seqno == IncSeq(data1[i]) {
        data2[i] := -1;
      } else {
        data2[i] := DecSeq(seqno);
      }
    }

    /** Links slot loc in behind slot i. */
    method CutLinks(i: int, loc: int)
      requires Shape() && 0 <= i < size && 0 <= loc < size && i != loc
      requires tail != i ==> 0 <= next[i] < size
      modifies this`tail, next, prior
      ensures next[..] == old(next[..])[loc := old(next[i])][i := loc]
      ensures tail == if old(tail) == i then loc else old(tail)
      ensures prior[..] == if old(tail) == i then old(prior[..])[loc := i] else old(prior[..])[loc := i][old(next[i]) := loc]
    {
      next[loc] := next[i];
      next[i] := loc;
      prior[loc] := i;
      if tail == i {
        tail := loc;
      } else {
        prior[next[loc]] := loc;
      }
    }

    /** seqno lies strictly inside the run at l, in slot i: what follows it becomes a run in slot loc. */
    method CutOut(i: int, loc: int, seqno: int, ghost l: int, ghost n: int)
      requires Valid() && l in c.hi && i == At(c, size, l) && l < n < c.hi[l] && seqno == Num(n)
      requires loc == At(c, size, n + 1)
      modifies this`length, this`c, this`tail, data1, data2, next, prior
      ensures Valid() && Elems() == old(Elems()) - {n} && n in old(Elems())
    {
      hide Slot, Num, Members, SeqCmp, IncSeq, DecSeq, Wellformed, Stored, BackStored, Split;
      ghost var d1, d2, nx, pr := data1[..], data2[..], next[..], prior[..];
      RunAt(c, size, NIL, l);
      ghost var m := c.succ[l];
      SplitBothWays(c, size, l, n, tail, d1, d2, nx, pr);
      ghost var c1 := Split(c, size, l, n);
      ghost var e2 := d2[i := Num(n)][loc := if c.hi[l] == n + 1 then -1 else Num(c.hi[l])];
      ghost var q := pr[loc := i];
      ghost var q' := if m == NIL then q else q[At(c, size, m) := loc];
      TrimEffect(c1, size, l, if m == NIL then loc else tail, d1[loc := Num(n + 1)], e2, nx[loc := nx[i]][i := loc], q');
      CutData(i, loc, seqno);
      CutLinks(i, loc);
      length := length - 1;
      assert data2[..] == e2[i := if n - 1 == l then -1 else Num(n - 1)];
      assert prior[..] == q';
      c := SetEnd(c1, l, n - 1);
    }

    /** The lost runs in increasing order. */
    ghost function Losses(): (rs: seq<Interval>)
      requires Valid()
      reads this, data1, data2, next, prior
      ensures Increasing(rs) && Union(rs) == Elems()
    {
      if c.first != NIL then
        RunsIncrease(c, size, c.first);
        RunsCover(c, size, c.first);
        FromFirst(c, size);
        RunsFrom(c, size, c.first)
      else
        FirstIsNil(c, size);
        []
    }

    method GetLossLength() returns (n: int)
      requires Valid()
      ensures n == |Elems()| && (n == 0 <==> Elems() == {})
    {
      n := length;
    }

    /** The smallest lost number, or -1. */
    method GetFirstLostSeq() returns (seqno: int, ghost n: int)
      requires Valid()
      ensures Elems() == {} ==> seqno == -1
      ensures Elems() != {} ==>
        n in Elems() && 0 <= n && seqno == Wire(n) && forall x | x in Elems() :: n <= x
    {
      hide Members, Wellformed, Stored, Wire, Num, Slot;
      n := c.first;
      if length == 0 {
        return -1, n;
      }
      HeadNumber(c, size, data1[..], data2[..], next[..]);
      return data1[head], n;
    }

    /** Whether any number in seqno1..seqno2 is lost. */
    method Find(seqno1: int, seqno2: int, ghost a: int, ghost b: int) returns (found: bool)
      requires Valid() && 0 <= a <= b && seqno1 == Wire(a) && seqno2 == Wire(b)
      requires forall x | x in Elems() :: Near(x, a) && Near(x, b)
      ensures found <==> exists x :: x in Elems() && a <= x <= b
    {
      hide Slot, Num, Wire, Members, SeqCmp, Wellformed, Stored, BackStored, NearAll;
      WireIsNum(a);
      WireIsNum(b);
      NearFromMembers(c, size, a);
      NearFromMembers(c, size, b);
      var p := head;
      ghost var l := c.first;
      FirstIsNilOrRun(c, size);
      while p != -1
        invariant l == NIL || l in c.hi
        invariant p == Loc(c, size, l)
        invariant forall x | x in Members(c.hi) && (l == NIL || x < l) :: !(a <= x <= b)
        decreases if l == NIL then 0 else c.first + size - l + 1
      {
        NodeAt(c, size, NIL, data1[..], data2[..], next[..], l);
        RunAt(c, size, NIL, l);
        FindFacts(c, size, l, a, b);
        if SeqCmp(data1[p], seqno1) == 0
        || (SeqCmp(data1[p], seqno1) > 0 && SeqCmp(data1[p], seqno2) <= 0)
        || (SeqCmp(data1[p], seqno1) < 0 && data2[p] != -1 && SeqCmp(data2[p], seqno1) >= 0) {
          FoundRun(c, l, a, b);
          assert Elems() == Members(c.hi);
          return true;
        }
        p := next[p];
        PastRun(c, size, l, a, b);
        l := c.succ[l];
      }
      return false;
    }

    /** One entry of the loss report. */
    static method PutRun(arr: array<int>, at: int, v1: int, v2: int, ghost iv: Interval) returns (len: int)
      requires 0 <= at && at + 1 < arr.Length && 0 <= iv.lo <= iv.hi
      requires v1 == Wire(iv.lo) && v2 == (if iv.lo == iv.hi then -1 else Wire(iv.hi))
      modifies arr
      ensures at < len <= at + 2 && arr[..len] == old(arr[..at]) + EncodeOne(iv)
      ensures forall j | len <= j < arr.Length :: arr[j] == old(arr[j])
    {
      len := at;
      arr[len] := v1;
      if v2 != -1 {
        arr[len] := arr[len] + FLAG;
        len := len + 1;
        arr[len] := v2;
      }
      len := len + 1;
    }

    lemma LossesAre()
      requires Valid()
      ensures Losses() == RunsFrom(c, size, c.first)
      ensures forall i | 0 <= i < |Losses()| :: 0 <= Losses()[i].lo <= Losses()[i].hi
    {
    }

    /** Writes the loss report: the leading runs, each for as long as two words are left. */
    method GetLossArray(arr: array<int>, limit: int) returns (len: int, ghost k: int)
      requires Valid() && limit <= arr.Length
      requires arr != data1 && arr != data2 && arr != next && arr != prior
      modifies arr
      ensures Valid() && 0 <= k <= |Losses()| && 0 <= len <= arr.Length && (0 < len ==> len <= limit)
      ensures arr[..len] == Encode(Losses()[..k])
      ensures StopsAt(Losses(), k, limit)
      ensures forall i | len <= i < arr.Length :: arr[i] == old(arr[i])
    {
      hide Slot, Num, Members, Wellformed, Stored, BackStored, Encode, Losses, Increasing, Union;
      len := 0;
      k := 0;
      var i := head;
      ghost var l := c.first;
      ghost var rs := Losses();
      LossesAre();
      EncodeNone(rs);
      FirstIsNilOrRun(c, size);
      while len < limit - 1 && i != -1
        invariant l == NIL || l in c.hi
        invariant i == Loc(c, size, l) && 0 <= k <= |rs| && rs[k..] == RunsFrom(c, size, l)
        invariant 0 <= len <= arr.Length && (0 < len ==> len <= limit)
        invariant Valid() && rs == Losses()
        invariant arr[..len] == Encode(rs[..k]) && (k > 0 ==> |Encode(rs[..k - 1])| < limit - 1)
        invariant forall j | len <= j < arr.Length :: arr[j] == old(arr[j])
        decreases |rs| - k
      {
        NodeAt(c, size, NIL, data1[..], data2[..], next[..], l);
        RunAt(c, size, NIL, l);
        NumIsWire(c, size, l);
        ghost var before := arr[..len];
        len := PutRun(arr, len, data1[i], data2[i], Interval(l, c.hi[l]));
        i := next[i];
        assert rs[k] == Interval(l, c.hi[l]);
        EncodeAppend(rs, k);
        assert rs[k + 1..] == rs[k..][1..];
        l := c.succ[l];
        k := k + 1;
      }
    }
  }
}
