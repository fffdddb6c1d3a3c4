/** The sender's loss list (CSndLossList). Sequence numbers are passed as they travel, with the unbounded numbers
    they stand for as ghost arguments. */
module SndLossListModule {
  import opened SeqNo
  import opened Ring
  import opened Runs
  import opened Chain

  class SndLossList {
    const size: int
    const data1: array<int>
    const data2: array<int>
    const next: array<int>
    var head: int
    var length: int
    var lastInsertPos: int
    ghost var c: Chain

    ghost predicate Shape() {
      && size > 0
      && data1.Length == data2.Length == next.Length == size
      && data1 != data2 && data1 != next && data2 != next
    }

    /** The arrays hold the chain c; the run at loose may overlap its successors. */
    ghost predicate Threaded(loose: int)
      reads this, data1, data2, next
    {
      && Shape()
      && Wellformed(c, size, loose)
      && Stored(c, size, data1[..], data2[..], next[..])
      && (lastInsertPos != -1 ==> lastInsertPos in c.owner)
    }

    ghost predicate Linked(loose: int)
      reads this, data1, data2, next
    {
      Threaded(loose) && head == Loc(c, size, c.first)
    }

    ghost predicate Valid()
      reads this, data1, data2, next
    {
      Linked(NIL) && length == |Elems()|
    }

    /** The lost sequence numbers, as unbounded numbers. */
    ghost function Elems(): set<int>
      reads this
    {
      Members(c.hi)
    }

    /** a..b together with everything stored fits the arrays and the comparison threshold. */
    ghost predicate Fits(a: int, b: int)
      reads this
    {
      && 0 <= a <= b
      && Spans(a, b, size)
      && forall x | x in Elems() :: Spans(a, x, size) && Spans(x, b, size)
    }

    /** Numbers within one window fit. */
    lemma FitsIn(base: int, a: int, b: int, window: int)
      requires 0 <= base <= a <= b < base + window && window <= size && window < SEQ_TH
      requires forall x | x in Elems() :: base <= x < base + window
      ensures Fits(a, b)
    {
      hide Members;
    }

    constructor (capacity: int)
      requires capacity > 0
      ensures Valid() && Elems() == {} && size == capacity
      ensures fresh(data1) && fresh(data2) && fresh(next)
    {
      size := capacity;
      data1 := new int[capacity](_ => -1);
      data2 := new int[capacity](_ => -1);
      next := new int[capacity](_ => -1);
      head := -1;
      length := 0;
      lastInsertPos := -1;
      c := Chain(NIL, map[], map[], map[], 0, map[]);
    }

    /** Ready for coalescing: the run at l may overlap its successors, whose numbers are counted twice. */
    ghost predicate Pending(loc: int, l: int)
      reads this, data1, data2, next
    {
      && Linked(l) && l in c.hi && loc == At(c, size, l) && lastInsertPos == loc
      && length == |Members(c.hi - {l})| + c.hi[l] - l + 1
    }

    /** Nothing is left to coalesce once the run at l stops short of its successor. */
    lemma Settle(loc: int, l: int)
      requires Pending(loc, l) && l in c.succ && (c.succ[l] == NIL || c.hi[l] < c.succ[l])
      ensures Valid()
    {
      hide Slot, Members, Stored;
      RunAt(c, size, l, l);
      Tighten(c, l);
      Disjoint(c, NIL, l);
      DropRun(c.hi, l);
    }

    /** What the shortcut through the last insertion reads. */
    lemma LastInsertFacts(a: int, b: int)
      requires Valid() && Reaches(c, size, a, b) && lastInsertPos != -1
      ensures 0 <= lastInsertPos < size && lastInsertPos in c.owner
      ensures
        var y := c.owner[lastInsertPos];
        && y in c.hi && lastInsertPos == At(c, size, y)
        && (SeqCmp(data1[lastInsertPos], Num(a)) < 0 <==> y < a)
    {
      hide Slot, Wire, Stored, SeqCmp;
      var y := c.owner[lastInsertPos];
      RunFacts(c, size, a, b, y);
      NodeAt(c, size, NIL, data1[..], data2[..], next[..], y);
    }

    /** Coalesces the run at l, in slot loc, with the runs it reaches. */
    method Coalesce(loc: int, ghost l: int)
      requires Pending(loc, l)
      modifies this`length, this`c, data1, data2, next
      ensures Valid() && Elems() == old(Elems())
    {
      hide Slot, At, Num, Members, Merge, Placed, Spanned, Stored, SeqCmp, SeqLen, IncSeq;
      var more := true;
      while more && next[loc] != -1 && data2[loc] != -1
        invariant Pending(loc, l)
        invariant Elems() == old(Elems())
        invariant !more ==> l in c.succ && (c.succ[l] == NIL || c.hi[l] < c.succ[l])
        decreases more, |c.hi|
      {
        more := AbsorbNext(loc, l);
      }
      NodeAt(c, size, l, data1[..], data2[..], next[..], l);
      RunAt(c, size, l, l);
      Settle(loc, l);
    }

    /** One round of the coalescing loop; more is false when the next node is out of reach. */
    method AbsorbNext(loc: int, ghost l: int) returns (more: bool)
      requires Pending(loc, l)
      requires next[loc] != -1 && data2[loc] != -1
      modifies this`length, this`c, data1, data2, next
      ensures Pending(loc, l)
      ensures Elems() == old(Elems())
      ensures more ==> |c.hi| < old(|c.hi|)
      ensures !more ==> l in c.succ && (c.succ[l] == NIL || c.hi[l] < c.succ[l])
    {
      hide Slot, Num, Members, Stored, SeqCmp, SeqLen, IncSeq, Wellformed, Merge;
      ghost var n := if l in c.succ then c.succ[l] else NIL;
      ghost var d1, d2, nx := data1[..], data2[..], next[..];
      NextFacts(c, size, l, d1, d2, nx);
      var i := next[loc];
      if SeqCmp(data1[i], IncSeq(data2[loc])) <= 0 {
        MergeEffect(c, size, l, d1, d2, nx);
        if data2[i] != -1 {
          if SeqCmp(data2[i], data2[loc]) > 0 {
            if SeqCmp(data2[loc], data1[i]) >= 0 {
              length := length - SeqLen(data1[i], data2[loc]);
            }
            data2[loc] := data2[i];
          } else {
            length := length - SeqLen(data1[i], data2[i]);
          }
        } else if data1[i] == IncSeq(data2[loc]) {
          data2[loc] := data1[i];
        } else {
          length := length - 1;
        }
        data1[i] := -1;
        data2[i] := -1;
        next[loc] := next[i];
        c := Merge(c, size, l);
        assert data1[..] == d1[i := -1] && next[..] == nx[loc := nx[i]];
        assert data2[..] == d2[loc := Num(c.hi[l])][i := -1];
        more := true;
      } else {
        more := false;
      }
    }

    /** Walks the links from the run at l0 to the last run that starts before a. */
    method WalkTo(start: int, seqno: int, ghost l0: int, ghost a: int) returns (i: int, ghost l: int)
      requires Linked(NIL) && NearAll(c, a) && seqno == Num(a)
      requires l0 in c.hi && l0 < a && start == At(c, size, l0)
      ensures l in c.hi && l in c.succ && i == At(c, size, l) && l < a && (c.succ[l] == NIL || a <= c.succ[l])
    {
      hide Slot, Num, SeqCmp, SeqOff, SeqLen, Chained, Placed, Spanned, Stored, NearAll;
      i := start;
      l := l0;
      NodeAt(c, size, NIL, data1[..], data2[..], next[..], l);
      RunAt(c, size, NIL, l);
      if next[i] != -1 {
        NearFacts(c, size, a, c.succ[l]);
        NodeAt(c, size, NIL, data1[..], data2[..], next[..], c.succ[l]);
      }
      while next[i] != -1 && SeqCmp(data1[next[i]], seqno) < 0
        invariant l in c.hi && l in c.succ && i == At(c, size, l) && l < a
        invariant Link(c, NIL, l)
        invariant Node(c, size, l, data1[i], data2[i], next[i])
        invariant next[i] == -1 <==> c.succ[l] == NIL
        invariant next[i] != -1 ==>
          && c.succ[l] in c.hi && 0 <= next[i] < size && data1[next[i]] == Num(c.succ[l])
          && (SeqCmp(data1[next[i]], seqno) < 0 <==> c.succ[l] < a)
        decreases a - l
      {
        i := next[i];
        l := c.succ[l];
        NodeAt(c, size, NIL, data1[..], data2[..], next[..], l);
        RunAt(c, size, NIL, l);
        if next[i] != -1 {
          NearFacts(c, size, a, c.succ[l]);
          NodeAt(c, size, NIL, data1[..], data2[..], next[..], c.succ[l]);
        }
      }
    }

    /** A new run a..b in the free slot loc, linked in after the run p in slot i, or as the head when p is NIL. */
    method AddNode(i: int, loc: int, seqno1: int, seqno2: int, ghost p: int, ghost a: int, ghost b: int)
      requires Valid() && Reaches(c, size, a, b) && seqno1 == Num(a) && seqno2 == Num(b)
      requires a !in c.hi && loc == At(c, size, a) && Gap(c, p, a)
      requires i == Loc(c, size, p)
      modifies this`length, this`c, this`head, this`lastInsertPos, data1, data2, next
      ensures Pending(loc, a) && Elems() == old(Elems()) + Range(a, b)
      ensures c == InsertRun(old(c), size, p, a, b)
    {
      hide Slot, Num, Members, SeqLen, Wellformed, Reaches, Stored, InsertRun;
      ghost var d1, d2, nx := data1[..], data2[..], next[..];
      InsertEffect(c, size, p, a, b, d1, d2, nx);
      lastInsertPos := loc;
      data1[loc] := seqno1;
      if seqno2 != seqno1 {
        data2[loc] := seqno2;
      }
      if i == -1 {
        next[loc] := head;
        head := loc;
      } else {
        next[loc] := next[i];
        next[i] := loc;
      }
      length := length + SeqLen(seqno1, seqno2);
      c := InsertRun(c, size, p, a, b);
      assert data1[..] == d1[loc := seqno1] && data2[..] == d2[loc := if seqno1 == seqno2 then -1 else seqno2];
    }

    /** Moves the end of the run at l, in slot loc, up to b. */
    method Grow(loc: int, seqno1: int, seqno2: int, ghost l: int, ghost a: int, ghost b: int)
      requires Valid() && Reaches(c, size, a, b) && seqno1 == Num(a) && seqno2 == Num(b)
      requires l in c.hi && l <= a <= c.hi[l] < b && loc == At(c, size, l) && lastInsertPos == loc
      modifies this`length, this`c, data2
      ensures Pending(loc, l) && Elems() == old(Elems()) + Range(a, b)
    {
      hide Slot, Num, Members, SeqLen, Wellformed, Reaches, Stored;
      GrowEffect(c, size, l, a, b, data1[..], data2[..], next[..]);
      if data2[loc] == -1 {
        // only reached when a..b starts where the run does
        length := length + SeqLen(seqno1, seqno2) - 1;
      } else {
        length := length + SeqLen(data2[loc], seqno2) - 1;
      }
      ghost var d2 := data2[..];
      data2[loc] := seqno2;
      assert data2[..] == d2[loc := seqno2];
      c := SetEnd(c, l, b);
    }

    /** The first run goes to slot 0. */
    method InsertFirst(seqno1: int, seqno2: int, ghost a: int, ghost b: int)
      requires Valid() && Reaches(c, size, a, b) && seqno1 == Num(a) && seqno2 == Num(b) && length == 0
      modifies this, data1, data2, next
      ensures Valid() && Elems() == old(Elems()) + Range(a, b)
    {
      hide Slot, Num, Members, Wellformed, Stored;
      EmptyChain(c, size);
      Rebase(c, size, a, data1[..], data2[..], next[..]);
      c := c.(origin := a);
      AddNode(-1, 0, seqno1, seqno2, NIL, a, b);
      Settle(0, a);
    }

    /** Adds seqno1..seqno2 and returns how many of them were not in the list. */
    method Insert(seqno1: int, seqno2: int, ghost a: int, ghost b: int) returns (added: int)
      requires Valid() && Fits(a, b) && seqno1 == Wire(a) && seqno2 == Wire(b)
      modifies this, data1, data2, next
      ensures Valid() && Elems() == old(Elems()) + Range(a, b)
      ensures added == |Elems()| - |old(Elems())|
    {
      hide Slot, Num, Wire, Members, SeqCmp, SeqOff, SeqLen, Wellformed, Stored, Reaches;
      WireIsNum(a);
      WireIsNum(b);
      ReachesFromMembers(c, size, a, b);
      if length == 0 {
        InsertFirst(seqno1, seqno2, a, b);
        return length;
      }
      HeadFacts(c, size, a, b, data1[..], data2[..], next[..]);
      var origlen := length;
      var offset := SeqOff(data1[head], seqno1);
      var loc := (head + offset + size) % size;
      if offset < 0 {
        AddNode(-1, loc, seqno1, seqno2, NIL, a, b);
        Coalesce(loc, a);
      } else if offset > 0 {
        added := InsertPastHead(loc, seqno1, seqno2, a, b);
      } else {
        lastInsertPos := head;
        added := InsertAtRun(loc, seqno1, seqno2, a, b);
      }
      return length - origlen;
    }

    /** seqno1 starts the run in slot loc: take the longer of the two ends. */
    method InsertAtRun(loc: int, seqno1: int, seqno2: int, ghost a: int, ghost b: int) returns (added: int)
      requires Valid() && Reaches(c, size, a, b) && seqno1 == Num(a) && seqno2 == Num(b)
      requires a in c.hi && loc == At(c, size, a) && lastInsertPos == loc
      modifies this`length, this`c, data1, data2, next
      ensures Valid() && Elems() == old(Elems()) + Range(a, b)
      ensures added == |Elems()| - |old(Elems())|
    {
      hide Slot, Num, Members, SeqCmp, SeqOff, SeqLen, Wellformed, Stored, Reaches;
      AtRunFacts(c, size, a, a, b, data1[..], data2[..], next[..]);
      var origlen := length;
      if data2[loc] == -1 {
        if seqno2 == seqno1 {
          return 0;
        }
      } else if SeqCmp(seqno2, data2[loc]) <= 0 {
        return 0;
      }
      Grow(loc, seqno1, seqno2, a, a, b);
      Coalesce(loc, a);
      return length - origlen;
    }

    /** seqno1 lies past the head: it starts a run, extends the run before it, or becomes a run of its own. */
    method InsertPastHead(loc: int, seqno1: int, seqno2: int, ghost a: int, ghost b: int) returns (added: int)
      requires Valid() && Reaches(c, size, a, b) && seqno1 == Num(a) && seqno2 == Num(b)
      requires length != 0 && c.first < a && loc == At(c, size, a)
      modifies this`length, this`c, this`head, this`lastInsertPos, data1, data2, next
      ensures Valid() && Elems() == old(Elems()) + Range(a, b)
      ensures added == |Elems()| - |old(Elems())|
    {
      hide Slot, Num, Members, SeqCmp, SeqOff, SeqLen, Wellformed, Stored, Reaches;
      SlotOfNew(c, size, a, b, data1[..], data2[..], next[..]);
      if seqno1 == data1[loc] {
        lastInsertPos := loc;
        RunAt(c, size, NIL, a);
        added := InsertAtRun(loc, seqno1, seqno2, a, b);
        return;
      }
      HeadFacts(c, size, a, b, data1[..], data2[..], next[..]);
      ReachesIsNear(c, size, a, b);
      var i: int;
      ghost var l: int;
      if lastInsertPos != -1 {
        LastInsertFacts(a, b);
      }
      if lastInsertPos != -1 && SeqCmp(data1[lastInsertPos], seqno1) < 0 {
        i, l := WalkTo(lastInsertPos, seqno1, c.owner[lastInsertPos], a);
      } else {
        i, l := WalkTo(head, seqno1, c.first, a);
      }
      AtRunFacts(c, size, l, a, b, data1[..], data2[..], next[..]);
      var origlen := length;
      if data2[i] == -1 || SeqCmp(data2[i], seqno1) < 0 {
        AddNode(i, loc, seqno1, seqno2, l, a, b);
        Coalesce(loc, a);
      } else {
        lastInsertPos := i;
        if SeqCmp(data2[i], seqno2) < 0 {
          Grow(i, seqno1, seqno2, l, a, b);
          Coalesce(i, l);
        } else {
          return 0;
        }
      }
      return length - origlen;
    }

    /** Moves the head run of several numbers to the next slot, dropping its first number. */
    method ShiftHead(seqno: int)
      requires Valid() && c.first != NIL && seqno == Num(c.first)
      requires c.first in c.hi && c.first < c.hi[c.first] && lastInsertPos != head
      modifies this`length, this`c, this`head, data1, data2, next
      ensures Valid() && old(c.first) in old(Elems()) && Elems() == old(Elems()) - {old(c.first)}
    {
      hide Slot, Num, Members, SeqCmp, IncSeq, Wellformed, Stored, Advance;
      ghost var l, d1, d2, nx := c.first, data1[..], data2[..], next[..];
      FirstFacts(c, size, d1, d2, nx);
      AdvanceEffect(c, size, l, d1, d2, nx);
      ghost var s := head;
      var loc := (head + 1) % size;
      data1[loc] := IncSeq(seqno);
      if SeqCmp(data2[head], data1[loc]) > 0 {
        data2[loc] := data2[head];
      }
      data1[head] := -1;
      data2[head] := -1;
      next[loc] := next[head];
      head := loc;
      length := length - 1;
      assert data1[..] == d1[loc := Num(l + 1)][s := -1] && next[..] == nx[loc := nx[s]];
      assert data2[..] == d2[loc := if c.hi[l] == l + 1 then -1 else Num(c.hi[l])][s := -1];
      c := Advance(c, size, l);
    }

    /** Takes out the smallest number: the whole head run if it is a single number, else its first number. */
    method PopHead(seqno: int)
      requires Valid() && c.first != NIL && seqno == Num(c.first)
      modifies this`length, this`c, this`head, this`lastInsertPos, data1, data2, next
      ensures Valid() && old(c.first) in old(Elems()) && Elems() == old(Elems()) - {old(c.first)}
    {
      hide Slot, Num, Members, Wellformed, Stored, Unlink;
      ghost var l, d1, d2, nx := c.first, data1[..], data2[..], next[..];
      FirstFacts(c, size, d1, d2, nx);
      if lastInsertPos == head {
        lastInsertPos := -1;
      }
      if data2[head] == -1 {
        UnlinkEffect(c, size, l, d1, d2, nx);
        data1[head] := -1;
        assert data1[..] == d1[At(c, size, l) := -1] && d2 == d2[At(c, size, l) := -1];
        head := next[head];
        length := length - 1;
        c := Unlink(c, size, l);
      } else {
        ShiftHead(seqno);
      }
    }

    method GetLossLength() returns (n: int)
      requires Valid()
      ensures n == |Elems()| && (n == 0 <==> Elems() == {})
    {
      n := length;
    }

    /** Takes the smallest number off the list; -1 when there is none. */
    method GetLostSeq() returns (seqno: int, ghost n: int)
      requires Valid()
      modifies this, data1, data2, next
      ensures Valid()
      ensures old(Elems()) == {} ==> seqno == -1 && Elems() == {}
      ensures old(Elems()) != {} ==>
        && n in old(Elems()) && (forall x | x in old(Elems()) :: n <= x)
        && 0 <= n && seqno == Wire(n) && Elems() == old(Elems()) - {n}
    {
      hide Slot, Num, Wire, Members, Wellformed, Stored;
      n := c.first;
      if length == 0 {
        return -1, n;
      }
      HeadNumber(c, size, data1[..], data2[..], next[..]);
      seqno := data1[head];
      PopHead(seqno);
    }

    /** Drops every run from slot h0 up to the run at stop, where the head already points. */
    method DropPrefix(h0: int, ghost stop: int, ghost n: int)
      requires Threaded(NIL) && length == |Elems()|
      requires h0 == Loc(c, size, c.first) && head == Loc(c, size, stop)
      requires forall x | x in c.hi && (stop == NIL || x < stop) :: c.hi[x] <= n
      requires stop != NIL ==> stop in c.hi && n < stop
      modifies this`length, this`c, this`lastInsertPos, data1, data2
      ensures Valid() && Elems() == set x | x in old(Elems()) && x > n
    {
      hide Slot, Num, Members, SeqLen, Wellformed, Stored, Unlink;
      var h := h0;
      StopReached(c, size, stop);
      while h != head
        invariant Threaded(NIL) && length == |Elems()|
        invariant h == Loc(c, size, c.first) && head == Loc(c, size, stop)
        invariant h == head <==> c.first == stop
        invariant forall x | x in c.hi && (stop == NIL || x < stop) :: c.hi[x] <= n
        invariant stop != NIL ==> stop in c.hi && n < stop
        invariant (set x | x in Elems() && x > n) == (set x | x in old(Elems()) && x > n)
        decreases |c.hi|
      {
        h := DropHeadRun(h, stop, n);
        StopReached(c, size, stop);
      }
      NothingBelow(c, size, n);
    }

    /** One round of that loop. */
    method DropHeadRun(h: int, ghost stop: int, ghost n: int) returns (h': int)
      requires Threaded(NIL) && length == |Elems()|
      requires h == Loc(c, size, c.first) && head == Loc(c, size, stop) && c.first != stop
      requires forall x | x in c.hi && (stop == NIL || x < stop) :: c.hi[x] <= n
      requires stop != NIL ==> stop in c.hi && n < stop
      modifies this`length, this`c, this`lastInsertPos, data1, data2
      ensures Threaded(NIL) && length == |Elems()|
      ensures h' == Loc(c, size, c.first) && head == Loc(c, size, stop)
      ensures forall x | x in c.hi && (stop == NIL || x < stop) :: c.hi[x] <= n
      ensures stop != NIL ==> stop in c.hi && n < stop
      ensures (set x | x in Elems() && x > n) == old(set x | x in Elems() && x > n)
      ensures |c.hi| < old(|c.hi|)
    {
      hide Slot, Num, Members, SeqLen, Wellformed, Stored, Unlink;
      ghost var l, d1, d2, nx := c.first, data1[..], data2[..], next[..];
      PrefixFirst(c, size, stop);
      UnlinkEffect(c, size, l, d1, d2, nx);
      UnlinkBelow(c, size, l, stop, n);
      if data2[h] != -1 {
        length := length - SeqLen(data1[h], data2[h]);
        data2[h] := -1;
      } else {
        length := length - 1;
      }
      data1[h] := -1;
      if lastInsertPos == h {
        lastInsertPos := -1;
      }
      h' := next[h];
      assert data1[..] == d1[h := -1] && data2[..] == d2[h := -1];
      c := Unlink(c, size, l);
    }

    /** Cuts the run at l, in slot i, after n and points the head at the second part, in slot loc. */
    method CutAfter(i: int, loc: int, seqno: int, end: int, ghost l: int, ghost n: int)
      requires Valid() && l in c.hi && l <= n < c.hi[l] && seqno == Num(n)
      requires i == At(c, size, l) && loc == At(c, size, n + 1) && end == (if n == l then -1 else Num(n))
      modifies this`c, this`head, data1, data2, next
      ensures Threaded(NIL) && length == |Elems()| && Elems() == old(Elems()) && c.first == old(c.first)
      ensures Loc(c, size, c.first) == old(head)
      ensures n + 1 in c.hi && 0 <= n && head == Loc(c, size, n + 1)
    {
      hide Slot, Num, Members, SeqCmp, IncSeq, Wellformed, Stored, InsertRun;
      ghost var d1, d2, nx := data1[..], data2[..], next[..];
      SplitEffect(c, size, l, n, d1, d2, nx);
      data1[loc] := IncSeq(seqno);
      if SeqCmp(data2[i], data1[loc]) > 0 {
        data2[loc] := data2[i];
      }
      data2[i] := end;
      next[loc] := next[i];
      next[i] := loc;
      head := loc;
      assert data1[..] == d1[loc := Num(n + 1)] && next[..] == nx[loc := nx[i]][i := loc];
      assert data2[..] == d2[i := end][loc := if c.hi[l] == n + 1 then -1 else Num(c.hi[l])];
      c := Split(c, size, l, n);
    }

    /** Takes every number up to seqno off the list. */
    method Remove(seqno: int, ghost n: int)
      requires Valid() && 0 <= n && seqno == Wire(n)
      requires forall x | x in Elems() :: Near(x, n)
      modifies this, data1, data2, next
      ensures Valid() && Elems() == set x | x in old(Elems()) && x > n
    {
      hide Slot, Num, Wire, Members, SeqOff, Wellformed, Stored;
      WireIsNum(n);
      if length == 0 {
        assert Elems() == {};
        return;
      }
      HeadNumber(c, size, data1[..], data2[..], next[..]);
      FirstFacts(c, size, data1[..], data2[..], next[..]);
      NearFromMembers(c, size, n);
      NearFacts(c, size, n, c.first);
      var offset := SeqOff(data1[head], seqno);
      var loc := (head + offset + size) % size;
      if offset == 0 {
        PopHead(seqno);
      } else if offset > 0 {
        RemovePastHead(loc, seqno, n);
      }
    }

    /** seqno lies past the head: cut the run it is in, if any, and drop everything up to it. */
    method RemovePastHead(loc0: int, seqno: int, ghost n: int)
      requires Valid() && NearAll(c, n) && seqno == Num(n) && c.first in c.hi && c.first < n
      requires loc0 == At(c, size, n) && head == At(c, size, c.first)
      modifies this`length, this`c, this`head, this`lastInsertPos, data1, data2, next
      ensures Valid() && Elems() == set x | x in old(Elems()) && x > n
    {
      hide Slot, Num, Members, SeqCmp, Wellformed, Stored, NearAll;
      var h := head;
      SlotHolds(c, size, n, data1[..], data2[..], next[..]);
      ghost var stop;
      if seqno == data1[loc0] {
        CutFacts(c, size, n, n, data1[..], data2[..], next[..]);
        if data2[loc0] == -1 {
          stop := c.succ[n];
          head := next[loc0];
        } else {
          CutAfter(loc0, (loc0 + 1) % size, seqno, -1, n, n);
          stop := n + 1;
          BeforeRun(c, size, stop);
        }
      } else {
        var i: int;
        ghost var l: int;
        i, l := WalkTo(head, seqno, c.first, n);
        CutFacts(c, size, l, n, data1[..], data2[..], next[..]);
        if data2[i] == -1 {
          stop := c.succ[l];
          head := next[i];
        } else if SeqCmp(data2[i], seqno) > 0 {
          CutAfter(i, (loc0 + 1) % size, seqno, seqno, l, n);
          stop := n + 1;
          BeforeRun(c, size, stop);
        } else {
          stop := c.succ[l];
          head := next[i];
        }
      }
      DropPrefix(h, stop, n);
    }
  }
}
