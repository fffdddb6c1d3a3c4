/** How large the receiver's loss list must be. It is created with the flow-control size, but what may be missing at one
    time depends on the receive buffer. */
module LossListSize {
  import opened Bytes
  import opened SeqNo
  import opened Ring
  import opened Runs
  import opened Chain
  import opened Protocol
  import opened RcvLossListModule

  /** The receiver r after packets with these numbers arrived. */
  ghost function Arrivals(r: Receiver, ns: seq<int>): Receiver
    decreases |ns|
  {
    if ns == [] then r else ProcessData(Arrivals(r, ns[..|ns| - 1]), ns[|ns| - 1], [0]).0
  }

  /** Everything received is acknowledged and read. */
  ghost predicate CaughtUp(r: Receiver) {
    ReceiverOk(r) && r.start == r.lastAck == r.curr + 1
  }

  ghost predicate StartsRun(r: Receiver, x: int) {
    x in r.loss && x - 1 !in r.loss
  }

  /** Two runs of lost numbers belong into the same slot of a list of the given size. */
  ghost predicate Clash(r: Receiver, origin: int, size: int)
    requires size > 0
  {
    exists x, y :: x < y && StartsRun(r, x) && StartsRun(r, y) && Slot(x, origin, size) == Slot(y, origin, size)
  }

  /** In a list at most two slots smaller than the receive buffer all lost numbers have slots of their own. */
  lemma LossesApart(r: Receiver, origin: int, size: int, x: int, y: int)
    requires ReceiverOk(r) && size > 0 && r.bufSize <= size + 2 && x in r.loss && y in r.loss && x != y
    ensures Slot(x, origin, size) != Slot(y, origin, size)
  {
    if Slot(x, origin, size) == Slot(y, origin, size) {
      SlotInjective(x, y, origin, size);
    }
  }

  lemma {:induction false} ArrivalsOk(r: Receiver, ns: seq<int>)
    requires ReceiverOk(r)
    ensures ReceiverOk(Arrivals(r, ns)) && Arrivals(r, ns).bufSize == r.bufSize
    decreases |ns|
  {
    hide AckPoint, ReceiverOk;
    if ns != [] {
      ArrivalsOk(r, ns[..|ns| - 1]);
      ReceiveOk(Arrivals(r, ns[..|ns| - 1]), ns[|ns| - 1], [0]);
    }
  }

  lemma Three(r: Receiver, n1: int, n2: int, n3: int)
    ensures Arrivals(r, [n1, n2, n3])
         == ProcessData(ProcessData(ProcessData(r, n1, [0]).0, n2, [0]).0, n3, [0]).0
  {
    hide ProcessData;
    assert [n1, n2, n3][..2] == [n1, n2];
    assert [n1, n2][..1] == [n1] && [n1][..0] == [];
    assert Arrivals(r, []) == r;
    assert Arrivals(r, [n1]) == ProcessData(r, n1, [0]).0;
    assert Arrivals(r, [n1, n2]) == ProcessData(ProcessData(r, n1, [0]).0, n2, [0]).0;
  }

  /** A packet past the largest number received. */
  lemma Jump(r: Receiver, n: int)
    requires ReceiverOk(r) && r.curr + 1 < n < r.start + r.bufSize - 1
    ensures
      var r' := ProcessData(r, n, [0]).0;
      && ReceiverOk(r') && r'.loss == r.loss + Range(r.curr + 1, n - 1) && r'.curr == n
      && r'.start == r.start && r'.lastAck == r.lastAck && r'.bufSize == r.bufSize
  {
    hide AckPoint;
    ReceiveOk(r, n, [0]);
  }

  /** Three packets that leave two runs a whole list apart. */
  lemma ThreeArrivals(r: Receiver, origin: int, size: int)
    requires CaughtUp(r) && size >= 4 && r.bufSize > size + 2
    ensures
      var a := r.lastAck;
      var r' := Arrivals(r, [a + 1, a + size - 1, a + size + 1]);
      && r'.loss == {a} + Range(a + 2, a + size - 2) + {a + size}
      && AckPoint(r') == a
      && Clash(r', origin, size)
  {
    hide AckPoint, Slot, Arrivals, ProcessData, ReceiverOk;
    var a := r.lastAck;
    NothingMissing(r);
    Jump(r, a + 1);
    var r1 := ProcessData(r, a + 1, [0]).0;
    Jump(r1, a + size - 1);
    var r2 := ProcessData(r1, a + size - 1, [0]).0;
    Jump(r2, a + size + 1);
    Three(r, a + 1, a + size - 1, a + size + 1);
    var r' := Arrivals(r, [a + 1, a + size - 1, a + size + 1]);
    assert r'.loss == {a} + Range(a + 2, a + size - 2) + {a + size};
    SlotRound(a, origin, size);
    assert StartsRun(r', a) && StartsRun(r', a + size);
    SmallestIs(r', a);
  }

  lemma NothingMissing(r: Receiver)
    requires CaughtUp(r)
    ensures r.loss == {} && r.start == r.lastAck == r.curr + 1 && ReceiverOk(r)
  {
    assert forall n :: n !in r.loss;
  }

  lemma SmallestIs(r: Receiver, a: int)
    requires a in r.loss && forall x | x in r.loss :: a <= x
    ensures AckPoint(r) == a
  {
    MinIs(r.loss, a);
  }

  /** Some packets leave two runs in one slot if and only if the receive buffer has more than two slots more than the
      list. */
  lemma SizeExact(r: Receiver, origin: int, size: int)
    requires CaughtUp(r) && size >= 4
    ensures (exists ns :: Clash(Arrivals(r, ns), origin, size)) <==> r.bufSize > size + 2
  {
    hide AckPoint, Slot, Arrivals, ReceiverOk;
    if r.bufSize > size + 2 {
      ThreeArrivals(r, origin, size);
    } else {
      forall ns ensures !Clash(Arrivals(r, ns), origin, size) {
        ArrivalsOk(r, ns);
        var r' := Arrivals(r, ns);
        forall x, y | x < y && StartsRun(r', x) && StartsRun(r', y)
          ensures Slot(x, origin, size) != Slot(y, origin, size)
        {
          LossesApart(r', origin, size, x, y);
        }
      }
    }
  }

  lemma Rounded(s: int, size: int)
    requires 0 <= s < size
    ensures (s + size) % size == s
  {
    ModUnique(1, size, s);
  }

  /** What the code reads of a list that holds the runs 0..0 and 2..size - 2. */
  lemma TwoRuns(l: RcvLossList)
    requires l.Valid() && 4 <= l.size < SEQ_TH && l.Elems() == Range(0, 0) + Range(2, l.size - 2)
    ensures l.Shape() && 0 <= l.head < l.size && 0 <= l.tail < l.size && l.data1[l.head] == 0 && l.length == l.size - 2
    ensures l.data2[l.tail] != -1 ==> IncSeq(l.data2[l.tail]) != l.size
  {
    hide Slot, Members, Chained, Placed, Spanned, Stored, BackStored;
    var c := l.c;
    assert 0 in l.Elems();
    HeadNumber(c, l.size, l.data1[..], l.data2[..], l.next[..]);
    var t := c.owner[l.tail];
    OwnedRun(c, l.size, l.tail);
    RunAt(c, l.size, NIL, t);
    NodeAt(c, l.size, NIL, l.data1[..], l.data2[..], l.next[..], t);
    assert Covered(c.hi, c.hi[t]);
    assert c.hi[t] in l.Elems();
    RangeSize(2, l.size - 2);
    assert Range(0, 0) == {0};
  }

  lemma FromZero(size: int)
    requires 0 <= size < SEQ_TH
    ensures SeqOff(0, size) == size
  {
  }

  /** What the list makes of the numbers 0, 2..size - 2 and size: it writes the last run over the first one, and from
      then on takes size for the smallest lost number. */
  method RunOverwritten(size: int) returns (first: int, smallest: int)
    requires 4 <= size < SEQ_TH
    ensures first == 0 && smallest == size
  {
    hide RcvLossList.Valid, RcvLossList.Elems, SeqOff, IncSeq;
    var l := new RcvLossList(size);
    l.Insert(0, 0, 0, 0);
    l.Insert(2, size - 2, 2, size - 2);
    assert l.Elems() == Range(0, 0) + Range(2, size - 2);
    TwoRuns(l);
    first := l.data1[l.head];
    FromZero(size);
    var loc := (l.head + SeqOff(first, size)) % size;
    Rounded(l.head, size);
    if !(l.data2[l.tail] != -1 && IncSeq(l.data2[l.tail]) == size) {
      l.NewNode(l.tail, loc, size, size);
    }
    smallest := l.data1[l.head];
  }
}
