/** The ACK history (CACKWindow): a ring of the ACKs sent, from which an ACK2 looks up the data ACK and the round
    trip. One slot stays empty, so the ring holds at most size - 1 entries. */
module AckWindowModule {
  import opened Ring

  datatype Entry = Entry(ackSeq: int, ack: int, time: int)

  /** Position of the first entry for seqno, or the length. */
  function Find(w: seq<Entry>, seqno: int): (i: nat)
    ensures i <= |w|
    ensures forall j | 0 <= j < i :: w[j].ackSeq != seqno
    ensures i < |w| ==> w[i].ackSeq == seqno
  {
    if w == [] then 0 else if w[0].ackSeq == seqno then 0 else 1 + Find(w[1..], seqno)
  }

  lemma FindIs(w: seq<Entry>, seqno: int, i: int)
    requires 0 <= i <= |w| && (forall j | 0 <= j < i :: w[j].ackSeq != seqno)
    requires i < |w| ==> w[i].ackSeq == seqno
    ensures Find(w, seqno) == i
  {
    hide Find;
  }

  /** Among distinct ACK numbers, the one entry for e's number is found exactly if it is held. */
  lemma FindDistinct(w: seq<Entry>, e: Entry)
    requires forall i, j | 0 <= i < j < |w| :: w[i].ackSeq != w[j].ackSeq
    ensures e in w <==> Find(w, e.ackSeq) < |w| && w[Find(w, e.ackSeq)] == e
  {
    if e in w {
      var i :| 0 <= i < |w| && w[i] == e;
      FindIs(w, e.ackSeq, i);
    }
  }

  /** The slot an index less than two rounds along stands for. */
  function Wrap(x: int, size: int): (k: int)
    requires 0 <= x < 2 * size
    ensures k == if x < size then x else x - size
  {
    if x < size then ModUnique(0, size, x); x % size else ModUnique(1, size, x - size); x % size
  }

  class AckWindow {
    const size: int
    const ackSeqNo: array<int>
    const ack: array<int>
    const timeStamp: array<int>
    var head: int
    var tail: int

    ghost predicate Valid()
      reads this
    {
      && size > 0 && ackSeqNo.Length == ack.Length == timeStamp.Length == size
      && ackSeqNo != ack && ackSeqNo != timeStamp && ack != timeStamp
      && 0 <= head < size && 0 <= tail < size
    }

    ghost function Count(): (n: int)
      requires Valid()
      reads this
      ensures 0 <= n < size
    {
      if head >= tail then head - tail else head + size - tail
    }

    /** The slot of the entry stored i-th among those still held. */
    function SlotOf(i: int): (k: int)
      requires Valid() && 0 <= i < size
      reads this
      ensures 0 <= k < size
    {
      if tail + i < size then tail + i else tail + i - size
    }

    /** The entries held, oldest first. */
    ghost function Contents(): (w: seq<Entry>)
      requires Valid()
      reads this, ackSeqNo, ack, timeStamp
      ensures |w| == Count()
      ensures forall i | 0 <= i < Count() ::
                w[i] == Entry(ackSeqNo[SlotOf(i)], ack[SlotOf(i)], timeStamp[SlotOf(i)])
    {
      seq(Count(), i requires Valid() && 0 <= i < Count() reads this, ackSeqNo, ack, timeStamp =>
        Entry(ackSeqNo[SlotOf(i)], ack[SlotOf(i)], timeStamp[SlotOf(i)]))
    }

    constructor (capacity: int)
      requires capacity > 0
      ensures Valid() && size == capacity && Contents() == []
      ensures fresh(ackSeqNo) && fresh(ack) && fresh(timeStamp)
    {
      size := capacity;
      ackSeqNo := new int[capacity](_ => 0);
      ack := new int[capacity](_ => 0);
      timeStamp := new int[capacity](_ => 0);
      head := 0;
      tail := 0;
      new;
      ackSeqNo[0] := -1;
    }

    /** Adds an entry, dropping the oldest one when the ring is full. */
    method Store(seqno: int, data: int, now: int)
      requires Valid()
      modifies this, ackSeqNo, ack, timeStamp
      ensures Valid()
      ensures
        var w := old(Contents()) + [Entry(seqno, data, now)];
        Contents() == if |w| == size then w[1..] else w
    {
      FillHead(seqno, data, now);
      hide Wrap;
      head := Wrap(head + 1, size);
      if head == tail {
        tail := Wrap(tail + 1, size);
      }
    }

    /** The slot at head is none of those in use. */
    method FillHead(seqno: int, data: int, now: int)
      requires Valid()
      modifies ackSeqNo, ack, timeStamp
      ensures Contents() == old(Contents())
      ensures Entry(ackSeqNo[head], ack[head], timeStamp[head]) == Entry(seqno, data, now)
    {
      assert forall i | 0 <= i < Count() :: SlotOf(i) != head;
      ackSeqNo[head] := seqno;
      ack[head] := data;
      timeStamp[head] := now;
    }

    /** Looks up an ACK number: the data ACK it carried and the time since; the entry and all older ones go. */
    method Acknowledge(seqno: int, now: int) returns (rtt: int, data: int, ghost found: bool)
      requires Valid()
      modifies this, ackSeqNo
      ensures Valid()
      ensures
        var w := old(Contents());
        var i := Find(w, seqno);
        && found == (i < |w|)
        && (if i < |w| then rtt == now - w[i].time && data == w[i].ack && Contents() == w[i + 1..]
            else rtt == -1 && Contents() == w)
    {
      if head >= tail {
        rtt, data, found := AcknowledgeStraight(seqno, now);
      } else {
        rtt, data, found := AcknowledgeWrapped(seqno, now);
      }
    }

    /** The entries lie between tail and head. */
    method AcknowledgeStraight(seqno: int, now: int) returns (rtt: int, data: int, ghost found: bool)
      requires Valid() && head >= tail
      modifies this, ackSeqNo
      ensures Valid()
      ensures
        var w := old(Contents());
        var i := Find(w, seqno);
        && found == (i < |w|)
        && (if i < |w| then rtt == now - w[i].time && data == w[i].ack && Contents() == w[i + 1..]
            else rtt == -1 && Contents() == w)
    {
      hide Find, Wrap;
      ghost var w := Contents();
      data := 0;
      var i := tail;
      while i < head
        invariant tail <= i <= head
        invariant forall j | 0 <= j < i - tail :: w[j].ackSeq != seqno
      {
        assert SlotOf(i - tail) == i;
        if seqno == ackSeqNo[i] {
          FindIs(w, seqno, i - tail);
          data := ack[i];
          rtt := now - timeStamp[i];
          found := true;
          if i + 1 == head {
            tail, head := 0, 0;
            ackSeqNo[0] := -1;
          } else {
            tail := Wrap(i + 1, size);
          }
          return;
        }
        i := i + 1;
      }
      FindIs(w, seqno, |w|);
      return -1, 0, false;
    }

    /** The entries run past the end of the ring; the search goes on from its start. */
    method AcknowledgeWrapped(seqno: int, now: int) returns (rtt: int, data: int, ghost found: bool)
      requires Valid() && head < tail
      modifies this, ackSeqNo
      ensures Valid()
      ensures
        var w := old(Contents());
        var i := Find(w, seqno);
        && found == (i < |w|)
        && (if i < |w| then rtt == now - w[i].time && data == w[i].ack && Contents() == w[i + 1..]
            else rtt == -1 && Contents() == w)
    {
      hide Find, Wrap;
      ghost var w := Contents();
      data := 0;
      var j := tail;
      while j < head + size
        invariant Valid() && head == old(head) && tail == old(tail) && head < tail && Contents() == w
        invariant tail <= j <= head + size
        invariant forall i | 0 <= i < j - tail :: w[i].ackSeq != seqno
      {
        var k := Wrap(j, size);
        assert SlotOf(j - tail) == k;
        if seqno == ackSeqNo[k] {
          FindIs(w, seqno, j - tail);
          data := ack[k];
          rtt := now - timeStamp[k];
          found := true;
          // k never equals head here, so the test for the last entry cannot succeed; tail meets head by itself
          assert k != head;
          tail := Wrap(k + 1, size);
          return;
        }
        j := j + 1;
      }
      FindIs(w, seqno, |w|);
      return -1, 0, false;
    }
  }
}
