/** The receiving half of a connection (CUDT) on its real data structures. Each handler works on numbers as they
    travel and is proved to take the step Protocol describes on the unbounded numbers they stand for. */
module ReceiverEndModule {
  import opened Bytes
  import opened SeqNo
  import opened Runs
  import opened Nak
  import opened Protocol
  import opened UnitQueueModule
  import opened RcvBufferModule
  import opened RcvLossListModule
  import opened AckWindowModule
  import opened Messages
  import opened SndBufferModule

  const MAX_ACK: int := 0x3FFF_FFFF
  const ACK_MOD: int := 0x4000_0000

  function IncAck(k: int): int {
    if k == MAX_ACK then 0 else k + 1
  }

  /** The ACK number that travels for the unbounded number k. */
  function AckWire(k: int): int
    requires 0 <= k
  {
    k % ACK_MOD
  }

  lemma IncAckIsSucc(k: int)
    requires 0 <= k
    ensures IncAck(AckWire(k)) == AckWire(k + 1)
  {
    var q := k / ACK_MOD;
    assert k == q * ACK_MOD + AckWire(k);
    if AckWire(k) == MAX_ACK {
      assert k + 1 == (q + 1) * ACK_MOD;
    } else {
      assert k + 1 == q * ACK_MOD + (AckWire(k) + 1);
    }
  }

  lemma AckWireClose(k: int, l: int)
    requires 0 <= k && 0 <= l && Abs(k - l) < ACK_MOD
    ensures AckWire(k) == AckWire(l) <==> k == l
  {
    if AckWire(k) == AckWire(l) {
      var p, q := k / ACK_MOD, l / ACK_MOD;
      assert k == p * ACK_MOD + AckWire(k) && l == q * ACK_MOD + AckWire(l);
      assert -1 < p - q < 1;
    }
  }

  /** The history holds the last ACKs in order. */
  ghost predicate HistoryOk(r: Receiver) {
    && |r.acked| < ACK_WINDOW && |r.acked| <= r.ackSeq
    && (forall i | 0 <= i < |r.acked| :: r.acked[i].0 == r.ackSeq - |r.acked| + 1 + i)
    && (forall i | 0 <= i < |r.acked| :: 0 <= r.acked[i].1 <= r.lastAck)
    && (forall i, j | 0 <= i < j < |r.acked| :: r.acked[i].1 <= r.acked[j].1)
  }

  /** The counters of an endpoint are the residues of r's. */
  ghost predicate Residues(r: Receiver, lastAck: int, lastAckAck: int, curr: int, ackSeq: int) {
    && ReceiverOk(r) && HistoryOk(r) && 0 <= r.start && 0 <= r.lastAckAck && 2 <= r.bufSize < SEQ_TH
    && lastAck == Wire(r.lastAck) && lastAckAck == Wire(r.lastAckAck) && curr == Wire(r.curr)
    && ackSeq == AckWire(r.ackSeq)
  }

  ghost predicate Held(w: seq<Entry>, acked: seq<(int, int)>) {
    && |w| == |acked|
    && forall i | 0 <= i < |w| ::
         0 <= acked[i].0 && 0 <= acked[i].1 && w[i].ackSeq == AckWire(acked[i].0) && w[i].ack == Wire(acked[i].1)
  }

  /** An ACK packet as it is sent. */
  datatype AckPacket = NoAck | Light(data: int) | Full(ackSeqNo: int, data: int, room: int)

  ghost predicate Carries(p: AckPacket, out: Option<Packet>) {
    match out
    case None => p == NoAck
    case Some(LightAck(a)) => 0 <= a && p == Light(Wire(a))
    case Some(Ack(k, a, window)) => 0 <= k && 0 <= a && p == Full(AckWire(k), Wire(a), window)
    case Some(_) => false
  }

  /** n is the smallest number not received. */
  ghost predicate Missing(r: Receiver, n: int) {
    0 <= r.start <= n && n !in r.slots && forall k | r.start <= k < n :: k in r.slots
  }

  // ----- what the handlers read off the counters -----

  lemma InitResidues(isn: int, bufSize: int)
    requires 0 <= isn <= MAX_SEQ && 2 <= bufSize < SEQ_TH
    ensures Residues(Receiver(bufSize, isn, isn, isn - 1, {}, isn, map[], 0, 0, []), isn, isn, isn - 1, 0)
  {
  }

  lemma DataFacts(r: Receiver, n: int, lastAck: int, lastAckAck: int, curr: int, ackSeq: int)
    requires Residues(r, lastAck, lastAckAck, curr, ackSeq) && 0 <= n && Near(n, r.lastAck)
    ensures SeqOff(lastAck, Wire(n)) == n - r.lastAck
    ensures 0 <= n - r.lastAck < Avail(r) ==> n < r.start + r.bufSize && Arrived(Wire(n), n, curr, r)
  {
    hide SeqOff, SeqCmp, IncSeq, DecSeq, SeqLen, Wire, AckWire;
    OffAndCmp(r.lastAck, n);
    IncIsSucc(r.curr);
    if 0 <= n - r.lastAck < Avail(r) {
      OffAndCmp(n, r.curr + 1);
      OffAndCmp(n, r.curr);
      if n > r.curr + 1 {
        DecIsPred(n);
        GapLength(r.curr, n);
        OffAndCmp(r.curr + 1, n - 1);
      }
    }
  }

  lemma DataKeeps(r: Receiver, n: int, payload: Bytes, lastAck: int, lastAckAck: int, curr: int, ackSeq: int)
    requires Residues(r, lastAck, lastAckAck, curr, ackSeq) && payload != []
    ensures Residues(ProcessData(r, n, payload).0, lastAck, lastAckAck,
                     if Acceptable(r, n) && n > r.curr then Wire(n) else curr, ackSeq)
  {
    hide Wire, AckWire;
    ReceiveOk(r, n, payload);
  }

  /** What the loss report for the numbers between curr and n is built from. */
  ghost predicate GapAt(seqno: int, n: int, currSeqNo: int, curr: int, size: int) {
    && 0 <= curr + 1 <= n - 1 && n - 1 - (curr + 1) < size - 2 && n - 1 - (curr + 1) < SEQ_TH
    && IncSeq(currSeqNo) == Wire(curr + 1) && DecSeq(seqno) == Wire(n - 1)
    && (Wire(curr + 1) == Wire(n - 1) <==> curr + 1 == n - 1)
    && SeqLen(currSeqNo, seqno) - 2 == n - curr - 1
  }

  /** How a number in the receive window compares with the counters and the lost numbers. */
  ghost predicate Arrived(seqno: int, n: int, currSeqNo: int, r: Receiver) {
    && (SeqCmp(seqno, IncSeq(currSeqNo)) > 0 <==> n > r.curr + 1)
    && (SeqCmp(seqno, currSeqNo) > 0 <==> n > r.curr)
    && (n > r.curr + 1 ==> GapAt(seqno, n, currSeqNo, r.curr, r.bufSize))
    && (forall x | x in r.loss :: Near(x, n) && 0 <= x <= r.curr && n - x < r.bufSize - 1 && n - x < SEQ_TH)
  }

  lemma GapLength(curr: int, n: int)
    requires -1 <= curr < n < curr + SEQ_TH
    ensures SeqLen(Wire(curr), Wire(n)) - 2 == n - curr - 1
  {
    hide SeqLen;
    if curr < 0 {
      LenFromMinusOne(n);
    } else {
      LenIsCount(curr, n);
    }
  }

  /** The acknowledgement number, and how it compares with what was acknowledged before. */
  lemma AckFacts(r: Receiver, lastAck: int, lastAckAck: int, curr: int, ackSeq: int)
    requires Residues(r, lastAck, lastAckAck, curr, ackSeq)
    ensures IncSeq(curr) == Wire(r.curr + 1)
    ensures
      var a := AckPoint(r);
      && r.lastAck <= a <= r.curr + 1 && a < r.start + r.bufSize && 0 <= a
      && (Wire(a) == lastAckAck <==> Same(a, r.lastAckAck))
      && (Wire(a) == lastAck <==> a == r.lastAck)
      && (SeqCmp(Wire(a), lastAck) > 0 <==> a > r.lastAck)
      && SeqOff(lastAck, Wire(a)) == a - r.lastAck
      && (SeqCmp(Wire(a), lastAckAck) > 0 <==> Later(a, r.lastAckAck))
  {
    hide SeqOff, SeqCmp, IncSeq, AckPoint, AckWire;
    AckPointIs(r);
    IncIsSucc(r.curr);
    var a := AckPoint(r);
    OffAndCmp(a, r.lastAck);
    OffAndCmp(r.lastAck, a);
  }

  lemma MissingIs(r: Receiver, lastAck: int, lastAckAck: int, curr: int, ackSeq: int)
    requires Residues(r, lastAck, lastAckAck, curr, ackSeq)
    ensures Missing(r, AckPoint(r))
  {
    hide AckPoint, Wire, AckWire;
    AckPointIs(r);
  }

  lemma AckKeeps(r: Receiver, repeat: bool, lastAck: int, lastAckAck: int, curr: int, ackSeq: int)
    requires Residues(r, lastAck, lastAckAck, curr, ackSeq)
    ensures
      var (r', out) := SendAck(r, false, repeat);
      && Residues(r', Wire(r'.lastAck), lastAckAck, curr, AckWire(r'.ackSeq))
      && (r'.ackSeq == r.ackSeq || (r'.ackSeq == r.ackSeq + 1 && IncAck(ackSeq) == AckWire(r'.ackSeq)))
  {
    hide Wire, AckWire, IncAck, AckPoint;
    AckPointIs(r);
    AckTimerOk(r, false, repeat);
    IncAckIsSucc(r.ackSeq);
    HistoryKept(r, repeat);
  }

  lemma HistoryKept(r: Receiver, repeat: bool)
    requires ReceiverOk(r) && HistoryOk(r) && 0 <= r.start
    ensures HistoryOk(SendAck(r, false, repeat).0)
  {
    hide AckPoint;
    AckPointIs(r);
  }

  lemma HeldStore(w: seq<Entry>, acked: seq<(int, int)>, k: int, a: int, now: int)
    requires Held(w, acked) && |acked| < ACK_WINDOW && 0 <= k && 0 <= a
    ensures
      var w' := w + [Entry(AckWire(k), Wire(a), now)];
      Held(if |w'| == ACK_WINDOW then w'[1..] else w', Store(acked, k, a))
  {
    hide Wire, AckWire;
  }

  /** Looking up an ACK number as it travels finds the unbounded one. */
  lemma {:induction false} FindHeld(w: seq<Entry>, acked: seq<(int, int)>, k: int)
    requires Held(w, acked) && 0 <= k && forall i | 0 <= i < |acked| :: Abs(k - acked[i].0) < ACK_MOD
    ensures Find(w, AckWire(k)) == FindAck(acked, k)
    decreases |w|
  {
    hide AckWire, Wire;
    if w != [] {
      AckWireClose(k, acked[0].0);
      FindHeld(w[1..], acked[1..], k);
    }
  }

  lemma Ack2Is(r: Receiver, k: int, positive: bool)
    ensures
      var i := FindAck(r.acked, k);
      var r' := Protocol.ProcessAck2(r, k, positive);
      if i == |r.acked| then r' == r
      else r' == r.(acked := r.acked[i + 1..],
                    lastAckAck := if positive && Later(r.acked[i].1, r.lastAckAck) then r.acked[i].1 else r.lastAckAck)
  {
    hide FindAck;
  }

  lemma Ack2Keeps(r: Receiver, k: int, positive: bool)
    requires ReceiverOk(r) && HistoryOk(r) && 0 <= r.lastAckAck
    ensures
      var r' := Protocol.ProcessAck2(r, k, positive);
      ReceiverOk(r') && HistoryOk(r') && 0 <= r'.lastAckAck
  {
    hide FindAck;
  }

  lemma {:induction false} Ack2Facts(r: Receiver, k: int, w: seq<Entry>, positive: bool, lastAck: int, lastAckAck: int, curr: int, ackSeq: int)
    requires Residues(r, lastAck, lastAckAck, curr, ackSeq)
    requires Held(w, r.acked) && 0 <= k <= r.ackSeq && r.ackSeq - k < ACK_MOD
    ensures
      var i := Find(w, AckWire(k));
      var r' := Protocol.ProcessAck2(r, k, positive);
      && i == FindAck(r.acked, k)
      && Residues(r', lastAck, Wire(r'.lastAckAck), curr, ackSeq)
      && (i < |w| ==> Held(w[i + 1..], r'.acked) && (SeqCmp(w[i].ack, lastAckAck) > 0 <==> Later(r.acked[i].1, r.lastAckAck)))
      && (i == |w| ==> r' == r)
      && (i < |w| && positive && Later(r.acked[i].1, r.lastAckAck) ==> Wire(r'.lastAckAck) == w[i].ack)
      && (i < |w| && !(positive && Later(r.acked[i].1, r.lastAckAck)) ==> Wire(r'.lastAckAck) == lastAckAck)
  {
    hide Wire, AckWire, SeqCmp, Find, FindAck, Protocol.ProcessAck2;
    HistoryNear(r, k);
    FindHeld(w, r.acked, k);
    Ack2Is(r, k, positive);
    Ack2Keeps(r, k, positive);
    var i := FindAck(r.acked, k);
    if i < |w| {
      LaterWire(r.acked[i].1, r.lastAckAck);
    }
  }

  lemma LaterWire(a: int, b: int)
    requires 0 <= a && 0 <= b
    ensures SeqCmp(Wire(a), Wire(b)) > 0 <==> Later(a, b)
  {
  }

  lemma HistoryNear(r: Receiver, k: int)
    requires HistoryOk(r) && 0 <= k <= r.ackSeq && r.ackSeq - k < ACK_MOD
    ensures forall i | 0 <= i < |r.acked| :: Abs(k - r.acked[i].0) < ACK_MOD
  {
  }

  lemma {:induction false} RecvKeeps(r: Receiver, len: int)
    requires ReceiverOk(r)
    ensures
      && Readable(r)
      && var r' := Recv(r, len).0;
      && ReceiverOk(r') && r.start <= r'.start && r'.lastAck == r.lastAck && r'.lastAckAck == r.lastAckAck && r'.curr == r.curr
      && r'.loss == r.loss && r'.bufSize == r.bufSize && r'.ackSeq == r.ackSeq && r'.acked == r.acked
    decreases r.lastAck - r.start
  {
    if len > 0 && r.start < r.lastAck {
      var unit := r.slots[r.start][r.notch..];
      var r1 := r.(slots := r.slots - {r.start}, start := r.start + 1, notch := 0);
      if len >= |unit| {
        assert ReceiverOk(r1);
        RecvKeeps(r1, len - |unit|);
      }
    }
  }

  /** nak is the report of one run of lost numbers, or nothing is reported. */
  ghost predicate Sends(nak: seq<int>, out: Option<Packet>) {
    match out
    case None => nak == []
    case Some(p) => p.Nak? && |p.losses| == 1 && 0 <= p.losses[0].lo <= p.losses[0].hi && nak == EncodeOne(p.losses[0])
  }

  /** The largest offset stored, when one more packet comes in at this offset. */
  function MaxWith(maxPos: int, offset: int, avail: int): int {
    if 0 <= offset < avail && offset > maxPos then offset else maxPos
  }

  /** What is left of the largest offset after len more units are acknowledged. */
  function MaxAfter(maxPos: int, len: int): int {
    if len <= 0 then maxPos else if maxPos < len then 0 else maxPos - len
  }

  class ReceiverEnd {
    const rcvBuffer: RcvBuffer
    const lossList: RcvLossList
    const ackWindow: AckWindow
    var rcvLastAck: int
    var rcvLastAckAck: int
    var rcvCurrSeqNo: int
    var ackSeqNo: int
    var rcvLossTotal: int

    ghost var r: Receiver

    ghost predicate Counters()
      reads this
    {
      Residues(r, rcvLastAck, rcvLastAckAck, rcvCurrSeqNo, ackSeqNo)
    }

    ghost predicate Outside(a: array<int>) {
      a != lossList.data1 && a != lossList.data2 && a != lossList.next && a != lossList.prior
    }

    /** The two tables share no array. */
    ghost predicate Apart() {
      && Outside(ackWindow.ackSeqNo) && Outside(ackWindow.ack) && Outside(ackWindow.timeStamp)
    }

    ghost predicate HistoryMatches(acked: seq<(int, int)>)
      reads ackWindow, ackWindow.ackSeqNo, ackWindow.ack, ackWindow.timeStamp
    {
      ackWindow.Valid() && ackWindow.size == ACK_WINDOW && Held(ackWindow.Contents(), acked)
    }

    ghost predicate LossMatches(loss: set<int>, bufSize: int)
      reads lossList, lossList.data1, lossList.data2, lossList.next, lossList.prior
    {
      lossList.Valid() && lossList.Elems() == loss && bufSize <= lossList.size + 2
    }

    ghost predicate BufferMatches()
      reads this, rcvBuffer, rcvBuffer.pUnit, rcvBuffer.queue, rcvBuffer.queue.pool, rcvBuffer.held
    {
      rcvBuffer.Valid() && rcvBuffer.Shows(r)
    }

    ghost predicate Valid()
      reads this, rcvBuffer, rcvBuffer.pUnit, rcvBuffer.queue, rcvBuffer.queue.pool, rcvBuffer.held
      reads lossList, lossList.data1, lossList.data2, lossList.next, lossList.prior
      reads ackWindow, ackWindow.ackSeqNo, ackWindow.ack, ackWindow.timeStamp
    {
      Counters() && Apart() && HistoryMatches(r.acked) && LossMatches(r.loss, r.bufSize) && BufferMatches()
    }

    constructor (isn: int, q: UnitQueue, bufSize: int, flightFlagSize: int)
      requires 0 <= isn <= MAX_SEQ && q.Valid() && 2 <= bufSize < SEQ_TH && 0 < flightFlagSize && bufSize <= flightFlagSize + 2
      ensures Valid() && r == Receiver(bufSize, isn, isn, isn - 1, {}, isn, map[], 0, 0, [])
      ensures rcvBuffer.queue == q && rcvBuffer.at == map[] && rcvBuffer.held == {} && rcvBuffer.maxPos == 0
    {
      hide RcvLossList.Valid, RcvBuffer.Valid, Residues, Wire, Grid, Units, InUse;
      InitResidues(isn, bufSize);
      rcvLastAck := isn;
      rcvLastAckAck := isn;
      rcvCurrSeqNo := isn - 1;
      ackSeqNo := 0;
      rcvLossTotal := 0;
      r := Receiver(bufSize, isn, isn, isn - 1, {}, isn, map[], 0, 0, []);
      rcvBuffer := new RcvBuffer(q, bufSize, isn);
      lossList := new RcvLossList(flightFlagSize);
      ackWindow := new AckWindow(1024);
    }

    /** A data packet, in a unit that is still free. */
    method ProcessData(unit: Unit, seqno: int, ghost n: int) returns (res: int, nak: seq<int>, ghost out: Option<Packet>)
      requires Valid() && unit in rcvBuffer.queue.pool && unit.flag == 0 && unit.payload != []
      requires 0 <= n && seqno == Wire(n) && Near(n, r.lastAck)
      modifies this`r, this`rcvCurrSeqNo, this`rcvLossTotal
      modifies rcvBuffer`maxPos, rcvBuffer`at, rcvBuffer`held, rcvBuffer`slots, rcvBuffer.pUnit, unit`flag, rcvBuffer.queue`count
      modifies lossList, lossList.data1, lossList.data2, lossList.next, lossList.prior
      ensures Valid() && (r, out) == Protocol.ProcessData(old(r), n, unit.payload)
      ensures res == if old(r.lastAck <= n < r.start + r.bufSize - 1 && n !in r.slots) then 0 else -1
      ensures res == if Acceptable(old(r), n) then 0 else -1
      ensures unit.flag == if Acceptable(old(r), n) then 1 else 0
      ensures rcvBuffer.at == if Acceptable(old(r), n) then old(rcvBuffer.at)[n := unit] else old(rcvBuffer.at)
      ensures rcvBuffer.held == if Acceptable(old(r), n) then old(rcvBuffer.held) + {unit} else old(rcvBuffer.held)
      ensures rcvBuffer.maxPos == MaxWith(old(rcvBuffer.maxPos), n - old(r.lastAck), Avail(old(r)))
      ensures Sends(nak, out)
      ensures rcvLossTotal == old(rcvLossTotal) + (if Acceptable(old(r), n) && n > old(r.curr) then n - old(r.curr) - 1 else 0)
    {
      hide RcvBuffer.Valid, Residues, Wire, SeqOff, SeqCmp, SeqLen, IncSeq, DecSeq, Near, Arrived,
        Grid, Units, InUse, Protocol.ProcessData, EncodeOne, HistoryMatches, LossMatches;
      nak, out := [], None;
      DataFacts(r, n, rcvLastAck, rcvLastAckAck, rcvCurrSeqNo, ackSeqNo);
      DataIs(r, n, unit.payload);
      var offset := SeqOff(rcvLastAck, seqno);
      var avail := rcvBuffer.GetAvailBufSize();
      if offset < 0 || offset >= avail {
        return -1, nak, out;
      }
      res, nak, out := StoreData(unit, seqno, offset, n);
    }

    /** A data packet in message mode. v shows the stored units. */
    method ProcessMsgData(unit: Unit, seqno: int, ghost n: int, ghost v: map<int, Cell>)
      returns (nak: seq<int>, ghost out: Option<Packet>, ghost v': map<int, Cell>)
      requires Valid() && unit in rcvBuffer.queue.pool && unit.flag == 0 && unit.payload != []
      requires 0 <= n && seqno == Wire(n) && Near(n, r.lastAck) && rcvBuffer.MaxOk() && rcvBuffer.Views(v)
      modifies this`r, this`rcvCurrSeqNo, this`rcvLossTotal
      modifies rcvBuffer`maxPos, rcvBuffer`at, rcvBuffer`held, rcvBuffer`slots, rcvBuffer.pUnit, unit`flag, rcvBuffer.queue`count
      modifies lossList, lossList.data1, lossList.data2, lossList.next, lossList.prior
      ensures Valid() && (r, out) == Protocol.ProcessData(old(r), n, unit.payload)
      ensures Sends(nak, out)
      ensures rcvBuffer.MaxOk() && rcvBuffer.Views(v')
      ensures v' == if Acceptable(old(r), n) then v[n := Cell(1, unit.header)] else v
      ensures rcvBuffer.maxPos == MaxWith(old(rcvBuffer.maxPos), n - old(r.lastAck), Avail(old(r)))
    {
      hide Valid, RcvBuffer.Valid, Wire, Near, Protocol.ProcessData, Acceptable, Sends;
      BufferShows();
      rcvBuffer.StoredApart(unit);
      v' := if Acceptable(r, n) then v[n := Cell(1, unit.header)] else v;
      var res;
      res, nak, out := ProcessData(unit, seqno, n);
    }

    lemma BufferShows()
      requires Valid()
      ensures rcvBuffer.Valid() && rcvBuffer.Shows(r)
    {
      hide LossMatches, HistoryMatches, RcvBuffer.Valid;
    }

    /** The packet falls into the free room. */
    method StoreData(unit: Unit, seqno: int, offset: int, ghost n: int)
      returns (res: int, nak: seq<int>, ghost out: Option<Packet>)
      requires Valid() && unit in rcvBuffer.queue.pool && unit.flag == 0 && unit.payload != []
      requires 0 <= n && seqno == Wire(n) && Near(n, r.lastAck) && offset == n - r.lastAck && 0 <= offset < Avail(r)
      modifies this`r, this`rcvCurrSeqNo, this`rcvLossTotal
      modifies rcvBuffer`maxPos, rcvBuffer`at, rcvBuffer`held, rcvBuffer`slots, rcvBuffer.pUnit, unit`flag
      modifies rcvBuffer.queue`count, lossList, lossList.data1, lossList.data2, lossList.next, lossList.prior
      ensures Valid() && (r, out) == Protocol.ProcessData(old(r), n, unit.payload)
      ensures res == if Acceptable(old(r), n) then 0 else -1
      ensures unit.flag == if Acceptable(old(r), n) then 1 else 0
      ensures rcvBuffer.at == if Acceptable(old(r), n) then old(rcvBuffer.at)[n := unit] else old(rcvBuffer.at)
      ensures rcvBuffer.held == if Acceptable(old(r), n) then old(rcvBuffer.held) + {unit} else old(rcvBuffer.held)
      ensures rcvBuffer.maxPos == MaxWith(old(rcvBuffer.maxPos), n - old(r.lastAck), Avail(old(r)))
      ensures Sends(nak, out)
      ensures rcvLossTotal == old(rcvLossTotal) + (if Acceptable(old(r), n) && n > old(r.curr) then n - old(r.curr) - 1 else 0)
    {
      hide RcvBuffer.Valid, Residues, Wire, SeqOff, SeqCmp, SeqLen, IncSeq, DecSeq, Near, Arrived,
        Grid, Units, InUse, Protocol.ProcessData, EncodeOne, HistoryMatches, LossMatches;
      DataFacts(r, n, rcvLastAck, rcvLastAckAck, rcvCurrSeqNo, ackSeqNo);
      DataIs(r, n, unit.payload);
      res := rcvBuffer.AddData(unit, offset, n);
      if res < 0 {
        return -1, [], None;
      }
      nak, out := Account(unit.payload, seqno, n);
    }

    /** Number n is stored with this payload: the loss list and the counters follow. */
    method Account(payload: Bytes, seqno: int, ghost n: int) returns (nak: seq<int>, ghost out: Option<Packet>)
      requires Counters() && Apart() && HistoryMatches(r.acked) && LossMatches(r.loss, r.bufSize) && payload != []
      requires rcvBuffer.Valid() && rcvBuffer.Shows(r.(slots := r.slots[n := payload]))
      requires 0 <= n && seqno == Wire(n) && Near(n, r.lastAck) && Acceptable(r, n)
      modifies this`r, this`rcvCurrSeqNo, this`rcvLossTotal
      modifies lossList, lossList.data1, lossList.data2, lossList.next, lossList.prior
      ensures Valid() && (r, out) == Protocol.ProcessData(old(r), n, payload)
      ensures Sends(nak, out)
      ensures rcvLossTotal == old(rcvLossTotal) + (if n > old(r.curr) then n - old(r.curr) - 1 else 0)
    {
      hide RcvBuffer.Valid, Residues, Wire, SeqOff, SeqCmp, SeqLen, IncSeq, DecSeq, Near, Arrived,
        Grid, Units, InUse, Protocol.ProcessData, EncodeOne, HistoryMatches, LossMatches;
      DataFacts(r, n, rcvLastAck, rcvLastAckAck, rcvCurrSeqNo, ackSeqNo);
      DataKeeps(r, n, payload, rcvLastAck, rcvLastAckAck, rcvCurrSeqNo, ackSeqNo);
      DataIs(r, n, payload);
      nak, out := Detect(seqno, n);
      r := Protocol.ProcessData(r, n, payload).0;
    }

    /** The packet is stored: reports the gap in front of it, or closes the one it fills. */
    method Detect(seqno: int, ghost n: int) returns (nak: seq<int>, ghost out: Option<Packet>)
      requires LossMatches(r.loss, r.bufSize) && 0 <= n && seqno == Wire(n) && Arrived(seqno, n, rcvCurrSeqNo, r)
      modifies this`rcvCurrSeqNo, this`rcvLossTotal
      modifies lossList, lossList.data1, lossList.data2, lossList.next, lossList.prior
      ensures LossMatches(if n > r.curr then r.loss + Range(r.curr + 1, n - 1) else r.loss - {n}, r.bufSize)
      ensures rcvCurrSeqNo == if n > r.curr then seqno else old(rcvCurrSeqNo)
      ensures rcvLossTotal == old(rcvLossTotal) + (if n > r.curr then n - r.curr - 1 else 0)
      ensures out == if n > r.curr + 1 then Some(Nak([Interval(r.curr + 1, n - 1)])) else None
      ensures n <= r.curr + 1 ==> nak == []
      ensures n > r.curr + 1 ==> 0 <= r.curr + 1 && nak == EncodeOne(Interval(r.curr + 1, n - 1))
    {
      hide RcvLossList.Valid, RcvLossList.Elems, Wire, SeqCmp, SeqLen, IncSeq, DecSeq, Near;
      nak, out := [], None;
      ghost var before := lossList.Elems();
      if SeqCmp(seqno, IncSeq(rcvCurrSeqNo)) > 0 {
        lossList.Insert(IncSeq(rcvCurrSeqNo), DecSeq(seqno), r.curr + 1, n - 1);
        nak := if IncSeq(rcvCurrSeqNo) == DecSeq(seqno) then [DecSeq(seqno)]
               else [IncSeq(rcvCurrSeqNo) + FLAG, DecSeq(seqno)];
        out := Some(Nak([Interval(r.curr + 1, n - 1)]));
        rcvLossTotal := rcvLossTotal + SeqLen(rcvCurrSeqNo, seqno) - 2;
      }
      if SeqCmp(seqno, rcvCurrSeqNo) > 0 {
        rcvCurrSeqNo := seqno;
        assert n == r.curr + 1 ==> before + Range(r.curr + 1, n - 1) == before;
      } else {
        var found := lossList.Remove(seqno, n);
      }
    }

    /** Sends an ACK if there is anything new to acknowledge. repeat: the last one is old enough to send it again. */
    method SendAck(light: bool, repeat: bool, now: int) returns (p: AckPacket, ghost out: Option<Packet>)
      requires Valid()
      modifies this`r, this`rcvLastAck, this`ackSeqNo, ackWindow, ackWindow.ackSeqNo, ackWindow.ack, ackWindow.timeStamp
      modifies rcvBuffer`lastAckPos, rcvBuffer`maxPos, rcvBuffer`lastAck
      ensures Valid() && (r, out) == Protocol.SendAck(old(r), light, repeat) && Carries(p, out)
      ensures light ==> p == NoAck || p.Light?
      ensures light ==>
        && r == old(r) && rcvLastAck == old(rcvLastAck) && ackSeqNo == old(ackSeqNo)
        && rcvBuffer.lastAck == old(rcvBuffer.lastAck) && rcvBuffer.lastAckPos == old(rcvBuffer.lastAckPos)
        && ackWindow.Valid() && ackWindow.Contents() == old(ackWindow.Contents())
      ensures !light ==> p == NoAck || p.Full?
      ensures p != NoAck ==> exists n :: Missing(old(r), n) && p.data == Wire(n)
      ensures p.Full? ==> p.data == rcvLastAck && p.ackSeqNo == ackSeqNo == IncAck(old(ackSeqNo))
      ensures rcvBuffer.maxPos == MaxAfter(old(rcvBuffer.maxPos), r.lastAck - old(r.lastAck))
    {
      hide RcvLossList.Valid, RcvLossList.Elems, RcvBuffer.Valid, Residues, Wire, AckWire, SeqOff, SeqCmp, IncSeq,
        Grid, Units, InUse, Held, AckWindow.Contents, AckWindow.Valid, AckPoint;
      var ack := AckNumber();
      AckFacts(r, rcvLastAck, rcvLastAckAck, rcvCurrSeqNo, ackSeqNo);
      MissingIs(r, rcvLastAck, rcvLastAckAck, rcvCurrSeqNo, ackSeqNo);
      if ack == rcvLastAckAck {
        return NoAck, None;
      }
      if light {
        return Light(ack), Some(LightAck(AckPoint(r)));
      }
      if SeqCmp(ack, rcvLastAck) > 0 || (ack == rcvLastAck && repeat) {
        p, out := SendFull(ack, repeat, now);
      } else {
        return NoAck, None;
      }
    }

    /** Sends an ACK in message mode. v shows the stored units. */
    method SendMsgAck(light: bool, repeat: bool, now: int, ghost v: map<int, Cell>)
      returns (p: AckPacket, ghost out: Option<Packet>)
      requires Valid() && rcvBuffer.MaxOk() && rcvBuffer.Views(v)
      modifies this`r, this`rcvLastAck, this`ackSeqNo, ackWindow, ackWindow.ackSeqNo, ackWindow.ack, ackWindow.timeStamp
      modifies rcvBuffer`lastAckPos, rcvBuffer`maxPos, rcvBuffer`lastAck
      ensures Valid() && (r, out) == Protocol.SendAck(old(r), light, repeat) && Carries(p, out)
      ensures rcvBuffer.maxPos == MaxAfter(old(rcvBuffer.maxPos), r.lastAck - old(r.lastAck))
      ensures rcvBuffer.MaxOk() && rcvBuffer.Views(v)
      ensures old(r.lastAck) <= r.lastAck < r.start + r.bufSize
      ensures r == old(r).(lastAck := r.lastAck, ackSeq := r.ackSeq, acked := r.acked)
      ensures forall n | old(r.lastAck) <= n < r.lastAck :: n in r.slots
    {
      hide Valid, RcvBuffer.Valid, Carries, Protocol.SendAck, AckPoint, ReceiverOk;
      BufferShows();
      IsOk();
      RoomLeft(r);
      AckTimerOk(r, light, repeat);
      AckKeepsRest(r, light, repeat);
      p, out := SendAck(light, repeat, now);
      BufferShows();
      RoomLeft(r);
    }

    lemma IsOk()
      requires Valid()
      ensures ReceiverOk(r) && 2 <= r.bufSize
    {
      hide RcvBuffer.Valid, Wire, LossMatches, HistoryMatches;
    }

    /** One past the largest number received, or the smallest lost one. */
    method AckNumber() returns (ack: int)
      requires Valid()
      ensures ack == Wire(AckPoint(r))
    {
      hide RcvLossList.Valid, RcvLossList.Elems, RcvBuffer.Valid, Wire, IncSeq, Held;
      CurrSucc(r, rcvLastAck, rcvLastAckAck, rcvCurrSeqNo, ackSeqNo);
      var lost := lossList.GetLossLength();
      if lost == 0 {
        ack := IncSeq(rcvCurrSeqNo);
      } else {
        ghost var n;
        ack, n := lossList.GetFirstLostSeq();
        MinIs(r.loss, n);
      }
    }

    /** A full ACK: moves the acknowledged data up to the ACK number, then reports it unless the sender knows. */
    method SendFull(ack: int, repeat: bool, now: int) returns (p: AckPacket, ghost out: Option<Packet>)
      requires Valid() && ack == Wire(AckPoint(r))
      requires !Same(AckPoint(r), r.lastAckAck) && (AckPoint(r) == r.lastAck ==> repeat)
      modifies this`r, this`rcvLastAck, this`ackSeqNo, ackWindow, ackWindow.ackSeqNo, ackWindow.ack, ackWindow.timeStamp
      modifies rcvBuffer`lastAckPos, rcvBuffer`maxPos, rcvBuffer`lastAck
      ensures Valid() && (r, out) == Protocol.SendAck(old(r), false, repeat) && Carries(p, out)
      ensures rcvLastAck == ack && (p == NoAck || p.Full?)
      ensures p.Full? ==> p.data == ack && p.ackSeqNo == ackSeqNo == IncAck(old(ackSeqNo))
      ensures rcvBuffer.maxPos == MaxAfter(old(rcvBuffer.maxPos), r.lastAck - old(r.lastAck))
    {
      hide RcvBuffer.Valid, Residues, Wire, AckWire, SeqOff, SeqCmp, IncSeq, IncAck,
        Grid, Units, InUse, LossMatches, HistoryMatches, AckPoint, Protocol.SendAck, Store, Carries;
      AckFacts(r, rcvLastAck, rcvLastAckAck, rcvCurrSeqNo, ackSeqNo);
      AckKeeps(r, repeat, rcvLastAck, rcvLastAckAck, rcvCurrSeqNo, ackSeqNo);
      SendFullIs(r, repeat);
      HistorySize(r, rcvLastAck, rcvLastAckAck, rcvCurrSeqNo, ackSeqNo);
      Advance(ack);
      p, out := Report(now, AckPoint(r));
      r := Protocol.SendAck(r, false, repeat).0;
    }

    /** Sends an ACK for a, the number just acknowledged, unless the sender has already acknowledged it. */
    method Report(now: int, ghost a: int) returns (p: AckPacket, ghost out: Option<Packet>)
      requires rcvBuffer.Valid() && rcvBuffer.Shows(r.(lastAck := a)) && 0 <= a && rcvLastAck == Wire(a)
      requires HistoryMatches(r.acked) && |r.acked| < ACK_WINDOW && 0 <= r.ackSeq && ackSeqNo == AckWire(r.ackSeq)
      requires SeqCmp(rcvLastAck, rcvLastAckAck) > 0 <==> Later(a, r.lastAckAck)
      modifies this`ackSeqNo, ackWindow, ackWindow.ackSeqNo, ackWindow.ack, ackWindow.timeStamp
      ensures rcvBuffer.Valid() && Carries(p, out) && (p == NoAck || p.Full?)
      ensures p.Full? ==> p.data == rcvLastAck && p.ackSeqNo == ackSeqNo == IncAck(old(ackSeqNo))
      ensures HistoryMatches(if Later(a, r.lastAckAck) then Store(r.acked, r.ackSeq + 1, a) else r.acked)
      ensures ackSeqNo == AckWire(if Later(a, r.lastAckAck) then r.ackSeq + 1 else r.ackSeq)
      ensures out ==
        var room := Avail(r.(lastAck := a));
        if Later(a, r.lastAckAck) then Some(Ack(r.ackSeq + 1, a, if room < 2 then 2 else room)) else None
    {
      hide RcvBuffer.Valid, Wire, AckWire, SeqCmp, IncAck, Grid, Units, InUse, HistoryMatches, Store;
      p, out := NoAck, None;
      if SeqCmp(rcvLastAck, rcvLastAckAck) > 0 {
        IncAckIsSucc(r.ackSeq);
        ackSeqNo := IncAck(ackSeqNo);
        var room := rcvBuffer.GetAvailBufSize();
        if room < 2 {
          room := 2;
        }
        p := Full(ackSeqNo, rcvLastAck, room);
        out := Some(Ack(r.ackSeq + 1, a, room));
        Remember(now, r.acked, r.ackSeq + 1, a);
      }
    }

    /** Moves the acknowledged data up to the ACK number. */
    method Advance(ack: int)
      requires Valid() && ack == Wire(AckPoint(r))
      modifies this`rcvLastAck, rcvBuffer`lastAckPos, rcvBuffer`maxPos, rcvBuffer`lastAck
      ensures rcvLastAck == ack && rcvBuffer.Valid() && rcvBuffer.lastAck == AckPoint(r)
      ensures rcvBuffer.maxPos == MaxAfter(old(rcvBuffer.maxPos), AckPoint(r) - r.lastAck)
    {
      hide RcvBuffer.Valid, Residues, Wire, SeqOff, SeqCmp, Grid, Units, InUse, LossMatches, HistoryMatches, AckPoint;
      AckFacts(r, rcvLastAck, rcvLastAckAck, rcvCurrSeqNo, ackSeqNo);
      if SeqCmp(ack, rcvLastAck) > 0 {
        var acksize := SeqOff(rcvLastAck, ack);
        rcvLastAck := ack;
        rcvBuffer.AckData(acksize);
      }
    }

    /** Enters the ACK just sent in the history. */
    method Remember(now: int, ghost acked: seq<(int, int)>, ghost k: int, ghost a: int)
      requires HistoryMatches(acked) && |acked| < ACK_WINDOW
      requires 0 <= k && ackSeqNo == AckWire(k) && 0 <= a && rcvLastAck == Wire(a)
      modifies ackWindow, ackWindow.ackSeqNo, ackWindow.ack, ackWindow.timeStamp
      ensures HistoryMatches(Store(acked, k, a))
    {
      hide Wire, AckWire, AckWindow.Contents, AckWindow.Valid, Held, Store;
      HeldStore(ackWindow.Contents(), acked, k, a, now);
      ackWindow.Store(ackSeqNo, rcvLastAck, now);
    }

    /** The sender acknowledged an ACK. */
    method ProcessAck2(ackNo: int, now: int, ghost k: int) returns (rtt: int)
      requires Valid() && 0 <= k <= r.ackSeq && r.ackSeq - k < ACK_MOD && ackNo == AckWire(k)
      modifies this`r, this`rcvLastAckAck, ackWindow, ackWindow.ackSeqNo
      ensures Valid() && r == Protocol.ProcessAck2(old(r), k, rtt > 0)
    {
      hide LossMatches, RcvBuffer.Valid, Residues, Wire, AckWire, SeqCmp,
        Grid, Units, InUse, Held, AckWindow.Contents, AckWindow.Valid, FindAck, Find;
      ghost var w := ackWindow.Contents();
      var ack;
      ghost var found;
      rtt, ack, found := ackWindow.Acknowledge(ackNo, now);
      Ack2Facts(r, k, w, rtt > 0, rcvLastAck, rcvLastAckAck, rcvCurrSeqNo, ackSeqNo);
      if rtt > 0 {
        if SeqCmp(ack, rcvLastAckAck) > 0 {
          rcvLastAckAck := ack;
        }
      }
      r := Protocol.ProcessAck2(r, k, rtt > 0);
    }

    /** recv: the next bytes in order. */
    method Receive(len: int) returns (data: Bytes)
      requires Valid()
      modifies this`r, rcvBuffer`startPos, rcvBuffer`notch, rcvBuffer`at, rcvBuffer`held, rcvBuffer`slots, rcvBuffer`start
      modifies rcvBuffer.pUnit, rcvBuffer.held, rcvBuffer.queue`count
      ensures Valid() && Readable(old(r)) && (r, data) == Recv(old(r), len)
    {
      hide LossMatches, HistoryMatches, RcvBuffer.Valid, Residues, Wire, AckWire, Grid, Units, InUse, Held,
        AckWindow.Contents, AckWindow.Valid, Recv, Readable;
      RecvFacts(r, len, rcvLastAck, rcvLastAckAck, rcvCurrSeqNo, ackSeqNo);
      data := rcvBuffer.ReadBuffer(len, r);
      r := Recv(r, len).0;
    }

    /** recvmsg. v, h, isn describe the stored units and the stream of headers, as RcvBuffer.ReadMsg needs them. */
    method ReceiveMsg(len: int, ghost v: map<int, Cell>, ghost h: int -> Header, ghost isn: int)
      returns (data: Bytes, ghost found: bool, ghost a: int, ghost b: int, ghost v': map<int, Cell>)
      requires Valid() && r.notch == 0 && 0 <= len && rcvBuffer.MaxOk() && rcvBuffer.Views(v)
      requires MsgOk(v, h, isn, r.start, r.lastAck, rcvBuffer.maxPos)
      modifies this`r, rcvBuffer`startPos, rcvBuffer`at, rcvBuffer`held, rcvBuffer`slots, rcvBuffer`start
      modifies rcvBuffer.pUnit, rcvBuffer.held, rcvBuffer.queue`count
      ensures Valid() && r == old(r).(start := r.start, slots := r.slots)
      ensures rcvBuffer.MaxOk() && rcvBuffer.Views(v') && MsgOk(v', h, isn, r.start, r.lastAck, rcvBuffer.maxPos)
      ensures MsgRead(len, v, h, old(r), rcvBuffer.maxPos, data, found, a, b, v', r)
    {
      hide LossMatches, HistoryMatches, RcvBuffer.Valid, RcvBuffer.Views, RcvBuffer.MaxOk, Residues, Wire, AckWire, Grid,
        Units, InUse, Held, AckWindow.Contents, AckWindow.Valid, MsgOk, Deliverable, From, Marked, Text, Cutoff;
      MsgFacts(r, rcvLastAck, rcvLastAckAck, rcvCurrSeqNo, ackSeqNo);
      rcvBuffer.StoredAs(v);
      ghost var r0 := r;
      data, found, a, b, v' := rcvBuffer.ReadMsg(len, v, h, isn);
      rcvBuffer.StoredAs(v');
      r := r.(start := rcvBuffer.start, slots := rcvBuffer.slots);
      assert MsgRead(len, v, h, r0, rcvBuffer.maxPos, data, found, a, b, v', r);
      MsgKeeps(len, v, h, r0, rcvBuffer.maxPos, data, found, a, b, v', r,
               rcvLastAck, rcvLastAckAck, rcvCurrSeqNo, ackSeqNo);
    }

    /** The periodic loss report: the leading ones of all lost runs, each for as long as two words of limit are left. */
    method ReportLosses(limit: int) returns (words: seq<int>, ghost rs: seq<Interval>, ghost all: seq<Interval>)
      requires Valid() && limit > 0
      ensures Valid() && Encodable(rs) && words == Encode(rs) && (words != [] ==> |words| <= limit)
      ensures forall i | 0 <= i < |rs| :: rs[i].lo <= rs[i].hi && rs[i].lo in r.loss && rs[i].hi in r.loss
      ensures Increasing(rs) && Union(rs) <= r.loss
      ensures Reports(rs, all, r.loss, limit)
    {
      hide RcvLossList.Valid, RcvLossList.Elems, RcvLossList.Losses, RcvBuffer.Valid, Residues, Wire, Held, Encode, Union;
      words, rs, all := [], [], [];
      var lost := lossList.GetLossLength();
      if lost == 0 {
        NoRuns();
        return;
      }
      var data := new int[limit];
      var len;
      ghost var k;
      len, k := lossList.GetLossArray(data, limit);
      all := lossList.Losses();
      rs := all[..k];
      words := data[..len];
      PrefixRuns(all, k);
      AllReported(all, k, limit);
    }
  }

  /** What recvmsg does to a receiver, as RcvBuffer.ReadMsg states it. */
  ghost predicate MsgRead(len: int, v: map<int, Cell>, h: int -> Header, r: Receiver, maxPos: int, data: Bytes,
                          found: bool, a: int, b: int, v': map<int, Cell>, r': Receiver)
  {
    && 0 <= len && r.start <= r'.start
    && (if found then r.start <= a && Deliverable(v, h, r.lastAck, a, b) && data == Cutoff(Text(r.slots, a, b), len)
        else data == [])
    && (r.start == r.lastAck && maxPos <= 0 ==> !found)
    && (!found && !(r.start == r.lastAck && maxPos <= 0) ==>
          forall d, c | r.start <= d :: !Deliverable(v, h, r.lastAck, d, c))
    && (found ==> forall d, c | r.start <= d && c < b :: !Deliverable(v, h, r.lastAck, d, c))
    && v' == (if !found then From(v, r'.start) else if b < r.lastAck then From(v, b + 1)
              else Marked(From(v, r'.start), a, b))
    && (found ==> if b < r.lastAck then r'.start == b + 1 else r'.start <= a)
    && (forall n | n in v && n !in v' :: v[n].flag == 2 || (found && a <= n <= b))
    && r'.slots.Keys == v'.Keys && (forall n | n in r'.slots :: n in r.slots && r'.slots[n] == r.slots[n])
    && v.Keys == r.slots.Keys
  }

  lemma MsgFacts(r: Receiver, lastAck: int, lastAckAck: int, curr: int, ackSeq: int)
    requires Residues(r, lastAck, lastAckAck, curr, ackSeq)
    ensures forall n | n in r.slots :: n + 1 < r.start + r.bufSize
  {
    hide Wire, AckWire;
  }

  lemma MsgKeeps(len: int, v: map<int, Cell>, h: int -> Header, r: Receiver, maxPos: int, data: Bytes, found: bool,
                 a: int, b: int, v': map<int, Cell>, r': Receiver, lastAck: int, lastAckAck: int, curr: int, ackSeq: int)
    requires Residues(r, lastAck, lastAckAck, curr, ackSeq) && r.notch == 0
    requires MsgRead(len, v, h, r, maxPos, data, found, a, b, v', r')
    requires r' == r.(start := r'.start, slots := r'.slots) && r'.start <= r.lastAck
    ensures Residues(r', lastAck, lastAckAck, curr, ackSeq)
  {
    hide Wire, AckWire, Deliverable, Text, Cutoff;
    forall n ensures n in r'.slots <==> n in r.slots && n >= r'.start {
      assert n in r'.slots <==> n in v'.Keys;
      assert n in r.slots <==> n in v.Keys;
    }
  }

  lemma RoomLeft(r: Receiver)
    requires ReceiverOk(r)
    ensures r.start <= r.lastAck < r.start + r.bufSize
  {
  }

  lemma AckKeepsRest(r: Receiver, light: bool, repeat: bool)
    ensures
      var r' := Protocol.SendAck(r, light, repeat).0;
      r' == r.(lastAck := r'.lastAck, ackSeq := r'.ackSeq, acked := r'.acked)
  {
    hide AckPoint;
  }

  lemma NoRuns()
    ensures Encode([]) == [] && Union([]) == {} && Increasing([])
  {
  }

  /** rs is what a report of limit words has room for of all runs of loss; it is everything exactly if two words are left
      for the last run. */
  ghost predicate Reports(rs: seq<Interval>, all: seq<Interval>, loss: set<int>, limit: int) {
    && Increasing(all) && Union(all) == loss
    && rs <= all && StopsAt(all, |rs|, limit)
    && (Union(rs) == loss <==> all == [] || |Encode(all[..|all| - 1])| < limit - 1)
  }

  ghost predicate Encodable(rs: seq<Interval>) {
    forall i | 0 <= i < |rs| :: 0 <= rs[i].lo <= rs[i].hi
  }

  lemma CurrSucc(r: Receiver, lastAck: int, lastAckAck: int, curr: int, ackSeq: int)
    requires Residues(r, lastAck, lastAckAck, curr, ackSeq)
    ensures IncSeq(curr) == Wire(r.curr + 1)
  {
    hide Wire, IncSeq, AckWire;
    IncIsSucc(r.curr);
  }

  lemma HistorySize(r: Receiver, lastAck: int, lastAckAck: int, curr: int, ackSeq: int)
    requires Residues(r, lastAck, lastAckAck, curr, ackSeq)
    ensures |r.acked| < ACK_WINDOW && 0 <= r.ackSeq && ackSeq == AckWire(r.ackSeq)
  {
  }

  lemma SendFullIs(r: Receiver, repeat: bool)
    requires !Same(AckPoint(r), r.lastAckAck) && r.lastAck <= AckPoint(r) && (AckPoint(r) == r.lastAck ==> repeat)
    ensures
      var a := AckPoint(r);
      var (r', out) := Protocol.SendAck(r, false, repeat);
      && r'.lastAck == a && r'.start == r.start && r'.slots == r.slots && r'.notch == r.notch
      && r'.bufSize == r.bufSize && r'.loss == r.loss && r'.lastAckAck == r.lastAckAck && r'.curr == r.curr
      && r'.acked == (if Later(a, r.lastAckAck) then Store(r.acked, r.ackSeq + 1, a) else r.acked)
      && r'.ackSeq == (if Later(a, r.lastAckAck) then r.ackSeq + 1 else r.ackSeq)
      && out == (if Later(a, r.lastAckAck) then
                   Some(Ack(r.ackSeq + 1, a, if Avail(r.(lastAck := a)) < 2 then 2 else Avail(r.(lastAck := a)))) else None)
  {
    hide AckPoint;
  }

  lemma RecvFacts(r: Receiver, len: int, lastAck: int, lastAckAck: int, curr: int, ackSeq: int)
    requires Residues(r, lastAck, lastAckAck, curr, ackSeq)
    ensures Readable(r) && Residues(Recv(r, len).0, lastAck, lastAckAck, curr, ackSeq)
    ensures
      var r' := Recv(r, len).0;
      && r'.lastAck == r.lastAck && r'.loss == r.loss && r'.bufSize == r.bufSize && r'.acked == r.acked
  {
    hide Recv, Wire, AckWire;
    RecvKeeps(r, len);
  }

  lemma DataIs(r: Receiver, n: int, payload: Bytes)
    ensures !Acceptable(r, n) ==> Protocol.ProcessData(r, n, payload) == (r, None)
    ensures Acceptable(r, n) ==>
      var (r', out) := Protocol.ProcessData(r, n, payload);
      && r' == r.(slots := r.slots[n := payload], loss := r'.loss, curr := if n > r.curr then n else r.curr)
      && r'.loss == (if n > r.curr then r.loss + Range(r.curr + 1, n - 1) else r.loss - {n})
      && out == (if n > r.curr + 1 then Some(Nak([Interval(r.curr + 1, n - 1)])) else None)
  {
    if Acceptable(r, n) && n == r.curr + 1 {
      assert r.loss + Range(r.curr + 1, n - 1) == r.loss;
    }
  }
}
