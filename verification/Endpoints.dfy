/** The two endpoints together, on their real data structures. In a state the protocol can reach, every handler's
    requirement holds for every packet that is not older than half the sequence space, and handling it on the arrays,
    rings and counters is exactly the step System describes; so what System proves of every run holds of them. */
module Endpoints {
  import opened Bytes
  import opened SeqNo
  import opened Runs
  import opened Nak
  import opened Protocol
  import opened System
  import opened UnitQueueModule
  import Snd = SenderEndModule
  import Rcv = ReceiverEndModule
  import Buf = SndBufferModule
  import opened SndLossListModule
  import opened RcvLossListModule

  /** n is less than half the sequence space, minus two receive buffers, behind what was sent. */
  ghost predicate Fresh(cfg: Config, st: State, n: int) {
    st.s.curr + 1 - n < SEQ_TH - 2 * cfg.rcvBuf
  }

  /** No number the packet carries outlived half the sequence space. */
  ghost predicate Timely(cfg: Config, st: State, p: Packet) {
    match p
    case Data(n, _) => Fresh(cfg, st, n)
    case Ack(_, ack, _) => Fresh(cfg, st, ack)
    case LightAck(ack) => Fresh(cfg, st, ack)
    case Nak(rs) => forall i | 0 <= i < |rs| :: Fresh(cfg, st, rs[i].lo)
    case Ack2(k) => st.r.ackSeq - k < Rcv.ACK_MOD
  }

  /** All the counters of both ends lie within two receive buffers. */
  lemma Window(cfg: Config, st: State)
    requires Inv(cfg, st)
    ensures
      && 0 <= st.s.lastDataAck <= st.s.lastAck <= st.s.curr + 1 <= st.s.lastDataAck + cfg.rcvBuf
      && 0 <= st.r.lastAck <= st.s.curr + 1 <= st.r.lastAck + 2 * cfg.rcvBuf
  {
    hide Flatten, Consumed, NetOk, AckPoint;
    AckPointIs(st.r);
  }

  lemma DataFits(cfg: Config, st: State, n: int, payload: Bytes)
    requires Inv(cfg, st) && Data(n, payload) in st.net && Timely(cfg, st, Data(n, payload)) && 2 * cfg.rcvBuf < SEQ_TH
    ensures 0 <= n && Near(n, st.r.lastAck) && payload != []
  {
    hide Flatten, Consumed, AckPoint;
    Window(cfg, st);
    assert PacketOk(cfg, st.s, st.r, Data(n, payload));
  }

  lemma AckFits(cfg: Config, st: State, k: int, a: int, room: int)
    requires Inv(cfg, st) && Ack(k, a, room) in st.net && Timely(cfg, st, Ack(k, a, room)) && 2 * cfg.rcvBuf < SEQ_TH
    ensures Snd.AckNear(st.s, a) && room <= cfg.rcvBuf
  {
    hide Flatten, Consumed, AckPoint;
    Window(cfg, st);
    assert PacketOk(cfg, st.s, st.r, Ack(k, a, room));
    AckPointIs(st.r);
  }

  lemma LightAckFits(cfg: Config, st: State, a: int)
    requires Inv(cfg, st) && LightAck(a) in st.net && Timely(cfg, st, LightAck(a)) && 2 * cfg.rcvBuf < SEQ_TH
    ensures Snd.AckNear(st.s, a) && a <= st.s.curr + 1
  {
    hide Flatten, Consumed, AckPoint;
    Window(cfg, st);
    assert PacketOk(cfg, st.s, st.r, LightAck(a));
    AckPointIs(st.r);
  }

  lemma NakFits(cfg: Config, st: State, rs: seq<Interval>)
    requires Inv(cfg, st) && Nak(rs) in st.net && Timely(cfg, st, Nak(rs)) && 2 * cfg.rcvBuf < SEQ_TH
    ensures Snd.NakNear(st.s, rs)
  {
    hide Flatten, Consumed, AckPoint;
    Window(cfg, st);
    assert PacketOk(cfg, st.s, st.r, Nak(rs));
    forall i | 0 <= i < |rs| ensures Snd.RunNear(st.s, rs[i]) {
      assert Fresh(cfg, st, rs[i].lo);
    }
  }

  lemma Ack2Fits(cfg: Config, st: State, k: int)
    requires Inv(cfg, st) && Ack2(k) in st.net && Timely(cfg, st, Ack2(k))
    ensures 0 <= k <= st.r.ackSeq && st.r.ackSeq - k < Rcv.ACK_MOD
  {
    hide Flatten, Consumed, AckPoint;
    assert PacketOk(cfg, st.s, st.r, Ack2(k));
  }

  /** A sender and a receiver in memory of their own. */
  ghost predicate Separate(snd: Snd.SenderEnd, rcv: Rcv.ReceiverEnd) {
    && var sl, rl, w := snd.lossList, rcv.lossList, rcv.ackWindow;
    && Outside(sl, rl.data1) && Outside(sl, rl.data2) && Outside(sl, rl.next) && Outside(sl, rl.prior)
    && Outside(sl, w.ackSeqNo) && Outside(sl, w.ack) && Outside(sl, w.timeStamp)
  }

  ghost predicate Outside(sl: SndLossList, a: array<int>) {
    a != sl.data1 && a != sl.data2 && a != sl.next
  }

  /** The real endpoints are in state st of the protocol. */
  ghost predicate Show(cfg: Config, st: State, snd: Snd.SenderEnd, rcv: Rcv.ReceiverEnd)
    reads snd, snd.sndBuffer, snd.sndBuffer.repr, snd.lossList, snd.lossList.data1, snd.lossList.data2, snd.lossList.next
    reads rcv, rcv.rcvBuffer, rcv.rcvBuffer.pUnit, rcv.rcvBuffer.queue, rcv.rcvBuffer.queue.pool, rcv.rcvBuffer.held
    reads rcv.lossList, rcv.lossList.data1, rcv.lossList.data2, rcv.lossList.next, rcv.lossList.prior
    reads rcv.ackWindow, rcv.ackWindow.ackSeqNo, rcv.ackWindow.ack, rcv.ackWindow.timeStamp
  {
    && ConfigOk(cfg) && 2 * cfg.rcvBuf < SEQ_TH && Inv(cfg, st)
    && snd.Valid() && rcv.Valid() && snd.s == st.s && rcv.r == st.r
    && snd.window == cfg.rcvBuf && snd.sndBufSize == cfg.sndBuf && snd.payloadSize == cfg.mss
    && Separate(snd, rcv)
  }

  /** Connection setup: each end is built from what the handshake agreed on. */
  method Connect(cfg: Config, q: UnitQueue, flightFlagSize: int) returns (snd: Snd.SenderEnd, rcv: Rcv.ReceiverEnd)
    requires ConfigOk(cfg) && cfg.isn <= MAX_SEQ && q.Valid()
    requires 2 * cfg.rcvBuf < SEQ_TH && 0 < cfg.flow && cfg.rcvBuf <= 2 * cfg.flow
    requires 0 < flightFlagSize && cfg.rcvBuf <= flightFlagSize + 2
    ensures Show(cfg, Init(cfg), snd, rcv) && rcv.rcvBuffer.queue == q
  {
    hide Inv, Snd.SenderEnd.Valid, Rcv.ReceiverEnd.Valid, UnitQueue.Valid;
    InitInv(cfg);
    rcv := new Rcv.ReceiverEnd(cfg.isn, q, cfg.rcvBuf, flightFlagSize);
    snd := new Snd.SenderEnd(cfg.isn, cfg.sndBuf, cfg.mss, cfg.flow, cfg.rcvBuf);
  }

  /** A data packet arrives; the report of the gap in front of it, if there is one, is what System puts on the network. */
  method DeliverData(snd: Snd.SenderEnd, rcv: Rcv.ReceiverEnd, unit: Unit, seqno: int,
                     ghost cfg: Config, ghost st: State, ghost n: int, ghost flag: bool)
    returns (nak: seq<int>, ghost rs: seq<Interval>, ghost st': State)
    requires Show(cfg, st, snd, rcv) && unit in rcv.rcvBuffer.queue.pool && unit.flag == 0
    requires Data(n, unit.payload) in st.net && Timely(cfg, st, Data(n, unit.payload))
    requires 0 <= n && seqno == Wire(n)
    modifies rcv`r, rcv`rcvCurrSeqNo, rcv`rcvLossTotal
    modifies rcv.rcvBuffer`maxPos, rcv.rcvBuffer`at, rcv.rcvBuffer`held, rcv.rcvBuffer`slots, rcv.rcvBuffer.pUnit
    modifies unit`flag, rcv.rcvBuffer.queue`count
    modifies rcv.lossList, rcv.lossList.data1, rcv.lossList.data2, rcv.lossList.next, rcv.lossList.prior
    ensures st' == Next(cfg, st, Deliver(Data(n, old(unit.payload)), flag)) && Show(cfg, st', snd, rcv)
    ensures Rcv.Encodable(rs) && nak == Encode(rs) && st'.net == if nak == [] then st.net else st.net + {Nak(rs)}
  {
    hide Inv, Snd.SenderEnd.Valid, Rcv.ReceiverEnd.Valid, Timely, Near, Wire, Protocol.ProcessData;
    DataFits(cfg, st, n, unit.payload);
    st' := Next(cfg, st, Deliver(Data(n, unit.payload), flag));
    StepInv(cfg, st, Deliver(Data(n, unit.payload), flag));
    var res;
    ghost var out;
    res, nak, out := rcv.ProcessData(unit, seqno, n);
    rs := if out == None then [] else out.value.losses;
    if out != None {
      OneRun(rs);
    }
  }

  lemma OneRun(rs: seq<Interval>)
    requires |rs| == 1 && 0 <= rs[0].lo <= rs[0].hi
    ensures Encode(rs) == EncodeOne(rs[0]) != []
  {
    assert rs[1..] == [];
    assert EncodeOne(rs[0]) + [] == EncodeOne(rs[0]);
  }

  /** A full ACK arrives; answer tells whether the sender answers it, with the number the ACK came with. */
  method DeliverAck(snd: Snd.SenderEnd, rcv: Rcv.ReceiverEnd, ackNo: int, ack: int, room: int, answer: bool,
                    ghost cfg: Config, ghost st: State, ghost k: int, ghost a: int)
    returns (reply: int, ghost st': State)
    requires Show(cfg, st, snd, rcv) && Ack(k, a, room) in st.net && Timely(cfg, st, Ack(k, a, room))
    requires 0 <= k && 0 <= a && ackNo == Rcv.AckWire(k) && ack == Wire(a)
    modifies snd`s, snd`broken, snd`flowWindowSize, snd`sndLastAck, snd`sndLastDataAck
    modifies snd.sndBuffer, snd.lossList, snd.lossList.data1, snd.lossList.data2, snd.lossList.next
    ensures st' == Next(cfg, st, Deliver(Ack(k, a, room), answer)) && Show(cfg, st', snd, rcv)
    ensures answer ==> reply == Rcv.AckWire(k) && Ack2(k) in st'.net
  {
    hide Inv, Snd.SenderEnd.Valid, Rcv.ReceiverEnd.Valid, Timely, Wire, Protocol.ProcessAck, Snd.AckNear, Rcv.AckWire;
    AckFits(cfg, st, k, a, room);
    st' := Next(cfg, st, Deliver(Ack(k, a, room), answer));
    StepInv(cfg, st, Deliver(Ack(k, a, room), answer));
    reply := if answer then ackNo else 0;
    snd.ProcessAck(ack, room, a);
  }

  method DeliverLightAck(snd: Snd.SenderEnd, rcv: Rcv.ReceiverEnd, ack: int,
                         ghost cfg: Config, ghost st: State, ghost a: int, ghost flag: bool)
    returns (ghost st': State)
    requires Show(cfg, st, snd, rcv) && LightAck(a) in st.net && Timely(cfg, st, LightAck(a))
    requires 0 <= a && ack == Wire(a)
    modifies snd`s, snd`flowWindowSize, snd`sndLastAck
    ensures st' == Next(cfg, st, Deliver(LightAck(a), flag)) && Show(cfg, st', snd, rcv)
  {
    hide Inv, Snd.SenderEnd.Valid, Rcv.ReceiverEnd.Valid, Timely, Wire, Protocol.ProcessLightAck, Snd.AckNear;
    LightAckFits(cfg, st, a);
    st' := Next(cfg, st, Deliver(LightAck(a), flag));
    StepInv(cfg, st, Deliver(LightAck(a), flag));
    snd.ProcessLightAck(ack, a);
  }

  /** A loss report arrives, encoded in words. */
  method DeliverNak(snd: Snd.SenderEnd, rcv: Rcv.ReceiverEnd, words: seq<int>,
                    ghost cfg: Config, ghost st: State, ghost rs: seq<Interval>, ghost flag: bool)
    returns (ghost st': State)
    requires Show(cfg, st, snd, rcv) && Nak(rs) in st.net && Timely(cfg, st, Nak(rs))
    requires Rcv.Encodable(rs) && words == Encode(rs)
    modifies snd`s, snd`broken, snd`sndLossTotal
    modifies snd.lossList, snd.lossList.data1, snd.lossList.data2, snd.lossList.next
    ensures st' == Next(cfg, st, Deliver(Nak(rs), flag)) && Show(cfg, st', snd, rcv)
  {
    hide Inv, Snd.SenderEnd.Valid, Rcv.ReceiverEnd.Valid, Timely, Encode, Protocol.ProcessNak, Snd.NakNear;
    NakFits(cfg, st, rs);
    st' := Next(cfg, st, Deliver(Nak(rs), flag));
    StepInv(cfg, st, Deliver(Nak(rs), flag));
    snd.ProcessNak(words, rs);
  }

  method DeliverAck2(snd: Snd.SenderEnd, rcv: Rcv.ReceiverEnd, ackNo: int, now: int,
                     ghost cfg: Config, ghost st: State, ghost k: int)
    returns (rtt: int, ghost st': State)
    requires Show(cfg, st, snd, rcv) && Ack2(k) in st.net && Timely(cfg, st, Ack2(k))
    requires 0 <= k && ackNo == Rcv.AckWire(k)
    modifies rcv`r, rcv`rcvLastAckAck, rcv.ackWindow, rcv.ackWindow.ackSeqNo
    ensures st' == Next(cfg, st, Deliver(Ack2(k), rtt > 0)) && Show(cfg, st', snd, rcv)
  {
    hide Inv, Snd.SenderEnd.Valid, Rcv.ReceiverEnd.Valid, Timely, Rcv.AckWire, Protocol.ProcessAck2;
    Ack2Fits(cfg, st, k);
    rtt := rcv.ProcessAck2(ackNo, now, k);
    st' := Next(cfg, st, Deliver(Ack2(k), rtt > 0));
    StepInv(cfg, st, Deliver(Ack2(k), rtt > 0));
  }

  /** The send queue takes the next packet, new or lost; what travels is the packet System puts on the network. */
  method PackNext(snd: Snd.SenderEnd, rcv: Rcv.ReceiverEnd, cwnd: int, ghost cfg: Config, ghost st: State)
    returns (seqno: int, payload: Bytes, header: Buf.Header, ghost n: int, ghost st': State)
    requires Show(cfg, st, snd, rcv)
    modifies snd, snd.sndBuffer, snd.lossList, snd.lossList.data1, snd.lossList.data2, snd.lossList.next
    ensures st' == Next(cfg, st, Pack(cwnd)) && Show(cfg, st', snd, rcv)
    ensures payload != [] ==>
      0 <= n && seqno == Wire(n) && Data(n, payload) in st'.net && snd.Labelled(n, header)
    ensures payload == [] ==> st'.net == st.net
  {
    hide Snd.SenderEnd.Valid, Rcv.ReceiverEnd.Valid, Wire, PackData, Consumed, ReceiverOk, FlowOk, Flatten;
    SenderIsOk(cfg, st);
    ghost var out;
    seqno, payload, header, out := snd.Pack(cwnd);
    st' := Next(cfg, st, Pack(cwnd));
    Sent(cfg, st, cwnd);
    n := if out == None then 0 else out.value.seqno;
  }

  lemma SenderIsOk(cfg: Config, st: State)
    requires Inv(cfg, st)
    ensures SenderOk(st.s)
  {
    hide Consumed, ReceiverOk, FlowOk, Flatten, NetOk, AckPoint;
  }

  lemma Sent(cfg: Config, st: State, cwnd: int)
    requires ConfigOk(cfg) && Inv(cfg, st)
    ensures
      var st' := Next(cfg, st, Pack(cwnd));
      && SenderOk(st.s) && Inv(cfg, st')
      && var (s', out) := PackData(st.s, cwnd);
      && st' == st.(s := s', net := Post(st.net, out))
      && (out.Some? && out.value.Data? ==> 0 <= out.value.seqno && out.value in st'.net)
  {
    hide Consumed, ReceiverOk, FlowOk, Flatten, AckPoint;
    StepInv(cfg, st, Pack(cwnd));
    var (s', out) := PackData(st.s, cwnd);
    if out.Some? && out.value.Data? {
      assert PacketOk(cfg, Next(cfg, st, Pack(cwnd)).s, st.r, out.value);
    }
  }

  method AppSend(snd: Snd.SenderEnd, rcv: Rcv.ReceiverEnd, data: Bytes, ghost cfg: Config, ghost st: State)
    returns (taken: int, ghost st': State)
    requires Show(cfg, st, snd, rcv)
    modifies snd`s, snd`hdrs, snd.sndBuffer, snd.sndBuffer.repr
    ensures st' == Next(cfg, st, Step.AppSend(data)) && Show(cfg, st', snd, rcv)
    ensures 0 <= taken <= |data| && st'.accepted == st.accepted + data[..taken]
  {
    hide Inv, Snd.SenderEnd.Valid, Rcv.ReceiverEnd.Valid, SendData, Accepted;
    StepInv(cfg, st, Step.AppSend(data));
    taken := snd.Send(data);
    st' := Next(cfg, st, Step.AppSend(data));
  }

  method AppRecv(snd: Snd.SenderEnd, rcv: Rcv.ReceiverEnd, len: int, ghost cfg: Config, ghost st: State)
    returns (data: Bytes, ghost st': State)
    requires Show(cfg, st, snd, rcv)
    modifies rcv`r, rcv.rcvBuffer`startPos, rcv.rcvBuffer`notch, rcv.rcvBuffer`at, rcv.rcvBuffer`held
    modifies rcv.rcvBuffer`slots, rcv.rcvBuffer`start, rcv.rcvBuffer.pUnit, rcv.rcvBuffer.held, rcv.rcvBuffer.queue`count
    ensures st' == Next(cfg, st, Step.AppRecv(len)) && Show(cfg, st', snd, rcv)
    ensures st'.delivered == st.delivered + data
  {
    hide Inv, Snd.SenderEnd.Valid, Rcv.ReceiverEnd.Valid, Recv, Readable;
    StepInv(cfg, st, Step.AppRecv(len));
    data := rcv.Receive(len);
    st' := Next(cfg, st, Step.AppRecv(len));
  }

  method ExpireTimer(snd: Snd.SenderEnd, rcv: Rcv.ReceiverEnd, ghost cfg: Config, ghost st: State)
    returns (ghost st': State)
    requires Show(cfg, st, snd, rcv)
    modifies snd`s, snd`sndLossTotal, snd.lossList, snd.lossList.data1, snd.lossList.data2, snd.lossList.next
    ensures st' == Next(cfg, st, Expiry) && Show(cfg, st', snd, rcv)
  {
    hide Inv, Snd.SenderEnd.Valid, Rcv.ReceiverEnd.Valid, Expire;
    StepInv(cfg, st, Expiry);
    snd.Expire();
    st' := Next(cfg, st, Expiry);
  }

  /** The receiver may send an ACK; what travels is the packet System puts on the network. */
  method AckTimer(snd: Snd.SenderEnd, rcv: Rcv.ReceiverEnd, light: bool, repeat: bool, now: int,
                  ghost cfg: Config, ghost st: State)
    returns (p: Rcv.AckPacket, ghost out: Option<Packet>, ghost st': State)
    requires Show(cfg, st, snd, rcv)
    modifies rcv`r, rcv`rcvLastAck, rcv`ackSeqNo
    modifies rcv.ackWindow, rcv.ackWindow.ackSeqNo, rcv.ackWindow.ack, rcv.ackWindow.timeStamp
    modifies rcv.rcvBuffer`lastAckPos, rcv.rcvBuffer`maxPos, rcv.rcvBuffer`lastAck
    ensures st' == Next(cfg, st, Step.AckTimer(light, repeat)) && Show(cfg, st', snd, rcv)
    ensures Rcv.Carries(p, out) && st'.net == Post(st.net, out)
  {
    hide Inv, Snd.SenderEnd.Valid, Rcv.ReceiverEnd.Valid, Protocol.SendAck, Rcv.Carries;
    StepInv(cfg, st, Step.AckTimer(light, repeat));
    p, out := rcv.SendAck(light, repeat, now);
    st' := Next(cfg, st, Step.AckTimer(light, repeat));
  }

  /** The receiver reports what it misses, if anything. */
  method NakTimer(snd: Snd.SenderEnd, rcv: Rcv.ReceiverEnd, limit: int, ghost cfg: Config, ghost st: State)
    returns (words: seq<int>, ghost rs: seq<Interval>, ghost st': State)
    requires Show(cfg, st, snd, rcv) && limit > 0
    ensures Show(cfg, st', snd, rcv) && Rcv.Encodable(rs) && words == Encode(rs)
    ensures if words == [] then st' == st else st' == Next(cfg, st, Step.NakTimer(rs)) && Nak(rs) in st'.net
  {
    hide Inv, Snd.SenderEnd.Valid, Rcv.ReceiverEnd.Valid, Encode, Union, Increasing;
    ghost var all;
    words, rs, all := rcv.ReportLosses(limit);
    st' := st;
    if words != [] {
      StepInv(cfg, st, Step.NakTimer(rs));
      st' := Next(cfg, st, Step.NakTimer(rs));
    }
  }

  /** Whatever steps the real endpoints took: the bytes read are a prefix of the bytes accepted, and neither end has
      taken a packet of the other for an attack. */
  lemma EndpointsSafe(cfg: Config, st: State, snd: Snd.SenderEnd, rcv: Rcv.ReceiverEnd)
    requires Show(cfg, st, snd, rcv)
    ensures st.delivered <= st.accepted && !snd.broken
  {
    hide Flatten, Consumed, NetOk, AckPoint, Rcv.ReceiverEnd.Valid;
    InvSafe(cfg, st);
  }
}
