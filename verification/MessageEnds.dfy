/** The real sender and the real receiver in message mode, side by side: each operation on them is the step of
    MessageSystem, so what MessageSystem proves of runs holds of the rings, the flags and the loss list. */
module MessageEnds {
  import opened Bytes
  import opened SeqNo
  import opened Protocol
  import opened UnitQueueModule
  import opened SndBufferModule
  import opened Messages
  import opened RcvBufferModule
  import S = MessageSystem
  import Snd = SenderEndModule
  import Rcv = ReceiverEndModule
  import E = Endpoints

  /** The sender has accepted these blocks with these headers. */
  ghost predicate ShowSender(cfg: S.Config, chunks: seq<Bytes>, hs: seq<Header>, nextMsgNo: int, snd: Snd.SenderEnd)
    reads snd, snd.sndBuffer, snd.sndBuffer.repr, snd.lossList, snd.lossList.data1, snd.lossList.data2, snd.lossList.next
  {
    && snd.Valid() && snd.s.isn == cfg.isn && snd.payloadSize == cfg.mss
    && snd.s.chunks == chunks && snd.hdrs == hs && snd.sndBuffer.nextMsgNo == nextMsgNo
  }

  /** The receiver's ring holds these units. */
  ghost predicate ShowReceiver(cfg: S.Config, cells: map<int, Cell>, slots: map<int, Bytes>, start: int, lastAck: int,
                               maxPos: int, rcv: Rcv.ReceiverEnd)
    reads rcv, rcv.rcvBuffer, rcv.rcvBuffer.pUnit, rcv.rcvBuffer.queue, rcv.rcvBuffer.queue.pool, rcv.rcvBuffer.held
    reads rcv.lossList, rcv.lossList.data1, rcv.lossList.data2, rcv.lossList.next, rcv.lossList.prior
    reads rcv.ackWindow, rcv.ackWindow.ackSeqNo, rcv.ackWindow.ack, rcv.ackWindow.timeStamp
  {
    && rcv.Valid() && rcv.rcvBuffer.MaxOk() && rcv.rcvBuffer.Views(cells)
    && rcv.r.bufSize == cfg.size && rcv.r.notch == 0
    && rcv.r.slots == slots && rcv.r.start == start && rcv.r.lastAck == lastAck && rcv.rcvBuffer.maxPos == maxPos
  }

  ghost predicate Show(cfg: S.Config, st: S.State, snd: Snd.SenderEnd, rcv: Rcv.ReceiverEnd)
    reads snd, snd.sndBuffer, snd.sndBuffer.repr, snd.lossList, snd.lossList.data1, snd.lossList.data2, snd.lossList.next
    reads rcv, rcv.rcvBuffer, rcv.rcvBuffer.pUnit, rcv.rcvBuffer.queue, rcv.rcvBuffer.queue.pool, rcv.rcvBuffer.held
    reads rcv.lossList, rcv.lossList.data1, rcv.lossList.data2, rcv.lossList.next, rcv.lossList.prior
    reads rcv.ackWindow, rcv.ackWindow.ackSeqNo, rcv.ackWindow.ack, rcv.ackWindow.timeStamp
  {
    && S.ConfigOk(cfg) && S.Inv(cfg, st) && E.Separate(snd, rcv)
    && ShowSender(cfg, st.chunks, st.hs, st.nextMsgNo, snd)
    && ShowReceiver(cfg, st.cells, st.slots, st.start, st.lastAck, st.maxPos, rcv)
  }

  lemma StoreFacts(cfg: S.Config, st: S.State)
    requires S.Inv(cfg, st)
    ensures MsgOk(st.cells, Numbered(st.hs, cfg.isn), cfg.isn, st.start, st.lastAck, st.maxPos)
    ensures st.slots.Keys == st.cells.Keys && forall n | n in st.cells :: n + 1 < st.start + cfg.size
  {
    hide S.SenderInv, S.GivenInv, MsgOk, Numbered;
    forall n | n in st.cells ensures n + 1 < st.start + cfg.size {
      assert n in st.slots.Keys;
    }
  }

  /** Connection setup. */
  method Connect(cfg: S.Config, q: UnitQueue, sndBuf: int, flow: int, flightFlagSize: int, ghost window: int)
    returns (snd: Snd.SenderEnd, rcv: Rcv.ReceiverEnd)
    requires S.ConfigOk(cfg) && cfg.isn <= MAX_SEQ && q.Valid() && 0 < flow <= window < SEQ_TH && window <= 2 * flow
    requires 2 <= cfg.size < SEQ_TH && 0 < flightFlagSize && cfg.size <= flightFlagSize + 2
    ensures Show(cfg, S.Init(cfg), snd, rcv) && rcv.rcvBuffer.queue == q
  {
    hide S.Inv, Snd.SenderEnd.Valid, Rcv.ReceiverEnd.Valid, RcvBuffer.Valid, UnitQueue.Valid;
    S.InitInv(cfg);
    rcv := new Rcv.ReceiverEnd(cfg.isn, q, cfg.size, flightFlagSize);
    rcv.BufferShows();
    snd := new Snd.SenderEnd(cfg.isn, sndBuf, cfg.mss, flow, window);
  }

  /** sendmsg. */
  method SendMessage(snd: Snd.SenderEnd, rcv: Rcv.ReceiverEnd, data: Bytes, inOrder: bool,
                     ghost cfg: S.Config, ghost st: S.State)
    returns (taken: int, ghost st': S.State)
    requires Show(cfg, st, snd, rcv)
    modifies snd`s, snd`hdrs, snd.sndBuffer, snd.sndBuffer.repr
    ensures Show(cfg, st', snd, rcv) && S.Next(cfg, st, S.Send(if taken == 0 then [] else data, inOrder), st')
    ensures taken == 0 || taken == |data|
  {
    hide S.Inv, Snd.SenderEnd.Valid, ShowReceiver, Cut, SendData, Frames;
    taken := snd.SendMsg(data, inOrder);
    st' := if taken == 0 then st else S.Sending(cfg, st, data, inOrder);
    S.StepInv(cfg, st, S.Send(if taken == 0 then [] else data, inOrder), st');
  }

  /** The sender packs a packet, new or lost: it carries the block and the header of its number. */
  method PackMessage(snd: Snd.SenderEnd, rcv: Rcv.ReceiverEnd, cwnd: int, ghost cfg: S.Config, ghost st: S.State)
    returns (seqno: int, payload: Bytes, header: Header, ghost n: int, ghost st': S.State)
    requires Show(cfg, st, snd, rcv)
    modifies snd, snd.sndBuffer, snd.lossList, snd.lossList.data1, snd.lossList.data2, snd.lossList.next
    ensures Show(cfg, st', snd, rcv)
    ensures S.Next(cfg, st, S.Transmit(n), st')
    ensures payload != [] ==> 0 <= n && seqno == Wire(n) && S.Packet(n, payload, header) in st'.net
    ensures payload == [] ==> st' == st
  {
    hide S.Inv, Snd.SenderEnd.Valid, ShowReceiver, Wire, PackData;
    SenderIsOk(snd);
    ghost var out;
    seqno, payload, header, out := snd.Pack(cwnd);
    n, st' := cfg.isn - 1, st;
    Packed(old(snd.s), cwnd);
    if payload != [] {
      n := out.value.seqno;
      st' := st.(net := st.net + {S.Packet(n, payload, header)});
    }
    S.StepInv(cfg, st, S.Transmit(n), st');
  }

  lemma SenderIsOk(snd: Snd.SenderEnd)
    requires snd.Valid()
    ensures SenderOk(snd.s)
  {
    hide Wire;
  }

  lemma Packed(s: Sender, cwnd: int)
    requires SenderOk(s)
    ensures
      var (s', out) := PackData(s, cwnd);
      && s'.chunks == s.chunks && s'.isn == s.isn
      && (out != None ==> out.value.Data? && 0 <= out.value.seqno - s.isn < |s.chunks|
                          && out.value.payload == s.chunks[out.value.seqno - s.isn])
  {
  }

  /** A packet that is not too old arrives: its unit is stored if the ring has room for it, and the gap in front of it
      is reported. */
  method ArriveMessage(snd: Snd.SenderEnd, rcv: Rcv.ReceiverEnd, unit: Unit, seqno: int,
                       ghost cfg: S.Config, ghost st: S.State, ghost p: S.Packet)
    returns (nak: seq<int>, ghost out: Option<Protocol.Packet>, ghost st': S.State)
    requires Show(cfg, st, snd, rcv) && p in st.net && Near(p.n, st.lastAck) && seqno == Wire(p.n)
    requires unit in rcv.rcvBuffer.queue.pool && unit.flag == 0 && unit.payload == p.payload && unit.header == p.header
    modifies rcv`r, rcv`rcvCurrSeqNo, rcv`rcvLossTotal
    modifies rcv.rcvBuffer`maxPos, rcv.rcvBuffer`at, rcv.rcvBuffer`held, rcv.rcvBuffer`slots, rcv.rcvBuffer.pUnit
    modifies unit`flag, rcv.rcvBuffer.queue`count
    modifies rcv.lossList, rcv.lossList.data1, rcv.lossList.data2, rcv.lossList.next, rcv.lossList.prior
    ensures Show(cfg, st', snd, rcv) && S.Next(cfg, st, S.Arrive(p), st')
    ensures (rcv.r, out) == ProcessData(old(rcv.r), p.n, p.payload) && Rcv.Sends(nak, out)
  {
    hide S.Inv, ShowSender, Rcv.ReceiverEnd.Valid, RcvBuffer.Views, RcvBuffer.MaxOk, Wire, Near;
    CarriedHeader(cfg, st, snd, p);
    ghost var v;
    ghost var r0 := rcv.r;
    nak, out, v := rcv.ProcessMsgData(unit, seqno, p.n, st.cells);
    Rcv.DataIs(r0, p.n, unit.payload);
    st' := if 0 <= p.n - st.lastAck < Avail(r0) then S.Storing(st, p) else st;
    S.StepInv(cfg, st, S.Arrive(p), st');
  }

  lemma CarriedHeader(cfg: S.Config, st: S.State, snd: Snd.SenderEnd, p: S.Packet)
    requires S.ConfigOk(cfg) && S.Inv(cfg, st) && ShowSender(cfg, st.chunks, st.hs, st.nextMsgNo, snd) && p in st.net
    ensures 0 <= p.n && p.payload != []
    ensures st.slots.Keys == st.cells.Keys && (p.n in st.cells ==> p.n - st.lastAck <= st.maxPos)
  {
    hide S.SenderInv, S.GivenInv;
    SenderIsOk(snd);
    assert S.Carries(cfg, st, p);
  }

  /** The receiver may send an ACK. */
  method AckMessages(snd: Snd.SenderEnd, rcv: Rcv.ReceiverEnd, light: bool, repeat: bool, now: int,
                     ghost cfg: S.Config, ghost st: S.State)
    returns (p: Rcv.AckPacket, ghost out: Option<Protocol.Packet>, ghost st': S.State)
    requires Show(cfg, st, snd, rcv)
    modifies rcv`r, rcv`rcvLastAck, rcv`ackSeqNo
    modifies rcv.ackWindow, rcv.ackWindow.ackSeqNo, rcv.ackWindow.ack, rcv.ackWindow.timeStamp
    modifies rcv.rcvBuffer`lastAckPos, rcv.rcvBuffer`maxPos, rcv.rcvBuffer`lastAck
    ensures Show(cfg, st', snd, rcv) && S.Next(cfg, st, S.Acknowledge(st'.lastAck - st.lastAck), st')
    ensures (rcv.r, out) == SendAck(old(rcv.r), light, repeat) && Rcv.Carries(p, out)
  {
    hide S.Inv, ShowSender, Rcv.ReceiverEnd.Valid, RcvBuffer.Views, Rcv.Carries, Protocol.SendAck, MsgOk;
    StoreFacts(cfg, st);
    p, out := rcv.SendMsgAck(light, repeat, now, st.cells);
    st' := S.Acked(st, rcv.r.lastAck - st.lastAck);
    S.StepInv(cfg, st, S.Acknowledge(rcv.r.lastAck - st.lastAck), st');
  }

  /** recvmsg: what it returns is the newest entry of the messages read. */
  method ReadMessage(snd: Snd.SenderEnd, rcv: Rcv.ReceiverEnd, len: int, ghost cfg: S.Config, ghost st: S.State)
    returns (data: Bytes, ghost st': S.State)
    requires Show(cfg, st, snd, rcv) && 0 <= len
    modifies rcv`r, rcv.rcvBuffer`startPos, rcv.rcvBuffer`at, rcv.rcvBuffer`held, rcv.rcvBuffer`slots, rcv.rcvBuffer`start
    modifies rcv.rcvBuffer.pUnit, rcv.rcvBuffer.held, rcv.rcvBuffer.queue`count
    ensures Show(cfg, st', snd, rcv) && S.Next(cfg, st, S.Read(len), st')
    ensures if st'.given == st.given then data == []
            else |st'.given| == |st.given| + 1 && st'.given[|st.given|].data == data
  {
    hide S.Inv, ShowSender, Rcv.ReceiverEnd.Valid, RcvBuffer.Views, MsgOk, From, Marked, Deliverable, Text, Cutoff;
    StoreFacts(cfg, st);
    ghost var h := Numbered(st.hs, cfg.isn);
    S.MsgStart(st.cells, h, cfg.isn, st.start, st.lastAck, st.maxPos);
    ghost var found, a, b, v;
    data, found, a, b, v := rcv.ReceiveMsg(len, st.cells, h, cfg.isn);
    ghost var g := S.Given(a, b, len, data);
    S.MsgStart(v, h, cfg.isn, rcv.r.start, rcv.r.lastAck, rcv.rcvBuffer.maxPos);
    st' := st.(cells := v, slots := rcv.r.slots, start := rcv.r.start, given := if found then st.given + [g] else st.given);
    ReadRelates(h, st, st', found, g);
    S.StepInv(cfg, st, S.Read(len), st');
  }

  /** What readMsg ensures is the step of MessageSystem. */
  lemma ReadRelates(h: int -> Header, st: S.State, st': S.State, found: bool, g: S.Given)
    requires st' == st.(cells := st'.cells, slots := st'.slots, start := st'.start,
                        given := if found then st.given + [g] else st.given)
    requires st.start <= st'.start <= st.lastAck && 0 <= g.len
    requires st'.cells == if !found then From(st.cells, st'.start)
                          else if g.b < st.lastAck then From(st.cells, g.b + 1)
                          else Marked(From(st.cells, st'.start), g.a, g.b)
    requires found ==>
      && st.start <= g.a && Deliverable(st.cells, h, st.lastAck, g.a, g.b)
      && g.data == Cutoff(Text(st.slots, g.a, g.b), g.len)
      && if g.b < st.lastAck then st'.start == g.b + 1 else st'.start <= g.a
    requires st.start == st.lastAck && st.maxPos <= 0 ==> !found
    requires !found && !(st.start == st.lastAck && st.maxPos <= 0) ==>
      forall d, c | st.start <= d :: !Deliverable(st.cells, h, st.lastAck, d, c)
    requires found ==> forall d, c | st.start <= d && c < g.b :: !Deliverable(st.cells, h, st.lastAck, d, c)
    requires forall n | n in st.cells && n !in st'.cells :: st.cells[n].flag == 2 || (found && g.a <= n <= g.b)
    requires st'.slots.Keys == st'.cells.Keys && forall n | n in st'.slots :: n in st.slots && st'.slots[n] == st.slots[n]
    ensures if found then S.ReadsOne(h, st, st', g) else S.ReadsNone(h, st, st')
    ensures st'.given == if found then st.given + [g] else st.given
  {
    hide Deliverable, Text, Cutoff;
    forall n | n in st.cells && n < st'.start ensures n !in st'.cells {
    }
  }

  /** Whatever steps the real ends took: what was read are messages sent, none of them twice. */
  lemma MessageEndsSafe(cfg: S.Config, st: S.State, snd: Snd.SenderEnd, rcv: Rcv.ReceiverEnd)
    requires Show(cfg, st, snd, rcv)
    ensures forall i | 0 <= i < |st.given| :: S.Faithful(st.sent, st.given[i])
    ensures forall i, j | 0 <= i < j < |st.given| :: S.Apart(cfg, snd.hdrs, st.given[i], st.given[j])
  {
    hide S.SenderInv, S.StoreInv, S.Faithful, S.Apart, Snd.SenderEnd.Valid, RcvBuffer.Valid;
  }
}
