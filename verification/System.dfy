/** Two endpoints and a network that may lose, duplicate and reorder: the runs of the protocol and what every
    reachable state satisfies. */
module System {
  import opened Bytes
  import opened Runs
  import opened Protocol

  /** mss: payload bytes of a block; sndBuf, rcvBuf: buffer sizes in blocks; flow: the initial flow window. */
  datatype Config = Config(isn: int, mss: int, sndBuf: int, rcvBuf: int, flow: int)

  ghost predicate ConfigOk(cfg: Config) {
    0 <= cfg.isn && cfg.mss > 0 && 2 <= cfg.rcvBuf && cfg.flow <= cfg.rcvBuf
  }

  /** net: every packet ever sent. accepted, delivered: the bytes send took and recv returned so far. */
  datatype State = State(s: Sender, r: Receiver, net: set<Packet>, accepted: Bytes, delivered: Bytes)

  function Init(cfg: Config): State {
    State(Sender(cfg.isn, [], cfg.isn, cfg.isn, cfg.isn - 1, cfg.flow, {}, false),
          Receiver(cfg.rcvBuf, cfg.isn, cfg.isn, cfg.isn - 1, {}, cfg.isn, map[], 0, 0, []),
          {}, [], [])
  }

  datatype Step =
    | AppSend(data: Bytes)
    | AppRecv(len: int)
    | Pack(cwnd: int)                       // the send queue asks for a packet
    | Expiry                                // the response timer runs out
    | AckTimer(light: bool, repeat: bool)   // the receiver may send an ACK
    | NakTimer(losses: seq<Interval>)       // the receiver reports (some of) what it misses
    | Deliver(p: Packet, flag: bool)        // a packet arrives; flag is what the handler's clock reads decide

  ghost function Post(net: set<Packet>, p: Option<Packet>): set<Packet> {
    match p
    case None => net
    case Some(q) => net + {q}
  }

  ghost predicate Reportable(r: Receiver, rs: seq<Interval>) {
    forall i | 0 <= i < |rs| :: rs[i].lo <= rs[i].hi && rs[i].lo in r.loss && rs[i].hi in r.loss
  }

  ghost function Handle(st: State, p: Packet, flag: bool): State {
    match p
    case Data(n, payload) =>
      var (r, nak) := ProcessData(st.r, n, payload);
      st.(r := r, net := Post(st.net, nak))
    case Ack(k, ack, window) =>
      st.(s := ProcessAck(st.s, ack, window), net := if flag then st.net + {Ack2(k)} else st.net)
    case LightAck(ack) => st.(s := ProcessLightAck(st.s, ack))
    case Nak(losses) => st.(s := ProcessNak(st.s, losses))
    case Ack2(k) => st.(r := ProcessAck2(st.r, k, flag))
  }

  /** One atomic step. A step that is not enabled leaves the state alone. */
  ghost function Next(cfg: Config, st: State, step: Step): State {
    match step
    case AppSend(data) =>
      if cfg.mss > 0 then
        st.(s := SendData(st.s, data, cfg.sndBuf, cfg.mss),
            accepted := st.accepted + data[..Accepted(st.s, |data|, cfg.sndBuf, cfg.mss)])
      else st
    case AppRecv(len) =>
      if Readable(st.r) then
        var (r, out) := Recv(st.r, len);
        st.(r := r, delivered := st.delivered + out)
      else st
    case Pack(cwnd) =>
      if SenderOk(st.s) then
        var (s, p) := PackData(st.s, cwnd);
        st.(s := s, net := Post(st.net, p))
      else st
    case Expiry => st.(s := Expire(st.s))
    case AckTimer(light, repeat) =>
      var (r, p) := SendAck(st.r, light, repeat);
      st.(r := r, net := Post(st.net, p))
    case NakTimer(losses) =>
      if Reportable(st.r, losses) then st.(net := st.net + {Nak(losses)}) else st
    case Deliver(p, flag) =>
      if p in st.net then Handle(st, p, flag) else st
  }

  ghost function Run(cfg: Config, steps: seq<Step>): State
    decreases |steps|
  {
    if steps == [] then Init(cfg)
    else Next(cfg, Run(cfg, steps[..|steps| - 1]), steps[|steps| - 1])
  }

  // ----- the invariant -----

  /** Flow control keeps everything unacknowledged within one receive buffer. */
  ghost predicate FlowOk(cfg: Config, s: Sender) {
    s.lastAck + s.flow <= s.lastDataAck + cfg.rcvBuf && s.curr + 1 <= s.lastDataAck + cfg.rcvBuf
  }

  /** The two ends agree. */
  ghost predicate Coupled(s: Sender, r: Receiver) {
    && SenderOk(s)
    && s.isn <= r.start
    && s.lastAck <= AckPoint(r)
    && r.curr <= s.curr
    && (forall n | n in r.slots :: s.isn <= n <= s.curr && r.slots[n] == Payload(s, n))
  }

  ghost predicate PacketOk(cfg: Config, s: Sender, r: Receiver, p: Packet)
    requires SenderOk(s)
  {
    match p
    case Data(n, payload) => s.isn <= n <= s.curr && payload == Payload(s, n)
    case Ack(k, ack, window) => 0 <= k <= r.ackSeq && s.isn <= ack <= r.lastAck && window <= cfg.rcvBuf
    case LightAck(ack) => s.isn <= ack <= AckPoint(r)
    case Nak(rs) => forall i | 0 <= i < |rs| :: s.isn <= rs[i].lo <= rs[i].hi <= s.curr
    case Ack2(k) => 0 <= k <= r.ackSeq
  }

  ghost predicate NetOk(cfg: Config, s: Sender, r: Receiver, net: set<Packet>)
    requires SenderOk(s)
  {
    forall p | p in net :: PacketOk(cfg, s, r, p)
  }

  /** What recv has returned: the blocks before the read position, and the first notch bytes of that one. */
  ghost function Consumed(s: Sender, r: Receiver): Bytes
    requires Coupled(s, r) && ReceiverOk(r)
  {
    Flatten(s.chunks[..r.start - s.isn]) + (if r.start < r.lastAck then Payload(s, r.start)[..r.notch] else [])
  }

  ghost predicate Inv(cfg: Config, st: State) {
    && st.s.isn == cfg.isn && st.r.bufSize == cfg.rcvBuf && !st.s.broken && 0 <= st.r.ackSeq
    && ReceiverOk(st.r)
    && FlowOk(cfg, st.s)
    && Coupled(st.s, st.r)
    && NetOk(cfg, st.s, st.r, st.net)
    && st.accepted == Flatten(st.s.chunks)
    && st.delivered == Consumed(st.s, st.r)
  }

  lemma InitInv(cfg: Config)
    requires ConfigOk(cfg)
    ensures Inv(cfg, Init(cfg))
  {
  }

  // ----- sender steps -----

  /** Nothing the network carries depends on more than these parts of the sender. */
  lemma NetKept(cfg: Config, s: Sender, s': Sender, r: Receiver, net: set<Packet>)
    requires SenderOk(s) && SenderOk(s') && NetOk(cfg, s, r, net)
    requires s'.isn == s.isn && s.curr <= s'.curr && s.chunks <= s'.chunks
    ensures NetOk(cfg, s', r, net)
  {
    forall p | p in net ensures PacketOk(cfg, s', r, p) {
      assert PacketOk(cfg, s, r, p);
    }
  }

  lemma ConsumedKept(s: Sender, s': Sender, r: Receiver)
    requires Coupled(s, r) && ReceiverOk(r) && Coupled(s', r)
    requires s'.isn == s.isn && s.chunks <= s'.chunks
    ensures Consumed(s', r) == Consumed(s, r)
  {
    assert s'.chunks[..r.start - s.isn] == s.chunks[..r.start - s.isn];
  }

  lemma SendStep(cfg: Config, st: State, data: Bytes)
    requires Inv(cfg, st) && cfg.mss > 0
    ensures Inv(cfg, Next(cfg, st, AppSend(data)))
  {
    hide Flatten, Cut, Consumed, NetOk, ReceiverOk, AckPoint;
    var n := Accepted(st.s, |data|, cfg.sndBuf, cfg.mss);
    var s' := SendData(st.s, data, cfg.sndBuf, cfg.mss);
    FlattenCut(data[..n], cfg.mss);
    FlattenAppend(st.s.chunks, Cut(data[..n], cfg.mss));
    NetKept(cfg, st.s, s', st.r, st.net);
    ConsumedKept(st.s, s', st.r);
  }

  lemma PackStep(cfg: Config, st: State, cwnd: int)
    requires Inv(cfg, st)
    ensures Inv(cfg, Next(cfg, st, Pack(cwnd)))
  {
    hide Flatten, Consumed, NetOk, ReceiverOk, AckPoint;
    var (s', p) := PackData(st.s, cwnd);
    if st.s.loss != {} {
      assert IsMin(st.s.loss, Min(st.s.loss));
    }
    NetKept(cfg, st.s, s', st.r, st.net);
    ConsumedKept(st.s, s', st.r);
    PostOk(cfg, s', st.r, st.net, p);
  }

  lemma PostOk(cfg: Config, s: Sender, r: Receiver, net: set<Packet>, p: Option<Packet>)
    requires SenderOk(s) && NetOk(cfg, s, r, net)
    requires p.Some? ==> PacketOk(cfg, s, r, p.value)
    ensures NetOk(cfg, s, r, Post(net, p))
  {
  }

  lemma ExpiryStep(cfg: Config, st: State)
    requires Inv(cfg, st)
    ensures Inv(cfg, Next(cfg, st, Expiry))
  {
    hide Flatten, Consumed, NetOk, ReceiverOk, AckPoint;
    NetKept(cfg, st.s, Expire(st.s), st.r, st.net);
    ConsumedKept(st.s, Expire(st.s), st.r);
  }

  /** An ACK the receiver sent never lies past what was sent, so the handler does not call it an attack. */
  lemma AckStep(cfg: Config, st: State, p: Packet, flag: bool)
    requires Inv(cfg, st) && p in st.net && p.Ack?
    ensures Inv(cfg, Handle(st, p, flag))
  {
    hide Flatten, Consumed, NetOk, AckPoint;
    assert PacketOk(cfg, st.s, st.r, p) by {
      NetHas(cfg, st.s, st.r, st.net, p);
    }
    AckPointIs(st.r);
    var s' := ProcessAck(st.s, p.ack, p.window);
    NetKept(cfg, st.s, s', st.r, st.net);
    ConsumedKept(st.s, s', st.r);
    PostOk(cfg, s', st.r, st.net, Some(Ack2(p.ackSeq)));
  }

  lemma NetHas(cfg: Config, s: Sender, r: Receiver, net: set<Packet>, p: Packet)
    requires SenderOk(s) && NetOk(cfg, s, r, net) && p in net
    ensures PacketOk(cfg, s, r, p)
  {
  }

  lemma LightAckStep(cfg: Config, st: State, p: Packet, flag: bool)
    requires Inv(cfg, st) && p in st.net && p.LightAck?
    ensures Inv(cfg, Handle(st, p, flag))
  {
    hide Flatten, Consumed, NetOk, AckPoint;
    NetHas(cfg, st.s, st.r, st.net, p);
    AckPointIs(st.r);
    var s' := ProcessLightAck(st.s, p.ack);
    NetKept(cfg, st.s, s', st.r, st.net);
    ConsumedKept(st.s, s', st.r);
  }

  /** A report of numbers already sent marks exactly those not acknowledged yet. */
  lemma {:induction false} NakMarks(s: Sender, rs: seq<Interval>)
    requires SenderOk(s)
    requires forall i | 0 <= i < |rs| :: s.isn <= rs[i].lo <= rs[i].hi <= s.curr
    ensures ProcessNak(s, rs) == s.(loss := s.loss + set x | x in Union(rs) && x >= s.lastAck)
    ensures SenderOk(ProcessNak(s, rs))
    decreases |rs|
  {
    if rs == [] {
      assert s.loss + (set x | x in Union(rs) && x >= s.lastAck) == s.loss;
    } else {
      var s1 := ProcessInterval(s, rs[0]);
      NakMarks(s1, rs[1..]);
      assert s1.loss == s.loss + set x | x in Range(rs[0].lo, rs[0].hi) && x >= s.lastAck;
      assert s1.loss + (set x | x in Union(rs[1..]) && x >= s.lastAck)
          == s.loss + (set x | x in Union(rs) && x >= s.lastAck);
    }
  }

  lemma NakStep(cfg: Config, st: State, p: Packet, flag: bool)
    requires Inv(cfg, st) && p in st.net && p.Nak?
    ensures Inv(cfg, Handle(st, p, flag))
  {
    hide Flatten, Consumed, NetOk, ReceiverOk, AckPoint;
    NetHas(cfg, st.s, st.r, st.net, p);
    NakMarks(st.s, p.losses);
    var s' := ProcessNak(st.s, p.losses);
    NetKept(cfg, st.s, s', st.r, st.net);
    ConsumedKept(st.s, s', st.r);
  }

  // ----- receiver steps -----

  lemma NetKeptR(cfg: Config, s: Sender, r: Receiver, r': Receiver, net: set<Packet>)
    requires SenderOk(s) && NetOk(cfg, s, r, net)
    requires r.lastAck <= r'.lastAck && AckPoint(r) <= AckPoint(r') && r.ackSeq <= r'.ackSeq
    ensures NetOk(cfg, s, r', net)
  {
    hide AckPoint;
    forall p | p in net ensures PacketOk(cfg, s, r', p) {
      assert PacketOk(cfg, s, r, p);
    }
  }

  lemma DataStep(cfg: Config, st: State, p: Packet, flag: bool)
    requires Inv(cfg, st) && p in st.net && p.Data?
    ensures Inv(cfg, Handle(st, p, flag))
  {
    hide Flatten, NetOk, AckPoint, Consumed;
    NetHas(cfg, st.s, st.r, st.net, p);
    ReceiveOk(st.r, p.seqno, p.payload);
    var (r', nak) := ProcessData(st.r, p.seqno, p.payload);
    NetKeptR(cfg, st.s, st.r, r', st.net);
    PostOk(cfg, st.s, r', st.net, nak);
    ConsumedKeptR(st.s, st.r, r');
  }

  lemma ConsumedKeptR(s: Sender, r: Receiver, r': Receiver)
    requires ReceiverOk(r) && Coupled(s, r) && ReceiverOk(r') && Coupled(s, r')
    requires r'.start == r.start && r'.notch == r.notch && r.lastAck <= r'.lastAck
    requires r.start in r.slots ==> r.start in r'.slots
    ensures Consumed(s, r') == Consumed(s, r)
  {
    hide AckPoint, Flatten;
    if r.start == r.lastAck < r'.lastAck {
      assert Payload(s, r.start)[..0] == [];
    }
  }

  lemma AckTimerStep(cfg: Config, st: State, light: bool, repeat: bool)
    requires ConfigOk(cfg) && Inv(cfg, st)
    ensures Inv(cfg, Next(cfg, st, AckTimer(light, repeat)))
  {
    hide Flatten, NetOk, AckPoint, Consumed, SendAck;
    AckTimerOk(st.r, light, repeat);
    AckPointIs(st.r);
    var (r', p) := SendAck(st.r, light, repeat);
    NetKeptR(cfg, st.s, st.r, r', st.net);
    PostOk(cfg, st.s, r', st.net, p);
    ConsumedKeptR(st.s, st.r, r');
  }

  lemma NakTimerStep(cfg: Config, st: State, losses: seq<Interval>)
    requires Inv(cfg, st)
    ensures Inv(cfg, Next(cfg, st, NakTimer(losses)))
  {
    hide Flatten, NetOk, AckPoint, Consumed;
    if Reportable(st.r, losses) {
      PostOk(cfg, st.s, st.r, st.net, Some(Nak(losses)));
    }
  }

  lemma Ack2Step(cfg: Config, st: State, p: Packet, flag: bool)
    requires Inv(cfg, st) && p in st.net && p.Ack2?
    ensures Inv(cfg, Handle(st, p, flag))
  {
    hide Flatten, NetOk, Consumed;
    var r' := ProcessAck2(st.r, p.ackSeq, flag);
    assert ReceiverOk(r');
    NetKeptR(cfg, st.s, st.r, r', st.net);
    ConsumedKeptR(st.s, st.r, r');
  }

  lemma {:induction false} RecvConsumes(s: Sender, r: Receiver, len: int)
    requires ReceiverOk(r) && Coupled(s, r)
    ensures Readable(r)
    ensures
      var (r', out) := Recv(r, len);
      && ReceiverOk(r') && Coupled(s, r') && Consumed(s, r') == Consumed(s, r) + out
      && r'.lastAck == r.lastAck && r'.bufSize == r.bufSize && AckPoint(r') == AckPoint(r) && r'.ackSeq == r.ackSeq
    decreases r.lastAck - r.start
  {
    hide AckPoint, Flatten;
    if len <= 0 || r.start == r.lastAck {
      assert Consumed(s, r) + [] == Consumed(s, r);
    } else {
      var unit := r.slots[r.start][r.notch..];
      if len >= |unit| {
        var r1 := r.(slots := r.slots - {r.start}, start := r.start + 1, notch := 0);
        UnitConsumed(s, r, r1);
        RecvConsumes(s, r1, len - |unit|);
        var (r', rest) := Recv(r1, len - |unit|);
        assert Consumed(s, r) + (unit + rest) == Consumed(s, r) + unit + rest;
      } else {
        SameAckPoint(r, r.(notch := r.notch + len));
        assert r.slots[r.start][..r.notch + len] == r.slots[r.start][..r.notch] + unit[..len];
      }
    }
  }

  lemma SameAckPoint(r: Receiver, r': Receiver)
    requires r'.loss == r.loss && r'.curr == r.curr
    ensures AckPoint(r') == AckPoint(r)
  {
  }

  lemma UnitConsumed(s: Sender, r: Receiver, r1: Receiver)
    requires ReceiverOk(r) && Coupled(s, r) && r.start < r.lastAck
    requires r1 == r.(slots := r.slots - {r.start}, start := r.start + 1, notch := 0)
    ensures ReceiverOk(r1) && Coupled(s, r1) && AckPoint(r1) == AckPoint(r)
    ensures Consumed(s, r1) == Consumed(s, r) + r.slots[r.start][r.notch..]
  {
    hide AckPoint, Flatten;
    SameAckPoint(r, r1);
    assert ReceiverOk(r1) by {
      assert forall i | 0 <= i < |s.chunks| :: s.chunks[i] != [];
    }
    FlattenNext(s.chunks, r.start - s.isn);
    var c := Payload(s, r.start);
    assert c == c[..r.notch] + c[r.notch..];
    assert s.chunks[..r1.start - s.isn] == s.chunks[..r.start - s.isn + 1];
  }

  lemma RecvStep(cfg: Config, st: State, len: int)
    requires Inv(cfg, st)
    ensures Inv(cfg, Next(cfg, st, AppRecv(len)))
  {
    hide Flatten, NetOk, Consumed, AckPoint;
    RecvConsumes(st.s, st.r, len);
    NetKeptR(cfg, st.s, st.r, Recv(st.r, len).0, st.net);
  }

  // ----- every run -----

  lemma StepInv(cfg: Config, st: State, step: Step)
    requires ConfigOk(cfg) && Inv(cfg, st)
    ensures Inv(cfg, Next(cfg, st, step))
  {
    hide Inv;
    match step
    case AppSend(data) => SendStep(cfg, st, data);
    case AppRecv(len) => RecvStep(cfg, st, len);
    case Pack(cwnd) => PackStep(cfg, st, cwnd);
    case Expiry => ExpiryStep(cfg, st);
    case AckTimer(light, repeat) => AckTimerStep(cfg, st, light, repeat);
    case NakTimer(losses) => NakTimerStep(cfg, st, losses);
    case Deliver(p, flag) =>
      if p in st.net {
        match p
        case Data(_, _) => DataStep(cfg, st, p, flag);
        case Ack(_, _, _) => AckStep(cfg, st, p, flag);
        case LightAck(_) => LightAckStep(cfg, st, p, flag);
        case Nak(_) => NakStep(cfg, st, p, flag);
        case Ack2(_) => Ack2Step(cfg, st, p, flag);
      }
  }

  lemma {:induction false} RunInv(cfg: Config, steps: seq<Step>)
    requires ConfigOk(cfg)
    ensures Inv(cfg, Run(cfg, steps))
    decreases |steps|
  {
    hide Inv, Next;
    if steps == [] {
      InitInv(cfg);
    } else {
      RunInv(cfg, steps[..|steps| - 1]);
      StepInv(cfg, Run(cfg, steps[..|steps| - 1]), steps[|steps| - 1]);
    }
  }

  // ----- what every run guarantees -----

  /** What recv returned is a prefix of what send took, in any state that keeps the invariant. */
  lemma InvSafe(cfg: Config, st: State)
    requires Inv(cfg, st)
    ensures st.delivered <= st.accepted
  {
    hide Flatten, NetOk, AckPoint;
    var k := st.r.start - st.s.isn;
    FlattenPrefix(st.s.chunks, k);
    if st.r.start < st.r.lastAck {
      FlattenPrefix(st.s.chunks, k + 1);
      FlattenNext(st.s.chunks, k);
    }
  }

  /** End-to-end safety: over every interleaving of sends, transmissions, losses, duplications, reorderings,
      acknowledgements, loss reports and timeouts, recv has returned a prefix of what send accepted. */
  lemma StreamSafety(cfg: Config, steps: seq<Step>)
    requires ConfigOk(cfg)
    ensures Run(cfg, steps).delivered <= Run(cfg, steps).accepted
  {
    hide Run, Inv;
    RunInv(cfg, steps);
    InvSafe(cfg, Run(cfg, steps));
  }

  /** Nothing is lost or invented on the way: what was read, what can be read, and what the sender has not seen
      acknowledged by the reader's side make up exactly what was accepted. */
  lemma Conservation(cfg: Config, steps: seq<Step>)
    requires ConfigOk(cfg)
    ensures
      var st := Run(cfg, steps);
      && Readable(st.r) && 0 <= st.r.lastAck - st.s.isn <= |st.s.chunks|
      && st.accepted == st.delivered + Unread(st.r) + Flatten(st.s.chunks[st.r.lastAck - st.s.isn..])
  {
    hide Run, Flatten, NetOk, AckPoint, Unread, Consumed;
    RunInv(cfg, steps);
    var st := Run(cfg, steps);
    UnreadIs(st.s, st.r);
    FlattenPrefix(st.s.chunks, st.r.lastAck - st.s.isn);
  }

  lemma {:induction false} UnreadIs(s: Sender, r: Receiver)
    requires ReceiverOk(r) && Coupled(s, r)
    ensures Readable(r) && r.lastAck - s.isn <= |s.chunks|
    ensures Consumed(s, r) + Unread(r) == Flatten(s.chunks[..r.lastAck - s.isn])
    decreases r.lastAck - r.start
  {
    hide AckPoint, Flatten;
    if r.start == r.lastAck {
      assert Consumed(s, r) + [] == Consumed(s, r);
    } else {
      var r1 := r.(slots := r.slots - {r.start}, start := r.start + 1, notch := 0);
      UnitConsumed(s, r, r1);
      UnreadIs(s, r1);
      var unit := r.slots[r.start][r.notch..];
      assert Consumed(s, r) + (unit + Unread(r1)) == Consumed(s, r) + unit + Unread(r1);
    }
  }

  /** Once the receiver has read up to the last block, recv has returned all that send accepted. */
  lemma AllDelivered(cfg: Config, steps: seq<Step>)
    requires ConfigOk(cfg)
    requires Run(cfg, steps).r.start == cfg.isn + |Run(cfg, steps).s.chunks|
    ensures Run(cfg, steps).delivered == Run(cfg, steps).accepted
  {
    hide Run, Flatten, NetOk, AckPoint;
    RunInv(cfg, steps);
    var st := Run(cfg, steps);
    assert st.s.chunks[..st.r.start - st.s.isn] == st.s.chunks;
  }

  /** The counters of the two ends stay ordered, and the sender never takes a peer's packet for an attack. */
  lemma CountersOrdered(cfg: Config, steps: seq<Step>)
    requires ConfigOk(cfg)
    ensures
      var st := Run(cfg, steps);
      && st.s.lastDataAck <= st.s.lastAck <= AckPoint(st.r) <= st.r.curr + 1 <= st.s.curr + 1
      && st.r.start <= st.r.lastAck <= AckPoint(st.r)
      && !st.s.broken
  {
    hide Run, Flatten, NetOk, AckPoint, Consumed;
    RunInv(cfg, steps);
    AckPointIs(Run(cfg, steps).r);
  }

  /** In every reachable state, between the last ACK and the largest number received, a slot is empty exactly when
      its number is in the loss list; so the ACK number is the smallest number not received. */
  lemma SlotsMatchLosses(cfg: Config, steps: seq<Step>)
    requires ConfigOk(cfg)
    ensures
      var r := Run(cfg, steps).r;
      && (forall n | r.lastAck <= n <= r.curr :: n in r.slots <==> n !in r.loss)
      && (forall n | n in r.loss :: r.lastAck <= n < r.curr)
      && (forall n | r.start <= n < AckPoint(r) :: n in r.slots)
      && AckPoint(r) !in r.slots
  {
    hide Run, Flatten, NetOk, AckPoint, Consumed;
    RunInv(cfg, steps);
    AckPointIs(Run(cfg, steps).r);
  }

  /** However often a number is transmitted, it always carries the same block. */
  lemma SamePayload(cfg: Config, steps: seq<Step>, p: Packet, q: Packet)
    requires ConfigOk(cfg)
    requires p in Run(cfg, steps).net && q in Run(cfg, steps).net && p.Data? && q.Data? && p.seqno == q.seqno
    ensures p.payload == q.payload
  {
    hide Run, Flatten, AckPoint, Consumed;
    RunInv(cfg, steps);
    var st := Run(cfg, steps);
    assert PacketOk(cfg, st.s, st.r, p) && PacketOk(cfg, st.s, st.r, q);
  }
}
