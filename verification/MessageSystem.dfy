/** Message mode from end to end: a sender that frames messages, a network that may lose, duplicate and reorder, and a
    receive buffer read message by message. What every reachable state satisfies: each message read is one whole
    message sent, none is read twice, and those that must stay in order do. */
module MessageSystem {
  import opened Bytes
  import opened SndBufferModule
  import opened Messages

  /** isn: the first number; mss: payload bytes of a block; size: slots of the receive ring. */
  datatype Config = Config(isn: int, mss: int, size: int)

  ghost predicate ConfigOk(cfg: Config) {
    0 <= cfg.isn && cfg.mss > 0 && cfg.size > 0
  }

  /** A message sent: its blocks are a..b. */
  datatype Sent = Sent(a: int, b: int, data: Bytes, inOrder: bool)

  /** A message read: its blocks are a..b; the reader had room for len bytes. */
  datatype Given = Given(a: int, b: int, len: int, data: Bytes)

  datatype Packet = Packet(n: int, payload: Bytes, header: Header)

  /** chunks[i], hs[i]: payload and header of block isn + i. net: every packet ever sent. sent, given: the messages sent
      and read so far, in order. The rest is the receive buffer. */
  datatype State = State(chunks: seq<Bytes>, hs: seq<Header>, nextMsgNo: int, net: set<Packet>, sent: seq<Sent>,
                         cells: map<int, Cell>, slots: map<int, Bytes>, start: int, lastAck: int, maxPos: int,
                         given: seq<Given>)

  function Init(cfg: Config): State {
    State([], [], 1, {}, [], map[], map[], cfg.isn, cfg.isn, 0, [])
  }

  datatype Step =
    | Send(data: Bytes, inOrder: bool)
    | Transmit(n: int)                  // for the first time or again
    | Arrive(p: Packet)
    | Acknowledge(len: int)             // the receive buffer counts len more units as acknowledged
    | Read(len: int)

  function Sending(cfg: Config, st: State, data: Bytes, inOrder: bool): State
    requires cfg.mss > 0
  {
    var cs := Cut(data, cfg.mss);
    var a := cfg.isn + |st.hs|;
    st.(chunks := st.chunks + cs, hs := st.hs + Frames(|cs|, st.nextMsgNo, inOrder),
        nextMsgNo := NextMsgNo(st.nextMsgNo), sent := st.sent + [Sent(a, a + |cs| - 1, data, inOrder)])
  }

  /** A packet that the ring has room for is stored unless its slot is taken. */
  function Storing(st: State, p: Packet): State {
    var offset := p.n - st.lastAck;
    if p.n in st.cells then st
    else st.(cells := st.cells[p.n := Cell(1, p.header)], slots := st.slots[p.n := p.payload],
             maxPos := if offset > st.maxPos then offset else st.maxPos)
  }

  function Acked(st: State, len: int): State {
    st.(lastAck := st.lastAck + len, maxPos := if st.maxPos < len then 0 else st.maxPos - len)
  }

  /** Some read units and the message read are gone from the store or marked, and nothing else. */
  ghost predicate Remains(st: State, st': State, keep: map<int, Cell>) {
    && st' == st.(cells := st'.cells, slots := st'.slots, start := st'.start, given := st'.given)
    && st'.cells == keep && st.start <= st'.start <= st.lastAck
    && st'.slots.Keys == st'.cells.Keys && (forall n | n in st'.slots :: n in st.slots && st'.slots[n] == st.slots[n])
  }

  /** Nothing is read, because nothing may be or the buffer looks empty. */
  ghost predicate ReadsNone(h: int -> Header, st: State, st': State) {
    && Remains(st, st', From(st.cells, st'.start)) && st'.given == st.given
    && (forall n | n in st.cells && n < st'.start :: st.cells[n].flag == 2)
    && (st.start != st.lastAck || st.maxPos > 0 ==>
          forall a, b | st.start <= a :: !Deliverable(st.cells, h, st.lastAck, a, b))
  }

  /** Message g, the first to end of those that may be delivered, is read: in order and released, or early and marked. */
  ghost predicate ReadsOne(h: int -> Header, st: State, st': State, g: Given) {
    && (st.start != st.lastAck || st.maxPos > 0)
    && 0 <= g.len && st.start <= g.a && Deliverable(st.cells, h, st.lastAck, g.a, g.b)
    && (forall a, b | st.start <= a && b < g.b :: !Deliverable(st.cells, h, st.lastAck, a, b))
    && g.data == Cutoff(Text(st.slots, g.a, g.b), g.len)
    && (if g.b < st.lastAck then Remains(st, st', From(st.cells, g.b + 1)) && st'.start == g.b + 1
        else Remains(st, st', Marked(From(st.cells, st'.start), g.a, g.b)) && st'.start <= g.a)
    && (forall n | n in st.cells && n < st'.start :: st.cells[n].flag == 2 || g.a <= n <= g.b)
    && st'.given == st.given + [g]
  }

  ghost predicate Next(cfg: Config, st: State, step: Step, st': State) {
    match step
    case Send(data, inOrder) => cfg.mss > 0 && st' == if data == [] then st else Sending(cfg, st, data, inOrder)
    case Transmit(n) =>
      var i := n - cfg.isn;
      st' == if 0 <= i < |st.chunks| && i < |st.hs| then st.(net := st.net + {Packet(n, st.chunks[i], st.hs[i])}) else st
    case Arrive(p) =>
      st' == if p in st.net && st.lastAck <= p.n && p.n + 1 < st.start + cfg.size then Storing(st, p) else st
    case Acknowledge(len) =>
      st' == if 0 <= len && st.lastAck + len < st.start + cfg.size
                && (forall n | st.lastAck <= n < st.lastAck + len :: n in st.cells) then Acked(st, len) else st
    case Read(len) =>
      var h := Numbered(st.hs, cfg.isn);
      || ReadsNone(h, st, st')
      || (st'.given != [] && st'.given[|st'.given| - 1].len == len && ReadsOne(h, st, st', st'.given[|st'.given| - 1]))
  }

  /** The states sts follow each other by these steps. */
  ghost predicate Run(cfg: Config, steps: seq<Step>, sts: seq<State>) {
    && |sts| == |steps| + 1 && sts[0] == Init(cfg)
    && forall i | 0 <= i < |steps| :: Next(cfg, sts[i], steps[i], sts[i + 1])
  }

  // ----- the invariant -----

  /** Blocks a..b are message m, framed. */
  ghost predicate Framing(cfg: Config, chunks: seq<Bytes>, hs: seq<Header>, m: Sent) {
    && cfg.isn <= m.a <= m.b < cfg.isn + |hs| && |hs| == |chunks|
    && hs[m.a - cfg.isn].first && hs[m.b - cfg.isn].last
    && (forall i | m.a - cfg.isn <= i < m.b - cfg.isn :: !hs[i].last)
    && hs[m.b - cfg.isn].inOrder == m.inOrder
    && Flatten(chunks[m.a - cfg.isn..m.b + 1 - cfg.isn]) == m.data
  }

  /** The messages sent take up all numbers from isn to end, one after the other. */
  ghost predicate Tiled(sent: seq<Sent>, isn: int, end: int) {
    if sent == [] then end == isn
    else
      var m := sent[|sent| - 1];
      m.a <= m.b && m.b + 1 == end && Tiled(sent[..|sent| - 1], isn, m.a)
  }

  ghost predicate SenderInv(cfg: Config, st: State) {
    && |st.hs| == |st.chunks| && FramedSeq(st.hs)
    && Tiled(st.sent, cfg.isn, cfg.isn + |st.hs|)
    && forall i | 0 <= i < |st.sent| :: Framing(cfg, st.chunks, st.hs, st.sent[i])
  }

  /** A packet carries the block of its number. */
  ghost predicate Carries(cfg: Config, st: State, p: Packet) {
    var i := p.n - cfg.isn;
    0 <= i < |st.chunks| && i < |st.hs| && p.payload == st.chunks[i] && p.header == st.hs[i]
  }

  ghost predicate StoreInv(cfg: Config, st: State) {
    && MsgOk(st.cells, Numbered(st.hs, cfg.isn), cfg.isn, st.start, st.lastAck, st.maxPos)
    && st.slots.Keys == st.cells.Keys && |st.hs| == |st.chunks|
    && st.lastAck <= cfg.isn + |st.hs|
    && 0 <= st.maxPos && st.lastAck + st.maxPos < st.start + cfg.size
    && forall n | n in st.slots :: && cfg.isn <= n < cfg.isn + |st.chunks| && n + 1 < st.start + cfg.size
                                   && st.slots[n] == st.chunks[n - cfg.isn]
  }

  /** What was read is message m, cut to the reader's room. */
  ghost predicate Is(g: Given, m: Sent) {
    m.a == g.a && m.b == g.b && 0 <= g.len && g.data == Cutoff(m.data, g.len)
  }

  ghost predicate Faithful(sent: seq<Sent>, g: Given) {
    exists j :: 0 <= j < |sent| && Is(g, sent[j])
  }

  ghost predicate Covered(given: seq<Given>, n: int) {
    exists i :: 0 <= i < |given| && given[i].a <= n <= given[i].b
  }

  ghost predicate WasRead(cfg: Config, st: State, n: int) {
    cfg.isn <= n < st.start || (n in st.cells && st.cells[n].flag == 2)
  }

  /** The message was sent to be read in order only. */
  ghost predicate Ordered(cfg: Config, hs: seq<Header>, g: Given) {
    0 <= g.b - cfg.isn < |hs| && hs[g.b - cfg.isn].inOrder
  }

  /** i was read before j: they share no block, and j comes later in the stream if i must stay in order. */
  ghost predicate Apart(cfg: Config, hs: seq<Header>, i: Given, j: Given) {
    && (i.b < j.a || j.b < i.a)
    && (Ordered(cfg, hs, i) ==> i.b < j.a)
  }

  ghost predicate GivenInv(cfg: Config, st: State) {
    && (forall i | 0 <= i < |st.given| :: Faithful(st.sent, st.given[i]))
    && (forall i | 0 <= i < |st.given| :: Ordered(cfg, st.hs, st.given[i]) ==> st.given[i].b < st.start)
    && (forall i, j | 0 <= i < j < |st.given| :: Apart(cfg, st.hs, st.given[i], st.given[j]))
    && (forall n :: WasRead(cfg, st, n) <==> Covered(st.given, n))
  }

  ghost predicate Inv(cfg: Config, st: State) {
    && SenderInv(cfg, st) && (forall p | p in st.net :: Carries(cfg, st, p))
    && StoreInv(cfg, st) && GivenInv(cfg, st)
  }

  // ----- sending -----

  lemma FramingGrows(cfg: Config, chunks: seq<Bytes>, hs: seq<Header>, cs: seq<Bytes>, gs: seq<Header>, m: Sent)
    requires Framing(cfg, chunks, hs, m) && |cs| == |gs|
    ensures Framing(cfg, chunks + cs, hs + gs, m)
  {
    var i, j := m.a - cfg.isn, m.b + 1 - cfg.isn;
    assert (chunks + cs)[i..j] == chunks[i..j];
  }

  lemma FramingNew(cfg: Config, chunks: seq<Bytes>, hs: seq<Header>, data: Bytes, msgNo: int, inOrder: bool)
    requires cfg.mss > 0 && |hs| == |chunks| && data != []
    ensures
      var cs := Cut(data, cfg.mss);
      var a := cfg.isn + |hs|;
      && cs != []
      && Framing(cfg, chunks + cs, hs + Frames(|cs|, msgNo, inOrder), Sent(a, a + |cs| - 1, data, inOrder))
  {
    var cs := Cut(data, cfg.mss);
    FlattenCut(data, cfg.mss);
    assert (chunks + cs)[|chunks|..|chunks| + |cs|] == cs;
  }

  lemma SendSender(cfg: Config, st: State, data: Bytes, inOrder: bool)
    requires ConfigOk(cfg) && SenderInv(cfg, st) && data != []
    ensures SenderInv(cfg, Sending(cfg, st, data, inOrder))
  {
    hide Framing, FramedSeq, Cut, Frames;
    var st' := Sending(cfg, st, data, inOrder);
    var cs := Cut(data, cfg.mss);
    var gs := Frames(|cs|, st.nextMsgNo, inOrder);
    FramesFramed(st.hs, |cs|, st.nextMsgNo, inOrder);
    FramingNew(cfg, st.chunks, st.hs, data, st.nextMsgNo, inOrder);
    assert st'.sent[..|st.sent|] == st.sent;
    forall i | 0 <= i < |st'.sent| ensures Framing(cfg, st'.chunks, st'.hs, st'.sent[i]) {
      if i < |st.sent| {
        FramingGrows(cfg, st.chunks, st.hs, cs, gs, st.sent[i]);
      }
    }
  }

  /** More headers change nothing for what is stored already. */
  lemma MsgOkGrows(v: map<int, Cell>, hs: seq<Header>, gs: seq<Header>, isn: int, start: int, lastAck: int, maxPos: int)
    requires MsgOk(v, Numbered(hs, isn), isn, start, lastAck, maxPos) && FramedSeq(hs + gs) && FramedSeq(hs)
    requires lastAck <= isn + |hs| && (forall n | n in v :: n < isn + |hs|)
    ensures MsgOk(v, Numbered(hs + gs, isn), isn, start, lastAck, maxPos)
  {
    hide FramedSeq;
    var h, h' := Numbered(hs, isn), Numbered(hs + gs, isn);
    NumberedFramed(hs + gs, isn);
    assert forall n | isn <= n < isn + |hs| :: h'(n) == h(n);
    assert h'(start).first || start < isn + |hs| by {
      NextFirst(hs, gs, isn);
    }
    assert forall n | n in v :: isn <= n < isn + |hs| && h'(n) == h(n);
  }

  /** After all messages framed so far a new one starts. */
  lemma NextFirst(hs: seq<Header>, gs: seq<Header>, isn: int)
    requires FramedSeq(hs) && FramedSeq(hs + gs)
    ensures Numbered(hs + gs, isn)(isn + |hs|).first
  {
    var all := hs + gs;
    if gs != [] && hs != [] {
      assert all[|hs| - 1] == hs[|hs| - 1];
    }
  }

  lemma SendStep(cfg: Config, st: State, data: Bytes, inOrder: bool)
    requires ConfigOk(cfg) && Inv(cfg, st) && data != []
    ensures Inv(cfg, Sending(cfg, st, data, inOrder))
  {
    hide Framing, Cut, Frames, Tiled, MsgOk, Faithful, FramedSeq, Numbered;
    var st' := Sending(cfg, st, data, inOrder);
    SendSender(cfg, st, data, inOrder);
    var gs := Frames(|Cut(data, cfg.mss)|, st.nextMsgNo, inOrder);
    assert forall n | n in st.cells :: n in st.slots.Keys;
    MsgOkGrows(st.cells, st.hs, gs, cfg.isn, st.start, st.lastAck, st.maxPos);
    forall i | 0 <= i < |st.given|
      ensures Faithful(st'.sent, st'.given[i])
      ensures Ordered(cfg, st'.hs, st.given[i]) <==> Ordered(cfg, st.hs, st.given[i])
    {
      StillFaithful(st.sent, st'.sent, st.given[i]);
      GivenFits(cfg, st, st.given[i]);
    }
    forall i, j | 0 <= i < j < |st.given| ensures Apart(cfg, st'.hs, st.given[i], st.given[j]) {
      GivenFits(cfg, st, st.given[i]);
      assert Apart(cfg, st.hs, st.given[i], st.given[j]);
    }
    assert forall n :: WasRead(cfg, st', n) <==> WasRead(cfg, st, n);
  }

  lemma StillFaithful(sent: seq<Sent>, sent': seq<Sent>, g: Given)
    requires Faithful(sent, g) && sent <= sent'
    ensures Faithful(sent', g)
  {
    var j :| 0 <= j < |sent| && Is(g, sent[j]);
    assert sent'[j] == sent[j];
  }

  lemma GivenFits(cfg: Config, st: State, g: Given)
    requires SenderInv(cfg, st) && Faithful(st.sent, g)
    ensures cfg.isn <= g.a <= g.b < cfg.isn + |st.hs|
  {
    hide FramedSeq, Tiled, Flatten;
    var j :| 0 <= j < |st.sent| && Is(g, st.sent[j]);
    assert Framing(cfg, st.chunks, st.hs, st.sent[j]);
  }

  // ----- the network, storing and acknowledging -----

  lemma TransmitStep(cfg: Config, st: State, n: int, st': State)
    requires ConfigOk(cfg) && Inv(cfg, st) && Next(cfg, st, Transmit(n), st')
    ensures Inv(cfg, st')
  {
    hide SenderInv, MsgOk, Faithful, Apart;
    SenderKept(cfg, st, st');
    assert forall p | p in st.net :: Carries(cfg, st, p);
    assert forall n :: WasRead(cfg, st', n) <==> WasRead(cfg, st, n);
  }

  lemma ArriveStep(cfg: Config, st: State, p: Packet)
    requires ConfigOk(cfg) && Inv(cfg, st) && p in st.net && st.lastAck <= p.n && p.n + 1 < st.start + cfg.size
    ensures Inv(cfg, Storing(st, p))
  {
    hide SenderInv, MsgOk, Faithful, Apart;
    var st' := Storing(st, p);
    if p.n !in st.cells {
      assert Carries(cfg, st, p);
      Arrives(st.cells, Numbered(st.hs, cfg.isn), cfg.isn, st.start, st.lastAck, st.maxPos, p.n);
      SenderKept(cfg, st, st');
      assert forall n :: WasRead(cfg, st', n) <==> WasRead(cfg, st, n);
    }
  }

  lemma SenderKept(cfg: Config, st: State, st': State)
    requires SenderInv(cfg, st) && st'.chunks == st.chunks && st'.hs == st.hs && st'.sent == st.sent
    ensures SenderInv(cfg, st')
  {
  }

  lemma AcknowledgeStep(cfg: Config, st: State, len: int)
    requires ConfigOk(cfg) && Inv(cfg, st) && 0 <= len && st.lastAck + len < st.start + cfg.size
    requires forall n | st.lastAck <= n < st.lastAck + len :: n in st.cells
    ensures Inv(cfg, Acked(st, len))
  {
    hide SenderInv, MsgOk, Faithful, Apart;
    var st' := Acked(st, len);
    Acknowledges(st.cells, Numbered(st.hs, cfg.isn), cfg.isn, st.start, st.lastAck, st.maxPos, len);
    SenderKept(cfg, st, st');
    if len > 0 {
      assert st.lastAck + len - 1 in st.slots.Keys;
    }
    assert forall n :: WasRead(cfg, st', n) <==> WasRead(cfg, st, n);
  }

  // ----- reading -----

  /** Dropping units already read from the front keeps message mode's invariant. */
  lemma DropRead(v: map<int, Cell>, h: int -> Header, isn: int, start: int, lastAck: int, maxPos: int, t: int)
    requires MsgOk(v, h, isn, start, lastAck, maxPos) && start <= t <= lastAck
    requires forall n | n in v && n < t :: v[n].flag == 2
    ensures MsgOk(From(v, t), h, isn, t, lastAck, maxPos)
  {
    if t > start {
      assert t - 1 in v && v[t - 1].flag == 2;
      assert h(t - 1 + 1).first <==> h(t - 1).last;
    }
  }

  /** So does dropping everything up to the end of an unread message. */
  lemma DropMessage(v: map<int, Cell>, h: int -> Header, isn: int, start: int, lastAck: int, maxPos: int, a: int, b: int)
    requires MsgOk(v, h, isn, start, lastAck, maxPos) && start <= a && b < lastAck && Whole(h, a, b)
    ensures MsgOk(From(v, b + 1), h, isn, b + 1, lastAck, maxPos)
  {
    assert h(b + 1).first <==> h(b).last;
  }

  lemma ReadStore(cfg: Config, st: State, st': State)
    requires ConfigOk(cfg) && StoreInv(cfg, st)
    requires
      var h := Numbered(st.hs, cfg.isn);
      ReadsNone(h, st, st') || (st'.given != [] && ReadsOne(h, st, st', st'.given[|st'.given| - 1]))
    ensures StoreInv(cfg, st')
  {
    hide MsgOk, Numbered, From, Marked, Unread, Whole, Text, Cutoff;
    var h := Numbered(st.hs, cfg.isn);
    if ReadsNone(h, st, st') {
      DropRead(st.cells, h, cfg.isn, st.start, st.lastAck, st.maxPos, st'.start);
    } else {
      var g := st'.given[|st'.given| - 1];
      if g.b < st.lastAck {
        DropMessage(st.cells, h, cfg.isn, st.start, st.lastAck, st.maxPos, g.a, g.b);
      } else {
        ReadEarlyFrom(st.cells, h, cfg.isn, st.start, st.lastAck, st.maxPos, st'.start, g.a, g.b);
      }
    }
  }

  lemma ReadEarlyFrom(v: map<int, Cell>, h: int -> Header, isn: int, start: int, lastAck: int, maxPos: int, t: int, a: int, b: int)
    requires MsgOk(v, h, isn, start, lastAck, maxPos) && start <= t <= lastAck <= b && t <= a
    requires Whole(h, a, b) && Unread(v, a, b) && forall n | n in v && n < t :: v[n].flag == 2 || a <= n <= b
    ensures MsgOk(Marked(From(v, t), a, b), h, isn, t, lastAck, maxPos)
  {
    DropRead(v, h, isn, start, lastAck, maxPos, t);
    assert Unread(From(v, t), a, b);
    ReadEarly(From(v, t), h, isn, t, lastAck, maxPos, a, b);
  }

  /** The units stored from a to b hold blocks a to b. */
  lemma {:induction false} TextIs(cfg: Config, chunks: seq<Bytes>, slots: map<int, Bytes>, a: int, b: int)
    requires cfg.isn <= a && b < cfg.isn + |chunks| && a <= b + 1
    requires forall n | a <= n <= b :: n in slots && slots[n] == chunks[n - cfg.isn]
    ensures Text(slots, a, b) == Flatten(chunks[a - cfg.isn..b + 1 - cfg.isn])
    decreases b - a
  {
    var i, j := a - cfg.isn, b + 1 - cfg.isn;
    if a <= b {
      TextIs(cfg, chunks, slots, a, b - 1);
      FlattenAppend(chunks[i..j - 1], [chunks[j - 1]]);
      FlattenOne(chunks[j - 1]);
      assert chunks[i..j] == chunks[i..j - 1] + [chunks[j - 1]];
    }
  }

  /** Every number up to end belongs to one of the messages. */
  lemma {:induction false} TileOf(sent: seq<Sent>, isn: int, end: int, n: int)
    requires Tiled(sent, isn, end) && isn <= n < end
    ensures exists j :: 0 <= j < |sent| && sent[j].a <= n <= sent[j].b
    decreases |sent|
  {
    var k := |sent| - 1;
    if n >= sent[k].a {
      assert 0 <= k < |sent| && sent[k].a <= n <= sent[k].b;
    } else {
      TileOf(sent[..k], isn, sent[k].a, n);
      var j :| 0 <= j < k && sent[..k][j].a <= n <= sent[..k][j].b;
      assert sent[j].a <= n <= sent[j].b;
    }
  }

  /** A whole message in the stream of headers is one of those sent. */
  lemma WholeIsSent(cfg: Config, st: State, a: int, b: int) returns (j: int)
    requires SenderInv(cfg, st) && Whole(Numbered(st.hs, cfg.isn), a, b) && cfg.isn <= a <= b < cfg.isn + |st.hs|
    ensures 0 <= j < |st.sent| && st.sent[j].a == a && st.sent[j].b == b
  {
    hide SenderInv, Framing, Whole, FramedSeq, Flatten;
    SenderFacts(cfg, st);
    TileOf(st.sent, cfg.isn, cfg.isn + |st.hs|, a);
    j :| 0 <= j < |st.sent| && st.sent[j].a <= a <= st.sent[j].b;
    SameBlocks(cfg, st.chunks, st.hs, st.sent[j], a, b);
  }

  lemma SenderFacts(cfg: Config, st: State)
    requires SenderInv(cfg, st)
    ensures |st.hs| == |st.chunks| && FramedSeq(st.hs) && Tiled(st.sent, cfg.isn, cfg.isn + |st.hs|)
    ensures forall i | 0 <= i < |st.sent| :: Framing(cfg, st.chunks, st.hs, st.sent[i])
  {
  }

  lemma InsideFraming(cfg: Config, chunks: seq<Bytes>, hs: seq<Header>, m: Sent)
    requires FramedSeq(hs) && Framing(cfg, chunks, hs, m)
    ensures forall i | m.a - cfg.isn < i <= m.b - cfg.isn :: !hs[i].first
  {
    hide Flatten;
    forall i | m.a - cfg.isn < i <= m.b - cfg.isn ensures !hs[i].first {
      assert !hs[i - 1].last;
    }
  }

  /** A whole message that starts among the blocks of m is m. */
  lemma SameBlocks(cfg: Config, chunks: seq<Bytes>, hs: seq<Header>, m: Sent, a: int, b: int)
    requires FramedSeq(hs) && Framing(cfg, chunks, hs, m)
    requires Whole(Numbered(hs, cfg.isn), a, b) && cfg.isn <= a && b < cfg.isn + |hs| && m.a <= a <= m.b
    ensures m.a == a && m.b == b
  {
    hide Flatten;
    var h := Numbered(hs, cfg.isn);
    InsideFraming(cfg, chunks, hs, m);
    assert h(m.b) == hs[m.b - cfg.isn] && h(a) == hs[a - cfg.isn] && h(b) == hs[b - cfg.isn];
  }

  /** What is read is a message sent, cut to the reader's room. */
  lemma ReadFaithful(cfg: Config, st: State, g: Given)
    requires SenderInv(cfg, st) && StoreInv(cfg, st) && 0 <= g.len && st.start <= g.a
    requires Deliverable(st.cells, Numbered(st.hs, cfg.isn), st.lastAck, g.a, g.b)
    requires g.data == Cutoff(Text(st.slots, g.a, g.b), g.len)
    ensures Faithful(st.sent, g) && cfg.isn <= g.a <= g.b < cfg.isn + |st.hs|
  {
    hide MsgOk, Text, Cutoff, Numbered, Flatten, FramedSeq, Tiled;
    MsgStart(st.cells, Numbered(st.hs, cfg.isn), cfg.isn, st.start, st.lastAck, st.maxPos);
    forall n | g.a <= n <= g.b ensures n in st.slots {
      assert n in st.cells.Keys;
    }
    assert g.b in st.slots;
    TextIs(cfg, st.chunks, st.slots, g.a, g.b);
    var j := WholeIsSent(cfg, st, g.a, g.b);
    assert Framing(cfg, st.chunks, st.hs, st.sent[j]);
    assert Is(g, st.sent[j]);
  }

  lemma MsgStart(v: map<int, Cell>, h: int -> Header, isn: int, start: int, lastAck: int, maxPos: int)
    requires MsgOk(v, h, isn, start, lastAck, maxPos)
    ensures isn <= start <= lastAck && forall n | start <= n < lastAck :: n in v
  {
  }

  /** Reading nothing reads nothing anew. */
  lemma NoneRead(cfg: Config, st: State, st': State, h: int -> Header)
    requires ReadsNone(h, st, st') && StoreInv(cfg, st) && h == Numbered(st.hs, cfg.isn)
    ensures forall n :: WasRead(cfg, st', n) <==> WasRead(cfg, st, n)
  {
    hide Numbered, Deliverable;
    MsgStart(st.cells, h, cfg.isn, st.start, st.lastAck, st.maxPos);
    hide MsgOk;
    forall n ensures WasRead(cfg, st', n) <==> WasRead(cfg, st, n) {
      if st.start <= n < st'.start {
        assert n in st.cells;
      }
    }
  }

  /** Reading message g reads exactly its blocks anew. */
  lemma OneRead(cfg: Config, st: State, st': State, h: int -> Header, g: Given)
    requires ReadsOne(h, st, st', g) && StoreInv(cfg, st) && h == Numbered(st.hs, cfg.isn)
    ensures forall n :: WasRead(cfg, st', n) <==> WasRead(cfg, st, n) || g.a <= n <= g.b
    ensures forall n | g.a <= n <= g.b :: !WasRead(cfg, st, n)
    ensures h(g.b).inOrder ==> g.b < st'.start
  {
    hide Numbered, Text, Cutoff;
    MsgStart(st.cells, h, cfg.isn, st.start, st.lastAck, st.maxPos);
    hide MsgOk;
    forall n ensures WasRead(cfg, st', n) <==> WasRead(cfg, st, n) || g.a <= n <= g.b {
      if st.start <= n < st'.start {
        assert n in st.cells;
      }
    }
  }

  /** A message read now shares no block with one read before, and comes after those that must stay in order. */
  lemma ReadApart(cfg: Config, st: State, g: Given, i: int)
    requires 0 <= i < |st.given| && GivenInv(cfg, st) && st.start <= g.a <= g.b
    requires forall n | g.a <= n <= g.b :: !WasRead(cfg, st, n)
    requires st.given[i].a <= st.given[i].b
    ensures Apart(cfg, st.hs, st.given[i], g)
  {
    hide Faithful;
    var f := st.given[i];
    var n := if f.a < g.a then g.a else f.a;
    assert f.a <= n <= f.b ==> Covered(st.given, n);
    assert WasRead(cfg, st, n) <==> Covered(st.given, n);
  }

  lemma ReadGiven(cfg: Config, st: State, st': State, g: Given)
    requires ConfigOk(cfg) && Inv(cfg, st) && ReadsOne(Numbered(st.hs, cfg.isn), st, st', g)
    ensures GivenInv(cfg, st')
  {
    hide Numbered, Text, Cutoff, MsgOk, Deliverable, FramedSeq, Tiled, Flatten, Framing;
    var h := Numbered(st.hs, cfg.isn);
    ReadFaithful(cfg, st, g);
    OneRead(cfg, st, st', h, g);
    OrderedIs(cfg, st.hs, g);
    forall i, j | 0 <= i < j < |st'.given| ensures Apart(cfg, st'.hs, st'.given[i], st'.given[j]) {
      if j == |st.given| {
        GivenFits(cfg, st, st.given[i]);
        ReadApart(cfg, st, g, i);
      }
    }
    forall n ensures WasRead(cfg, st', n) <==> Covered(st'.given, n) {
      CoveredNext(st.given, g, n);
    }
  }

  lemma OrderedIs(cfg: Config, hs: seq<Header>, g: Given)
    requires cfg.isn <= g.b < cfg.isn + |hs|
    ensures Ordered(cfg, hs, g) <==> Numbered(hs, cfg.isn)(g.b).inOrder
  {
  }

  lemma CoveredNext(given: seq<Given>, g: Given, n: int)
    ensures Covered(given + [g], n) <==> Covered(given, n) || g.a <= n <= g.b
  {
    var all := given + [g];
    if Covered(given, n) {
      var i :| 0 <= i < |given| && given[i].a <= n <= given[i].b;
      assert all[i] == given[i];
    }
    if g.a <= n <= g.b {
      assert all[|given|] == g;
    }
  }

  lemma NoneGiven(cfg: Config, st: State, st': State)
    requires ConfigOk(cfg) && Inv(cfg, st) && ReadsNone(Numbered(st.hs, cfg.isn), st, st')
    ensures GivenInv(cfg, st')
  {
    hide Numbered, MsgOk, Deliverable, FramedSeq, Tiled, Flatten, Framing, Faithful, Apart;
    NoneRead(cfg, st, st', Numbered(st.hs, cfg.isn));
  }

  lemma ReadStep(cfg: Config, st: State, len: int, st': State)
    requires ConfigOk(cfg) && Inv(cfg, st) && Next(cfg, st, Read(len), st')
    ensures Inv(cfg, st')
  {
    hide SenderInv, StoreInv, GivenInv, Deliverable, Text, Cutoff, From, Marked, Numbered;
    ReadStore(cfg, st, st');
    SenderKept(cfg, st, st');
    if ReadsNone(Numbered(st.hs, cfg.isn), st, st') {
      NoneGiven(cfg, st, st');
    } else {
      ReadGiven(cfg, st, st', st'.given[|st'.given| - 1]);
    }
    assert forall p | p in st.net :: Carries(cfg, st, p);
  }

  // ----- runs -----

  lemma InitInv(cfg: Config)
    requires ConfigOk(cfg)
    ensures Inv(cfg, Init(cfg))
  {
    NothingFramed();
    NumberedFramed([], cfg.isn);
  }

  lemma StepInv(cfg: Config, st: State, step: Step, st': State)
    requires ConfigOk(cfg) && Inv(cfg, st) && Next(cfg, st, step, st')
    ensures Inv(cfg, st')
  {
    match step
    case Send(data, inOrder) =>
      if data != [] {
        SendStep(cfg, st, data, inOrder);
      }
    case Transmit(n) => TransmitStep(cfg, st, n, st');
    case Arrive(p) =>
      if st' != st {
        ArriveStep(cfg, st, p);
      }
    case Acknowledge(len) =>
      if st' != st {
        AcknowledgeStep(cfg, st, len);
      }
    case Read(len) => ReadStep(cfg, st, len, st');
  }

  lemma {:induction false} RunInv(cfg: Config, steps: seq<Step>, sts: seq<State>, k: nat)
    requires ConfigOk(cfg) && Run(cfg, steps, sts) && k <= |steps|
    ensures Inv(cfg, sts[k])
  {
    hide Inv, Next;
    if k == 0 {
      InitInv(cfg);
    } else {
      RunInv(cfg, steps, sts, k - 1);
      assert Next(cfg, sts[k - 1], steps[k - 1], sts[k - 1 + 1]);
      StepInv(cfg, sts[k - 1], steps[k - 1], sts[k]);
    }
  }

  /** In every reachable state each message read is exactly one message sent, cut to the reader's room; no block was
      read twice; and what was read after a message that must stay in order comes later in the stream. */
  lemma MessagesSafe(cfg: Config, steps: seq<Step>, sts: seq<State>, k: nat)
    requires ConfigOk(cfg) && Run(cfg, steps, sts) && k <= |steps|
    ensures
      var st := sts[k];
      && (forall i | 0 <= i < |st.given| :: Faithful(st.sent, st.given[i]))
      && (forall i, j | 0 <= i < j < |st.given| :: Apart(cfg, st.hs, st.given[i], st.given[j]))
  {
    hide Run, Next, SenderInv, StoreInv, Faithful, Apart;
    RunInv(cfg, steps, sts, k);
  }

  // ----- message numbers -----

  /** The number of the message sent after j others: it runs from 1 and starts over after 0x1FFF_FFFE. */
  function NumberOf(j: nat): int {
    1 + j % 0x1FFF_FFFE
  }

  lemma NumberNext(j: nat)
    ensures NextMsgNo(NumberOf(j)) == NumberOf(j + 1)
  {
    var q, m := j / 0x1FFF_FFFE, j % 0x1FFF_FFFE;
    assert j == 0x1FFF_FFFE * q + m;
    if m == 0x1FFF_FFFD {
      assert j + 1 == 0x1FFF_FFFE * (q + 1);
    } else {
      assert j + 1 == 0x1FFF_FFFE * q + (m + 1);
    }
  }

  /** All blocks of m carry number k. */
  ghost predicate Bears(cfg: Config, hs: seq<Header>, m: Sent, k: int) {
    0 <= m.a - cfg.isn <= m.b - cfg.isn < |hs| && forall i | m.a - cfg.isn <= i <= m.b - cfg.isn :: hs[i].msgNo == k
  }

  ghost predicate NumbersInv(cfg: Config, st: State) {
    && st.nextMsgNo == NumberOf(|st.sent|)
    && forall j | 0 <= j < |st.sent| :: Bears(cfg, st.hs, st.sent[j], NumberOf(j))
  }

  lemma NumbersSend(cfg: Config, st: State, data: Bytes, inOrder: bool)
    requires cfg.mss > 0 && data != [] && NumbersInv(cfg, st)
    ensures NumbersInv(cfg, Sending(cfg, st, data, inOrder))
  {
    hide Frames, NumberOf, NextMsgNo;
    var st' := Sending(cfg, st, data, inOrder);
    NumberNext(|st.sent|);
    CutSome(data, cfg.mss);
    var gs := Frames(|Cut(data, cfg.mss)|, st.nextMsgNo, inOrder);
    forall j | 0 <= j < |st'.sent| ensures Bears(cfg, st'.hs, st'.sent[j], NumberOf(j)) {
      if j < |st.sent| {
        assert Bears(cfg, st.hs, st.sent[j], NumberOf(j));
      } else {
        assert forall i | |st.hs| <= i < |st'.hs| :: st'.hs[i] == gs[i - |st.hs|];
      }
    }
  }

  lemma CutSome(data: Bytes, mss: int)
    requires mss > 0 && data != []
    ensures Cut(data, mss) != []
  {
  }

  /** In every run the blocks of the j-th message sent all carry number 1 + j % 0x1FFF_FFFE, so two messages fewer than
      0x1FFF_FFFE apart carry different numbers. */
  lemma {:induction false} MessageNumbers(cfg: Config, steps: seq<Step>, sts: seq<State>, k: nat)
    requires ConfigOk(cfg) && Run(cfg, steps, sts) && k <= |steps|
    ensures NumbersInv(cfg, sts[k])
    ensures forall i: nat, j: nat | i < j < |sts[k].sent| && j - i < 0x1FFF_FFFE :: NumberOf(i) != NumberOf(j)
  {
    hide Remains, Deliverable, Text, Cutoff, From, Marked;
    if k > 0 {
      MessageNumbers(cfg, steps, sts, k - 1);
      var step := steps[k - 1];
      assert Next(cfg, sts[k - 1], step, sts[k - 1 + 1]);
      NumbersStep(cfg, sts[k - 1], step, sts[k]);
    }
    forall i: nat, j: nat | i < j && j - i < 0x1FFF_FFFE ensures NumberOf(i) != NumberOf(j) {
      NumbersApart(i, j);
    }
  }

  lemma NumbersApart(i: nat, j: nat)
    requires i < j && j - i < 0x1FFF_FFFE
    ensures NumberOf(i) != NumberOf(j)
  {
    var p, q := i / 0x1FFF_FFFE, j / 0x1FFF_FFFE;
    assert i == 0x1FFF_FFFE * p + i % 0x1FFF_FFFE && j == 0x1FFF_FFFE * q + j % 0x1FFF_FFFE;
  }

  lemma NumbersStep(cfg: Config, st: State, step: Step, st': State)
    requires ConfigOk(cfg) && NumbersInv(cfg, st) && Next(cfg, st, step, st')
    ensures NumbersInv(cfg, st')
  {
    hide NumbersInv, Deliverable, Text, Cutoff, From, Marked, Cut, Frames;
    match step
    case Send(data, inOrder) =>
      if data != [] {
        NumbersSend(cfg, st, data, inOrder);
      }
    case _ =>
      NumbersSame(cfg, st, st');
  }

  lemma NumbersSame(cfg: Config, st: State, st': State)
    requires NumbersInv(cfg, st) && st'.sent == st.sent && st'.hs == st.hs && st'.nextMsgNo == st.nextMsgNo
    ensures NumbersInv(cfg, st')
  {
  }

  lemma OneBlock(data: Bytes, msgNo: int, inOrder: bool)
    requires 0 < |data| <= 10
    ensures Cut(data, 10) == [data] && Frames(1, msgNo, inOrder) == [Header(msgNo, inOrder, true, true)]
  {
  }

  /** A message of the one block n is read. */
  lemma OneBlockRead(h: int -> Header, st: State, st': State, n: int, data: Bytes)
    requires st.start <= n && n in st.cells && st.cells[n].flag == 1 && n in st.slots && st.slots[n] == data && |data| <= 10
    requires h(n).first && h(n).last && (n < st.lastAck || !h(n).inOrder) && (st.start != st.lastAck || st.maxPos > 0)
    requires st' == st.(cells := st'.cells, slots := st'.slots, start := st'.start, given := st.given + [Given(n, n, 10, data)])
    requires if n < st.lastAck then st'.start == n + 1 && st'.cells == From(st.cells, n + 1)
             else st'.start == st.start && st'.cells == Marked(From(st.cells, st.start), n, n)
    requires st.start <= st'.start <= st.lastAck && forall k | k in st.cells :: st.start <= k && (k < n ==> n >= st.lastAck && st.cells[k].flag == 2)
    requires st'.slots.Keys == st'.cells.Keys && (forall k | k in st'.slots :: k in st.slots && st'.slots[k] == st.slots[k])
    ensures ReadsOne(h, st, st', Given(n, n, 10, data))
  {
    assert Text(st.slots, n, n) == Text(st.slots, n, n - 1) + data == data;
    forall a, b | st.start <= a && b < n ensures !Deliverable(st.cells, h, st.lastAck, a, b) {
      assert a <= b && Unread(st.cells, a, b) ==> b in st.cells;
    }
  }

  const SMALL: Config := Config(0, 10, 8)

  /** The states of the run below after k steps. */
  ghost function Overtaking(x: Bytes, y: Bytes, k: nat): State {
    var hx, hy := Header(1, true, true, true), Header(2, false, true, true);
    var sx, sy := Sent(0, 0, x, true), Sent(1, 1, y, false);
    var gx, gy := Given(0, 0, 10, x), Given(1, 1, 10, y);
    var px, py := Packet(0, x, hx), Packet(1, y, hy);
    var s0 := Init(SMALL);
    var s1 := s0.(chunks := [x], hs := [hx], nextMsgNo := 2, sent := [sx]);
    var s2 := s1.(chunks := [x, y], hs := [hx, hy], nextMsgNo := 3, sent := [sx, sy]);
    var s5 := s2.(net := {px, py}, cells := map[1 := Cell(1, hy)], slots := map[1 := y], maxPos := 1);
    var s6 := s5.(cells := map[1 := Cell(2, hy)], given := [gy]);
    var s7 := s6.(cells := map[1 := Cell(2, hy), 0 := Cell(1, hx)], slots := map[1 := y, 0 := x]);
    if k == 0 then s0 else if k == 1 then s1 else if k == 2 then s2
    else if k == 3 then s2.(net := {px}) else if k == 4 then s2.(net := {px, py})
    else if k == 5 then s5 else if k == 6 then s6 else if k == 7 then s7
    else if k == 8 then s7.(lastAck := 1, maxPos := 0)
    else s6.(lastAck := 1, maxPos := 0, start := 1, given := [gy, gx])
  }

  ghost function OvertakingSteps(x: Bytes, y: Bytes): seq<Step> {
    [Send(x, true), Send(y, false), Transmit(0), Transmit(1), Arrive(Packet(1, y, Header(2, false, true, true))), Read(10),
     Arrive(Packet(0, x, Header(1, true, true, true))), Acknowledge(1), Read(10)]
  }

  lemma OvertakingSent(x: Bytes, y: Bytes, k: nat)
    requires 0 < |x| <= 10 && 0 < |y| <= 10 && k < 2
    ensures Next(SMALL, Overtaking(x, y, k), OvertakingSteps(x, y)[k], Overtaking(x, y, k + 1))
  {
    OneBlock(x, 1, true);
    OneBlock(y, 2, false);
    hide Cut, Frames;
  }

  lemma OvertakingMoved(x: Bytes, y: Bytes, k: nat)
    requires 2 <= k < 8 && k != 5
    ensures Next(SMALL, Overtaking(x, y, k), OvertakingSteps(x, y)[k], Overtaking(x, y, k + 1))
  {
  }

  lemma OvertakingEarly(x: Bytes, y: Bytes)
    requires 0 < |y| <= 10
    ensures Next(SMALL, Overtaking(x, y, 5), OvertakingSteps(x, y)[5], Overtaking(x, y, 6))
  {
    hide ReadsOne;
    var st, st' := Overtaking(x, y, 5), Overtaking(x, y, 6);
    assert Marked(From(st.cells, 0), 1, 1) == st'.cells;
    OneBlockRead(Numbered(st.hs, 0), st, st', 1, y);
  }

  lemma OvertakingLate(x: Bytes, y: Bytes)
    requires 0 < |x| <= 10
    ensures Next(SMALL, Overtaking(x, y, 8), OvertakingSteps(x, y)[8], Overtaking(x, y, 9))
  {
    hide ReadsOne;
    var st, st' := Overtaking(x, y, 8), Overtaking(x, y, 9);
    assert From(st.cells, 1) == st'.cells;
    OneBlockRead(Numbered(st.hs, 0), st, st', 0, x);
  }

  /** The converse does not hold: a message that may be read out of order overtakes an earlier one that must stay in
      order. */
  lemma LaterMayOvertake(x: Bytes, y: Bytes) returns (steps: seq<Step>, sts: seq<State>)
    requires 0 < |x| <= 10 && 0 < |y| <= 10
    ensures Run(SMALL, steps, sts)
    ensures
      var st := sts[|steps|];
      && st.given == [Given(1, 1, 10, y), Given(0, 0, 10, x)]
      && !Ordered(SMALL, st.hs, st.given[0]) && Ordered(SMALL, st.hs, st.given[1])
  {
    hide Next;
    steps := OvertakingSteps(x, y);
    sts := seq(10, k requires 0 <= k => Overtaking(x, y, k));
    forall k: nat | k < 9 ensures Next(SMALL, sts[k], steps[k], sts[k + 1]) {
      if k < 2 {
        OvertakingSent(x, y, k);
      } else if k == 5 {
        OvertakingEarly(x, y);
      } else if k == 8 {
        OvertakingLate(x, y);
      } else {
        OvertakingMoved(x, y, k);
      }
    }
  }

  /** In every reachable state a block before the read position, or marked as read, was read, and no other was: nothing
      unread is discarded. */
  lemma NothingDiscarded(cfg: Config, steps: seq<Step>, sts: seq<State>, k: nat, n: int)
    requires ConfigOk(cfg) && Run(cfg, steps, sts) && k <= |steps|
    ensures WasRead(cfg, sts[k], n) <==> Covered(sts[k].given, n)
  {
    hide Run, Next, SenderInv, StoreInv, Faithful, Apart, WasRead, Covered;
    RunInv(cfg, steps, sts, k);
  }

  ghost predicate SomethingToRead(cfg: Config, st: State) {
    exists a, b :: st.start <= a && Deliverable(st.cells, Numbered(st.hs, cfg.isn), st.lastAck, a, b)
  }

  /** When a read returns nothing although there is something to read: exactly if no data is acknowledged, nothing is noted
      past the read position, and a complete message of one block, free to be read early, sits right there. */
  lemma MissedExactly(cfg: Config, steps: seq<Step>, sts: seq<State>, k: nat)
    requires ConfigOk(cfg) && Run(cfg, steps, sts) && k < |steps| && steps[k].Read?
    ensures
      var st := sts[k];
      sts[k + 1].given == st.given && SomethingToRead(cfg, st) <==>
        st.start == st.lastAck && st.maxPos <= 0 && Unseen(st.cells, Numbered(st.hs, cfg.isn), st.start)
  {
    hide SenderInv, GivenInv, Deliverable, Remains, Unseen;
    RunInv(cfg, steps, sts, k);
    var st := sts[k];
    assert Next(cfg, sts[k], steps[k], sts[k + 1]);
    if st.start == st.lastAck && st.maxPos <= 0 {
      LooksEmpty(st.cells, Numbered(st.hs, cfg.isn), cfg.isn, st.start);
    }
  }

  /** An unread message whose first block is unread has no block that was read. */
  lemma {:induction false} UnreadOn(v: map<int, Cell>, h: int -> Header, isn: int, start: int, lastAck: int, maxPos: int,
                                    a: int, k: int)
    requires MsgOk(v, h, isn, start, lastAck, maxPos) && start <= a <= k < lastAck && v[a].flag == 1
    requires forall i | a < i <= k :: !h(i).first
    ensures v[k].flag == 1
    decreases k - a
  {
    if k > a {
      UnreadOn(v, h, isn, start, lastAck, maxPos, a, k - 1);
    }
  }

  lemma BlocksUnread(v: map<int, Cell>, h: int -> Header, isn: int, start: int, lastAck: int, maxPos: int, a: int, b: int)
    requires MsgOk(v, h, isn, start, lastAck, maxPos) && start <= a <= b < lastAck && v[a].flag != 2
    requires forall i | a < i <= b :: !h(i).first
    ensures Unread(v, a, b)
  {
    forall k | a <= k <= b ensures k in v && v[k].flag == 1 {
      UnreadOn(v, h, isn, start, lastAck, maxPos, a, k);
    }
  }

  lemma FramingWhole(cfg: Config, chunks: seq<Bytes>, hs: seq<Header>, m: Sent)
    requires FramedSeq(hs) && Framing(cfg, chunks, hs, m)
    ensures Whole(Numbered(hs, cfg.isn), m.a, m.b) && forall i | m.a < i <= m.b :: !Numbered(hs, cfg.isn)(i).first
  {
    hide Flatten, FramedSeq;
    InsideFraming(cfg, chunks, hs, m);
    assert forall i | m.a <= i <= m.b :: Numbered(hs, cfg.isn)(i) == hs[i - cfg.isn];
  }

  lemma AckedDeliverable(cfg: Config, st: State, m: Sent)
    requires StoreInv(cfg, st) && FramedSeq(st.hs) && Framing(cfg, st.chunks, st.hs, m)
    requires m.b < st.lastAck && !WasRead(cfg, st, m.a)
    ensures st.start <= m.a <= m.b && Deliverable(st.cells, Numbered(st.hs, cfg.isn), st.lastAck, m.a, m.b)
  {
    hide Flatten, FramedSeq, MsgOk, Numbered;
    FramingWhole(cfg, st.chunks, st.hs, m);
    MsgStart(st.cells, Numbered(st.hs, cfg.isn), cfg.isn, st.start, st.lastAck, st.maxPos);
    BlocksUnread(st.cells, Numbered(st.hs, cfg.isn), cfg.isn, st.start, st.lastAck, st.maxPos, m.a, m.b);
  }

  /** In every run a read returns the first unread message once that is acknowledged: all of it, cut to the reader's
      room. */
  lemma AckedIsRead(cfg: Config, steps: seq<Step>, sts: seq<State>, k: nat, j: int)
    requires ConfigOk(cfg) && Run(cfg, steps, sts) && k < |steps| && steps[k].Read? && 0 <= j < |sts[k].sent|
    requires sts[k].sent[j].b < sts[k].lastAck && !WasRead(cfg, sts[k], sts[k].sent[j].a)
    requires forall n | cfg.isn <= n < sts[k].sent[j].a :: WasRead(cfg, sts[k], n)
    ensures 0 <= steps[k].len ==>
      var m := sts[k].sent[j];
      sts[k + 1].given == sts[k].given + [Given(m.a, m.b, steps[k].len, Cutoff(m.data, steps[k].len))]
  {
    hide Deliverable, Remains, Text, Cutoff, MsgOk, Flatten, FramedSeq, Tiled, Framing;
    RunInv(cfg, steps, sts, k);
    var st := sts[k];
    var m := st.sent[j];
    assert Next(cfg, sts[k], steps[k], sts[k + 1]);
    assert Framing(cfg, st.chunks, st.hs, m);
    AckedDeliverable(cfg, st, m);
    assert !ReadsNone(Numbered(st.hs, cfg.isn), st, sts[k + 1]);
    if 0 <= steps[k].len {
      NextIs(cfg, st, sts[k + 1], j, sts[k + 1].given[|sts[k + 1].given| - 1]);
    }
  }

  lemma NextIs(cfg: Config, st: State, st': State, j: int, g: Given)
    requires ConfigOk(cfg) && Inv(cfg, st) && ReadsOne(Numbered(st.hs, cfg.isn), st, st', g) && 0 <= j < |st.sent|
    requires Deliverable(st.cells, Numbered(st.hs, cfg.isn), st.lastAck, st.sent[j].a, st.sent[j].b)
    requires st.start <= st.sent[j].a && forall n | cfg.isn <= n < st.sent[j].a :: WasRead(cfg, st, n)
    ensures g == Given(st.sent[j].a, st.sent[j].b, g.len, Cutoff(st.sent[j].data, g.len))
  {
    hide Text, Cutoff, MsgOk, Flatten, FramedSeq, Tiled, Framing, Numbered;
    var m := st.sent[j];
    var h := Numbered(st.hs, cfg.isn);
    ReadFaithful(cfg, st, g);
    assert Framing(cfg, st.chunks, st.hs, m);
    OneRead(cfg, st, st', h, g);
    assert g.b <= m.b;
    assert !WasRead(cfg, st, g.a);
    SameBlocks(cfg, st.chunks, st.hs, m, g.a, g.b);
    var l :| 0 <= l < |st.sent| && Is(g, st.sent[l]);
    TilesApart(st.sent, cfg.isn, cfg.isn + |st.hs|, j, l, m.a);
  }

  /** Once the read position is past all blocks sent, each message sent was read exactly once. */
  lemma AllRead(cfg: Config, steps: seq<Step>, sts: seq<State>, k: nat, j: int) returns (i: int)
    requires ConfigOk(cfg) && Run(cfg, steps, sts) && k <= |steps|
    requires sts[k].start == cfg.isn + |sts[k].hs| && 0 <= j < |sts[k].sent|
    ensures 0 <= i < |sts[k].given| && Is(sts[k].given[i], sts[k].sent[j])
    ensures forall i' | 0 <= i' < |sts[k].given| && Is(sts[k].given[i'], sts[k].sent[j]) :: i' == i
  {
    hide Next, StoreInv, FramedSeq, Flatten, MsgOk;
    RunInv(cfg, steps, sts, k);
    var st := sts[k];
    var m := st.sent[j];
    assert Framing(cfg, st.chunks, st.hs, m);
    assert WasRead(cfg, st, m.a);
    i :| 0 <= i < |st.given| && st.given[i].a <= m.a <= st.given[i].b;
    var g := st.given[i];
    var l :| 0 <= l < |st.sent| && Is(g, st.sent[l]);
    TilesApart(st.sent, cfg.isn, cfg.isn + |st.hs|, j, l, m.a);
    forall x, y | 0 <= x < y < |st.given| ensures !(Is(st.given[x], m) && Is(st.given[y], m)) {
      ApartDiffer(cfg, st.hs, st.given[x], st.given[y], m);
    }
  }

  lemma ApartDiffer(cfg: Config, hs: seq<Header>, f: Given, g: Given, m: Sent)
    requires Apart(cfg, hs, f, g) && m.a <= m.b
    ensures !(Is(f, m) && Is(g, m))
  {
  }

  /** No number belongs to two messages. */
  lemma {:induction false} TilesApart(sent: seq<Sent>, isn: int, end: int, j: int, l: int, n: int)
    requires Tiled(sent, isn, end) && 0 <= j < |sent| && 0 <= l < |sent|
    requires sent[j].a <= n <= sent[j].b && sent[l].a <= n <= sent[l].b
    ensures j == l
    decreases |sent|
  {
    var k := |sent| - 1;
    if j < k {
      TileBelow(sent[..k], isn, sent[k].a, j);
    }
    if l < k {
      TileBelow(sent[..k], isn, sent[k].a, l);
    }
    if j < k && l < k {
      TilesApart(sent[..k], isn, sent[k].a, j, l, n);
    }
  }

  lemma {:induction false} TileBelow(sent: seq<Sent>, isn: int, end: int, j: int)
    requires Tiled(sent, isn, end) && 0 <= j < |sent|
    ensures sent[j].a <= sent[j].b < end
    decreases |sent|
  {
    var k := |sent| - 1;
    if j < k {
      TileBelow(sent[..k], isn, sent[k].a, j);
    }
  }
}
