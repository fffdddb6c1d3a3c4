/** The sending half of a connection (CUDT) on its real data structures. Each handler works on numbers as they
    travel and is proved to take the step Protocol describes on the unbounded numbers they stand for. */
module SenderEndModule {
  import opened Bytes
  import opened SeqNo
  import opened Ring
  import opened Runs
  import opened Nak
  import opened Protocol
  import opened Messages
  import opened SndBufferModule
  import opened SndLossListModule

  /** The counters of an endpoint are the residues of s's, and flow control bounds what is unacknowledged. */
  ghost predicate Residues(s: Sender, lastAck: int, lastDataAck: int, curr: int, window: int) {
    && SenderOk(s)
    && lastAck == Wire(s.lastAck) && lastDataAck == Wire(s.lastDataAck) && curr == Wire(s.curr)
    && s.curr + 1 <= s.lastDataAck + window && s.lastAck + s.flow <= s.lastDataAck + window
    && 0 <= window < SEQ_TH
  }

  lemma InitResidues(isn: int, flow: int, window: int)
    requires 0 <= isn <= MAX_SEQ && 0 <= flow <= window < SEQ_TH
    ensures Residues(Sender(isn, [], isn, isn, isn - 1, flow, {}, false), isn, isn, isn - 1, window)
  {
  }

  /** What packData reads off the counters when nothing is lost. */
  lemma NewFacts(s: Sender, cwnd: int, lastAck: int, lastDataAck: int, curr: int, window: int)
    requires Residues(s, lastAck, lastDataAck, curr, window) && s.loss == {}
    ensures SeqLen(lastAck, IncSeq(curr)) == s.curr + 1 - s.lastAck + 1
    ensures
      var limit := if s.flow < cwnd then s.flow else cwnd;
      var fits := limit >= s.curr + 1 - s.lastAck + 1;
      var more := s.curr + 1 - s.lastDataAck < Blocks(s);
      var s' := s.(curr := s.curr + 1);
      if fits && more then
        && PackData(s, cwnd) == (s', Some(Data(s.curr + 1, Payload(s, s.curr + 1))))
        && Residues(s', lastAck, lastDataAck, IncSeq(curr), window)
        && Payload(s, s.curr + 1) == s.chunks[s.lastDataAck - s.isn..][s.curr + 1 - s.lastDataAck]
      else
        PackData(s, cwnd) == (s, None)
  {
    hide SeqLen, IncSeq, Wire;
    IncIsSucc(s.curr);
    LenIsCount(s.lastAck, s.curr + 1);
  }

  /** What packData reads off the counters when n is the smallest lost number. */
  lemma LostFacts(s: Sender, cwnd: int, n: int, lastAck: int, lastDataAck: int, curr: int, window: int)
    requires Residues(s, lastAck, lastDataAck, curr, window) && IsMin(s.loss, n)
    ensures SeqOff(lastDataAck, Wire(n)) == n - s.lastDataAck && 0 <= n - s.lastDataAck < Blocks(s)
    ensures s.loss != {} && Residues(s.(loss := s.loss - {n}), lastAck, lastDataAck, curr, window)
    ensures PackData(s, cwnd) == (s.(loss := s.loss - {n}), Some(Data(n, Payload(s, n))))
    ensures Payload(s, n) == s.chunks[s.lastDataAck - s.isn..][n - s.lastDataAck]
  {
    hide SeqOff, Wire;
    MinIs(s.loss, n);
    OffAndCmp(s.lastDataAck, n);
  }

  class SenderEnd {
    const sndBufSize: int
    const payloadSize: int
    const sndBuffer: SndBuffer
    const lossList: SndLossList
    var sndLastAck: int
    var sndLastDataAck: int
    var sndCurrSeqNo: int
    var flowWindowSize: int
    var broken: bool
    var sndLossTotal: int

    ghost var s: Sender
    // the message headers of all blocks ever accepted
    ghost var hdrs: seq<Header>
    // everything unacknowledged stays within this many numbers
    ghost const window: int

    ghost predicate Counters()
      reads this
    {
      && Residues(s, sndLastAck, sndLastDataAck, sndCurrSeqNo, window)
      && flowWindowSize == s.flow && broken == s.broken && window <= lossList.size
    }

    /** The block k steps after the first one holds the payload and the header of lastDataAck + k, and the next block
        to send is that of curr + 1. */
    ghost predicate BufferMatches()
      reads this, sndBuffer
    {
      && 0 <= s.lastDataAck - s.isn <= |s.chunks|
      && sndBuffer.contents == s.chunks[s.lastDataAck - s.isn..]
      && |hdrs| == |s.chunks| && sndBuffer.headers == hdrs[s.lastDataAck - s.isn..]
      && sndBuffer.sent == s.curr + 1 - s.lastDataAck
      && sndBuffer.mss == payloadSize > 0
    }

    ghost predicate Valid()
      reads this, sndBuffer, sndBuffer.repr, lossList, lossList.data1, lossList.data2, lossList.next
    {
      && Counters()
      && sndBuffer.Valid() && BufferMatches()
      && lossList.Valid() && lossList.Elems() == s.loss && FramedSeq(hdrs)
    }

    constructor (isn: int, bufSize: int, payload: int, flow: int, ghost span: int)
      requires 0 <= isn <= MAX_SEQ && payload > 0 && 0 < flow <= span < SEQ_TH && span <= 2 * flow
      ensures Valid() && s == Sender(isn, [], isn, isn, isn - 1, flow, {}, false) && hdrs == []
      ensures sndBufSize == bufSize && payloadSize == payload && window == span && sndBuffer.nextMsgNo == 1
      ensures fresh(lossList.data1) && fresh(lossList.data2) && fresh(lossList.next)
    {
      hide SndLossList.Valid, SndLossList.Elems, SndBuffer.Valid, Residues, Wire, FramedSeq;
      NothingFramed();
      InitResidues(isn, flow, span);
      sndBufSize := bufSize;
      payloadSize := payload;
      sndLastAck := isn;
      sndLastDataAck := isn;
      sndCurrSeqNo := isn - 1;
      flowWindowSize := flow;
      broken := false;
      sndLossTotal := 0;
      s := Sender(isn, [], isn, isn, isn - 1, flow, {}, false);
      hdrs := [];
      window := span;
      sndBuffer := new SndBuffer(32, payload);
      lossList := new SndLossList(flow * 2);
    }

    /** This is the header number n was framed with. */
    ghost predicate Labelled(n: int, header: Header)
      reads this
    {
      0 <= n - s.isn < |hdrs| && header == hdrs[n - s.isn]
    }

    /** packData: a retransmission if a number is lost, else a new block if the windows allow. */
    method Pack(cwnd: int) returns (seqno: int, payload: Bytes, header: Header, ghost out: Option<Packet>)
      requires Valid()
      modifies this, sndBuffer, lossList, lossList.data1, lossList.data2, lossList.next
      ensures Valid() && (s, out) == PackData(old(s), cwnd)
      ensures out == None <==> payload == []
      ensures out != None ==> out.value.Data? && seqno == Wire(out.value.seqno) && payload == out.value.payload
      ensures hdrs == old(hdrs) && (out != None ==> Labelled(out.value.seqno, header))
      ensures sndBuffer.nextMsgNo == old(sndBuffer.nextMsgNo)
    {
      hide SndLossList.Valid, SndLossList.Elems, SndBuffer.Valid, Wire, Residues, PackData, FramedSeq;
      ghost var n;
      SenderFine(s, sndLastAck, sndLastDataAck, sndCurrSeqNo, window);
      seqno, n := lossList.GetLostSeq();
      if seqno >= 0 {
        payload, header, out := PackLost(cwnd, seqno, n);
      } else {
        seqno, payload, header, out := PackNew(cwnd);
      }
    }

    /** Retransmits seqno, just taken off the loss list. */
    method PackLost(cwnd: int, seqno: int, ghost n: int)
      returns (payload: Bytes, header: Header, ghost out: Option<Packet>)
      requires SenderOk(s)
      requires Counters() && sndBuffer.Valid() && BufferMatches() && lossList.Valid() && FramedSeq(hdrs)
      requires IsMin(s.loss, n) && lossList.Elems() == s.loss - {n} && seqno == Wire(n)
      modifies this`s
      ensures Valid() && (s, out) == PackData(old(s), cwnd)
      ensures out == Some(Data(n, payload)) && payload != [] && Labelled(n, header)
    {
      hide FramedSeq, SndLossList.Valid, SndLossList.Elems, SndBuffer.Valid, Wire, SeqOff, Residues, PackData, SenderOk,
        Payload;
      LostFacts(s, cwnd, n, sndLastAck, sndLastDataAck, sndCurrSeqNo, window);
      sndBuffer.Sizes();
      var offset := SeqOff(sndLastDataAck, seqno);
      if offset < 0 {
        return [], Header(0, false, false, false), None;
      }
      payload, header := sndBuffer.ReadAt(offset);
      HeaderIs(hdrs, s.lastDataAck - s.isn, offset);
      out := Some(Data(n, payload));
      s := s.(loss := s.loss - {n});
    }

    /** Sends the next new block when the flow and congestion windows allow. */
    method PackNew(cwnd: int) returns (seqno: int, payload: Bytes, header: Header, ghost out: Option<Packet>)
      requires SenderOk(s) && Valid() && s.loss == {}
      modifies this`s, this`sndCurrSeqNo, sndBuffer`curr, sndBuffer`sent
      ensures Valid() && (s, out) == PackData(old(s), cwnd)
      ensures out == None <==> payload == []
      ensures out != None ==> out.value.Data? && seqno == Wire(out.value.seqno) && payload == out.value.payload
      ensures out != None ==> Labelled(out.value.seqno, header)
    {
      hide FramedSeq, SndLossList.Valid, SndLossList.Elems, SndBuffer.Valid, Wire, SeqLen, IncSeq, Residues, PackData,
        SenderOk, Payload;
      payload := [];
      header := Header(0, false, false, false);
      seqno := -1;
      out := None;
      var limit := if flowWindowSize < cwnd then flowWindowSize else cwnd;
      NewFacts(s, cwnd, sndLastAck, sndLastDataAck, sndCurrSeqNo, window);
      sndBuffer.Sizes();
      if limit >= SeqLen(sndLastAck, IncSeq(sndCurrSeqNo)) {
        seqno, payload, header, out := TakeNew();
      }
    }

    /** The next new block, if there is one. */
    method TakeNew() returns (seqno: int, payload: Bytes, header: Header, ghost out: Option<Packet>)
      requires Valid()
      requires s.curr + 1 - s.lastDataAck < Blocks(s) ==>
        Residues(s.(curr := s.curr + 1), sndLastAck, sndLastDataAck, IncSeq(sndCurrSeqNo), window)
      modifies this`s, this`sndCurrSeqNo, sndBuffer`curr, sndBuffer`sent
      ensures Valid()
      ensures
        if old(s.curr + 1 - s.lastDataAck < Blocks(s)) then
          && s == old(s).(curr := old(s).curr + 1) && 0 <= s.curr - s.lastDataAck < |s.chunks[s.lastDataAck - s.isn..]|
          && payload == s.chunks[s.lastDataAck - s.isn..][s.curr - s.lastDataAck] && payload != []
          && seqno == Wire(s.curr) && out == Some(Data(s.curr, payload)) && Labelled(s.curr, header)
        else s == old(s) && payload == [] && out == None
    {
      hide FramedSeq, SndLossList.Valid, SndLossList.Elems, SndBuffer.Valid, Wire, IncSeq, Residues;
      sndBuffer.Sizes();
      ghost var k := s.curr + 1 - s.lastDataAck;
      seqno := -1;
      out := None;
      var found;
      found, payload, header := sndBuffer.ReadNew();
      if found {
        sndCurrSeqNo := IncSeq(sndCurrSeqNo);
        seqno := sndCurrSeqNo;
        s := s.(curr := s.curr + 1);
        out := Some(Data(s.curr, payload));
        CurrIs(s, sndLastAck, sndLastDataAck, sndCurrSeqNo, window);
        HeaderIs(hdrs, s.lastDataAck - s.isn, k);
      }
    }

    lemma HeaderIs(hs: seq<Header>, i: int, j: int)
      requires 0 <= i && 0 <= j && i + j < |hs|
      ensures hs[i..][j] == hs[i + j]
    {
    }

    /** send: takes what fits of data. */
    method Send(data: Bytes) returns (accepted: int)
      requires Valid()
      modifies this`s, this`hdrs, sndBuffer, sndBuffer.repr
      ensures Valid() && fresh(sndBuffer.repr - old(sndBuffer.repr))
      ensures s == SendData(old(s), data, sndBufSize, payloadSize)
      ensures accepted == Accepted(old(s), |data|, sndBufSize, payloadSize)
    {
      hide FramedSeq, SndLossList.Valid, SndLossList.Elems, SndBuffer.Valid, Residues, Cut, Accepted;
      sndBuffer.Sizes();
      SendFacts(s, data, sndBufSize, payloadSize, sndLastAck, sndLastDataAck, sndCurrSeqNo, window);
      if |data| == 0 || sndBufSize <= sndBuffer.count {
        return 0;
      }
      accepted := (sndBufSize - sndBuffer.count) * payloadSize;
      if accepted > |data| {
        accepted := |data|;
      }
      Add(data[..accepted], false);
      s := SendData(s, data, sndBufSize, payloadSize);
    }

    /** sendmsg: takes the whole message or, with 0 for an error, nothing. */
    method SendMsg(data: Bytes, inOrder: bool) returns (taken: int)
      requires Valid()
      modifies this`s, this`hdrs, sndBuffer, sndBuffer.repr
      ensures Valid() && fresh(sndBuffer.repr - old(sndBuffer.repr))
      ensures taken == if (sndBufSize - Blocks(old(s))) * payloadSize < |data| then 0 else |data|
      ensures taken == 0 ==> s == old(s) && hdrs == old(hdrs) && sndBuffer.nextMsgNo == old(sndBuffer.nextMsgNo)
      ensures taken != 0 ==>
        && s == SendData(old(s), data, sndBufSize, payloadSize) && s == old(s).(chunks := old(s).chunks + Cut(data, payloadSize))
        && hdrs == old(hdrs) + Frames(|Cut(data, payloadSize)|, old(sndBuffer.nextMsgNo), inOrder)
        && sndBuffer.nextMsgNo == NextMsgNo(old(sndBuffer.nextMsgNo))
    {
      hide FramedSeq, SndLossList.Valid, SndLossList.Elems, SndBuffer.Valid, Residues, Cut, Accepted;
      sndBuffer.Sizes();
      SendFacts(s, data, sndBufSize, payloadSize, sndLastAck, sndLastDataAck, sndCurrSeqNo, window);
      taken := 0;
      if |data| == 0 {
        return;
      }
      MsgFits(s, data, sndBufSize, payloadSize);
      if |data| > sndBufSize * payloadSize {
        return;
      }
      if (sndBufSize - sndBuffer.count) * payloadSize < |data| {
        return;
      }
      Add(data, inOrder);
      s := SendData(s, data, sndBufSize, payloadSize);
      taken := |data|;
    }

    /** The blocks of one message join the buffer and the books. */
    method Add(data: Bytes, inOrder: bool)
      requires sndBuffer.Valid() && |hdrs| == |s.chunks| && FramedSeq(hdrs) && 0 <= s.lastDataAck - s.isn <= |hdrs|
      requires sndBuffer.mss == payloadSize && sndBuffer.headers == hdrs[s.lastDataAck - s.isn..]
      modifies this`hdrs, sndBuffer, sndBuffer.repr
      ensures sndBuffer.Valid() && fresh(sndBuffer.repr - old(sndBuffer.repr)) && payloadSize > 0
      ensures sndBuffer.contents == old(sndBuffer.contents) + Cut(data, payloadSize)
      ensures sndBuffer.sent == old(sndBuffer.sent)
      ensures hdrs == old(hdrs) + Frames(|Cut(data, payloadSize)|, old(sndBuffer.nextMsgNo), inOrder) && FramedSeq(hdrs)
      ensures sndBuffer.headers == hdrs[s.lastDataAck - s.isn..]
      ensures sndBuffer.nextMsgNo == NextMsgNo(old(sndBuffer.nextMsgNo))
    {
      hide FramedSeq, SndBuffer.Valid, Cut, Frames;
      sndBuffer.Sizes();
      FramesFramed(hdrs, |Cut(data, payloadSize)|, sndBuffer.nextMsgNo, inOrder);
      hdrs := hdrs + Frames(|Cut(data, payloadSize)|, sndBuffer.nextMsgNo, inOrder);
      sndBuffer.AddBuffer(data, inOrder);
    }

    /** A full ACK for a, with the receiver's free room. */
    method ProcessAck(ack: int, room: int, ghost a: int)
      requires Valid() && AckNear(s, a) && ack == Wire(a) && room <= window
      modifies this`s, this`broken, this`flowWindowSize, this`sndLastAck, this`sndLastDataAck
      modifies sndBuffer, lossList, lossList.data1, lossList.data2, lossList.next
      ensures Valid() && s == Protocol.ProcessAck(old(s), a, room)
    {
      hide SndLossList.Valid, SndLossList.Elems, SndBuffer.Valid, Residues, AckNear, Wire, SeqCmp, SeqOff, IncSeq,
        Protocol.ProcessAck, FramedSeq;
      AckFacts(s, a, room, sndLastAck, sndLastDataAck, sndCurrSeqNo, window);
      assert s.lastDataAck < a <= s.isn + |hdrs| ==>
        hdrs[s.lastDataAck - s.isn..][a - s.lastDataAck..] == hdrs[a - s.isn..];
      if SeqCmp(ack, IncSeq(sndCurrSeqNo)) > 0 {
        broken := true;
        s := Protocol.ProcessAck(s, a, room);
        return;
      }
      if SeqCmp(ack, sndLastAck) >= 0 {
        flowWindowSize := room;
        sndLastAck := ack;
      }
      var offset := SeqOff(sndLastDataAck, ack);
      if offset > 0 {
        AckBlocks(ack, offset, a);
      }
      s := Protocol.ProcessAck(s, a, room);
    }

    /** Releases the blocks before a and forgets the losses among them. */
    method AckBlocks(ack: int, offset: int, ghost a: int)
      requires sndBuffer.Valid() && lossList.Valid() && 0 < offset <= sndBuffer.sent
      requires 1 <= a && ack == Wire(a) && forall x | x in lossList.Elems() :: Near(x, a - 1)
      modifies this`sndLastDataAck, sndBuffer, lossList, lossList.data1, lossList.data2, lossList.next
      ensures sndBuffer.Valid() && sndBuffer.contents == old(sndBuffer.contents)[offset..]
      ensures sndBuffer.headers == old(sndBuffer.headers)[offset..]
      ensures sndBuffer.sent == old(sndBuffer.sent) - offset
      ensures sndLastDataAck == ack
      ensures lossList.Valid() && lossList.Elems() == set x | x in old(lossList.Elems()) && x > a - 1
    {
      hide FramedSeq, SndLossList.Valid, SndLossList.Elems, SndBuffer.Valid, Wire, DecSeq, Near;
      sndBuffer.Sizes();
      sndBuffer.AckData(offset);
      sndLastDataAck := ack;
      DecIsPred(a);
      lossList.Remove(DecSeq(sndLastDataAck), a - 1);
    }

    /** A light ACK for a carries nothing but the number. */
    method ProcessLightAck(ack: int, ghost a: int)
      requires Valid() && AckNear(s, a) && ack == Wire(a) && a <= s.curr + 1
      modifies this`s, this`flowWindowSize, this`sndLastAck
      ensures Valid() && s == Protocol.ProcessLightAck(old(s), a)
      ensures s == old(s).(lastAck := s.lastAck, flow := flowWindowSize)
      ensures s.lastAck == if a > old(s.lastAck) then a else old(s.lastAck)
      ensures s.lastAck + flowWindowSize == old(s.lastAck + flowWindowSize)
    {
      hide FramedSeq, SndLossList.Valid, SndLossList.Elems, SndBuffer.Valid, Residues, AckNear, Wire, SeqCmp, SeqOff;
      LightAckFacts(s, a, sndLastAck, sndLastDataAck, sndCurrSeqNo, window);
      if SeqCmp(ack, sndLastAck) >= 0 {
        flowWindowSize := flowWindowSize - SeqOff(sndLastAck, ack);
        sndLastAck := ack;
      }
      s := Protocol.ProcessLightAck(s, a);
    }

    /** The response timer ran out: everything unacknowledged counts as lost, unless something already does. */
    method Expire()
      requires Valid()
      modifies this`s, this`sndLossTotal, lossList, lossList.data1, lossList.data2, lossList.next
      ensures Valid() && s == Protocol.Expire(old(s)) && s == old(s).(loss := lossList.Elems())
      ensures sndLossTotal - old(sndLossTotal) == |s.loss| - |old(s.loss)|
      ensures old(s.lastAck <= s.curr && lossList.Elems() == {}) ==>
        && (forall n :: n in lossList.Elems() <==> s.lastAck <= n <= s.curr)
        && sndLossTotal == old(sndLossTotal) + (s.curr - s.lastAck + 1)
      ensures !old(s.lastAck <= s.curr && lossList.Elems() == {}) ==>
        lossList.Elems() == old(lossList.Elems()) && sndLossTotal == old(sndLossTotal)
    {
      hide FramedSeq, SndLossList.Valid, SndLossList.Elems, SndBuffer.Valid, Residues, Wire, IncSeq, SndLossList.Fits;
      sndBuffer.Sizes();
      ExpireFacts(s, sndLastAck, sndLastDataAck, sndCurrSeqNo, window);
      assert lossList.Elems() == {} <==> |lossList.Elems()| == 0;
      if s.lastAck <= s.curr {
        RangeSize(s.lastAck, s.curr);
        assert {} + Range(s.lastAck, s.curr) == Range(s.lastAck, s.curr);
      }
      if sndBuffer.count > 0 {
        var lost := lossList.GetLossLength();
        if IncSeq(sndCurrSeqNo) != sndLastAck && lost == 0 {
          MarkLost(sndLastAck, sndCurrSeqNo, s.lastAck, s.curr);
        }
      }
    }

    /** Adds a..b, all of them sent and unacknowledged, to the loss list. */
    method MarkLost(seqno1: int, seqno2: int, ghost a: int, ghost b: int)
      requires Valid() && s.lastAck <= a <= b <= s.curr && seqno1 == Wire(a) && seqno2 == Wire(b)
      modifies this`s, this`sndLossTotal, lossList, lossList.data1, lossList.data2, lossList.next
      ensures Valid() && s == old(s).(loss := old(s.loss) + Range(a, b))
      ensures sndLossTotal - old(sndLossTotal) == |s.loss| - |old(s.loss)|
    {
      hide FramedSeq, SndLossList.Valid, SndLossList.Elems, SndBuffer.Valid, Residues, Wire, SndLossList.Fits;
      MarkFacts(s, a, b, sndLastAck, sndLastDataAck, sndCurrSeqNo, window);
      lossList.FitsIn(s.lastDataAck, a, b, window);
      var num := lossList.Insert(seqno1, seqno2, a, b);
      s := s.(loss := s.loss + Range(a, b));
      sndLossTotal := sndLossTotal + num;
    }

    /** A loss report. words encodes the runs rs. */
    method ProcessNak(words: seq<int>, ghost rs: seq<Interval>)
      requires Valid() && NakNear(s, rs) && words == Encode(rs)
      modifies this`s, this`broken, this`sndLossTotal, lossList, lossList.data1, lossList.data2, lossList.next
      ensures Valid() && s == Protocol.ProcessNak(old(s), rs)
      ensures s == old(s).(loss := lossList.Elems(), broken := broken)
      ensures broken <==> old(broken) || exists i :: 0 <= i < |rs| && !(rs[i].lo <= rs[i].hi <= s.curr)
      ensures sndLossTotal - old(sndLossTotal) == |s.loss| - |old(s.loss)|
    {
      hide Valid, Encode, EncodeOne, NakNear, Insecure, ProcessInterval, SenderOk;
      var secure := true;
      var i := 0;
      ghost var k := 0;
      assert rs[0..] == rs;
      Mirrors();
      while i < |words| && secure
        invariant 0 <= i <= |words| && 0 <= k <= |rs|
        invariant Valid() && NakNear(s, rs[k..]) && words[i..] == Encode(rs[k..])
        invariant !secure ==> k < |rs| && Insecure(s, rs[k])
        invariant s.curr == old(s.curr) && forall j | 0 <= j < k :: rs[j].lo <= rs[j].hi <= s.curr
        invariant Protocol.ProcessNak(s, rs[k..]) == Protocol.ProcessNak(old(s), rs)
        invariant sndLossTotal - old(sndLossTotal) == |s.loss| - |old(s.loss)|
        decreases |words| - i, secure
      {
        NakHead(s, rs[k..], words[i..]);
        NakStep(s, rs[k..]);
        assert rs[k..][1..] == rs[k + 1..] && words[i..][0] == words[i];
        if words[i] >= FLAG {
          assert words[i..][1] == words[i + 1] && words[i..][2..] == words[i + 2..];
          secure := TakePair(words[i] - FLAG, words[i + 1], rs[k]);
          if secure {
            i := i + 2;
            k := k + 1;
          }
        } else {
          assert words[i..][1..] == words[i + 1..];
          secure := TakeSingle(words[i], rs[k]);
          if secure {
            i := i + 1;
            k := k + 1;
          }
        }
      }
      NakEnd(s, rs[k..], secure);
      Mirrors();
      if !secure {
        InsecureIs(s, rs[k]);
        Break();
      }
      NakExact(old(s), rs, k);
      Mirrors();
    }

    lemma Mirrors()
      requires Valid()
      ensures s.loss == lossList.Elems() && s.broken == broken && SenderOk(s)
    {
      hide FramedSeq, SndLossList.Valid, SndLossList.Elems, SndBuffer.Valid, Wire;
    }

    /** The peer acknowledged or reported what was never sent. */
    method Break()
      requires Valid()
      modifies this`s, this`broken
      ensures Valid() && s == old(s).(broken := true)
    {
      hide FramedSeq, SndLossList.Valid, SndLossList.Elems, SndBuffer.Valid, Wire;
      broken := true;
      s := s.(broken := true);
    }

    /** A pair of a loss report, unless it runs backwards or lies past what was sent. */
    method TakePair(seqno1: int, seqno2: int, ghost iv: Interval) returns (secure: bool)
      requires Valid() && RunNear(s, iv) && iv.lo != iv.hi && seqno1 == Wire(iv.lo) && seqno2 == Wire(iv.hi)
      modifies this`s, this`sndLossTotal, lossList, lossList.data1, lossList.data2, lossList.next
      ensures Valid() && secure == !Insecure(old(s), iv)
      ensures secure <==> iv.lo <= iv.hi <= s.curr
      ensures s == old(s).(loss := lossList.Elems())
      ensures forall n :: n in lossList.Elems() <==>
                n in old(lossList.Elems()) || (secure && iv.lo <= n <= iv.hi && n >= s.lastAck)
      ensures s == if secure then ProcessInterval(old(s), iv) else old(s)
      ensures sndLossTotal - old(sndLossTotal) == |s.loss| - |old(s.loss)|
    {
      hide FramedSeq, SndLossList.Valid, SndLossList.Elems, SndBuffer.Valid, Residues, Wire, SeqCmp, Near;
      PairFacts(s, iv, sndLastAck, sndLastDataAck, sndCurrSeqNo, window);
      if SeqCmp(seqno1, seqno2) > 0 || SeqCmp(seqno2, sndCurrSeqNo) > 0 {
        return false;
      }
      secure := true;
      if SeqCmp(seqno1, sndLastAck) >= 0 {
        MarkLost(seqno1, seqno2, iv.lo, iv.hi);
      } else if SeqCmp(seqno2, sndLastAck) >= 0 {
        MarkLost(sndLastAck, seqno2, s.lastAck, iv.hi);
      }
    }

    /** One number of a loss report, unless it lies past what was sent. */
    method TakeSingle(seqno: int, ghost iv: Interval) returns (secure: bool)
      requires Valid() && RunNear(s, iv) && iv.lo == iv.hi && seqno == Wire(iv.lo)
      modifies this`s, this`sndLossTotal, lossList, lossList.data1, lossList.data2, lossList.next
      ensures Valid() && secure == !Insecure(old(s), iv)
      ensures secure <==> iv.lo <= iv.hi <= s.curr
      ensures s == old(s).(loss := lossList.Elems())
      ensures forall n :: n in lossList.Elems() <==>
                n in old(lossList.Elems()) || (secure && iv.lo <= n <= iv.hi && n >= s.lastAck)
      ensures s == if secure then ProcessInterval(old(s), iv) else old(s)
      ensures sndLossTotal - old(sndLossTotal) == |s.loss| - |old(s.loss)|
    {
      hide FramedSeq, SndLossList.Valid, SndLossList.Elems, SndBuffer.Valid, Residues, Wire, SeqCmp, Near;
      PairFacts(s, iv, sndLastAck, sndLastDataAck, sndCurrSeqNo, window);
      secure := true;
      if SeqCmp(seqno, sndLastAck) >= 0 {
        if SeqCmp(seqno, sndCurrSeqNo) > 0 {
          return false;
        }
        MarkLost(seqno, seqno, iv.lo, iv.hi);
      }
    }
  }

  /** A reported run is no further from the sender's counters than half the sequence space. */
  ghost predicate RunNear(s: Sender, iv: Interval) {
    && 0 <= iv.lo && 0 <= iv.hi && Near(iv.lo, iv.hi)
    && Near(iv.lo, s.lastAck) && Near(iv.hi, s.lastAck) && Near(iv.lo, s.curr) && Near(iv.hi, s.curr)
  }

  ghost predicate NakNear(s: Sender, rs: seq<Interval>)
    ensures NakNear(s, rs) ==> forall i | 0 <= i < |rs| :: 0 <= rs[i].lo && 0 <= rs[i].hi
  {
    forall i | 0 <= i < |rs| :: RunNear(s, rs[i])
  }

  /** The first word, and the second one if it is flagged, hold the first run. */
  lemma NakHead(s: Sender, rs: seq<Interval>, words: seq<int>)
    requires NakNear(s, rs) && words == Encode(rs) && words != []
    ensures rs != [] && RunNear(s, rs[0]) && NakNear(s, rs[1..])
    ensures words[0] >= FLAG ==>
      && |words| >= 2 && rs[0].lo != rs[0].hi && words[0] - FLAG == Wire(rs[0].lo) && words[1] == Wire(rs[0].hi)
      && words[2..] == Encode(rs[1..])
    ensures words[0] < FLAG ==>
      rs[0].lo == rs[0].hi && words[0] == Wire(rs[0].lo) && words[1..] == Encode(rs[1..])
  {
    hide Wire, RunNear;
    assert words == EncodeOne(rs[0]) + Encode(rs[1..]);
  }

  lemma NakStep(s: Sender, rs: seq<Interval>)
    requires rs != [] && NakNear(s, rs)
    ensures !Insecure(s, rs[0]) ==> Protocol.ProcessNak(s, rs) == Protocol.ProcessNak(ProcessInterval(s, rs[0]), rs[1..])
    ensures NakNear(ProcessInterval(s, rs[0]), rs[1..])
  {
  }

  lemma NakEnd(s: Sender, rs: seq<Interval>, secure: bool)
    requires NakNear(s, rs)
    requires if secure then Encode(rs) == [] else rs != [] && Insecure(s, rs[0])
    ensures Protocol.ProcessNak(s, rs) == if secure then s else s.(broken := true)
    ensures secure ==> rs == []
  {
    hide Wire;
  }

  lemma PairFacts(s: Sender, iv: Interval, lastAck: int, lastDataAck: int, curr: int, window: int)
    requires Residues(s, lastAck, lastDataAck, curr, window) && RunNear(s, iv)
    ensures SeqCmp(Wire(iv.lo), Wire(iv.hi)) > 0 <==> iv.lo > iv.hi
    ensures SeqCmp(Wire(iv.hi), curr) > 0 <==> iv.hi > s.curr
    ensures SeqCmp(Wire(iv.lo), lastAck) >= 0 <==> iv.lo >= s.lastAck
    ensures SeqCmp(Wire(iv.hi), lastAck) >= 0 <==> iv.hi >= s.lastAck
    ensures lastAck == Wire(s.lastAck) && 0 <= s.lastAck <= s.curr + 1
  {
    hide SeqCmp, Wire;
    OffAndCmp(iv.lo, iv.hi);
    OffAndCmp(iv.hi, s.curr);
    OffAndCmp(iv.lo, s.lastAck);
    OffAndCmp(iv.hi, s.lastAck);
  }

  lemma MarkFacts(s: Sender, a: int, b: int, lastAck: int, lastDataAck: int, curr: int, window: int)
    requires Residues(s, lastAck, lastDataAck, curr, window) && s.lastAck <= a <= b <= s.curr
    ensures 0 <= s.lastDataAck <= a && b < s.lastDataAck + window && window < SEQ_TH
    ensures forall x | x in s.loss :: s.lastDataAck <= x < s.lastDataAck + window
    ensures Residues(s.(loss := s.loss + Range(a, b)), lastAck, lastDataAck, curr, window)
  {
    hide Wire;
  }

  /** The ACK is no older, and no further ahead, than half the sequence space. */
  ghost predicate AckNear(s: Sender, a: int) {
    0 <= a && Near(a, s.curr + 1) && Near(a, s.lastAck) && Near(a, s.lastDataAck)
  }

  lemma SendFacts(s: Sender, data: Bytes, limit: int, mss: int, lastAck: int, lastDataAck: int, curr: int, window: int)
    requires Residues(s, lastAck, lastDataAck, curr, window) && mss > 0
    ensures
      var n := Accepted(s, |data|, limit, mss);
      var s' := SendData(s, data, limit, mss);
      && (|data| == 0 || limit <= Blocks(s) ==> n == 0 && s' == s)
      && (!(|data| == 0 || limit <= Blocks(s)) ==>
            n == (if (limit - Blocks(s)) * mss > |data| then |data| else (limit - Blocks(s)) * mss))
      && Residues(s', lastAck, lastDataAck, curr, window)
      && s'.chunks[s.lastDataAck - s.isn..] == s.chunks[s.lastDataAck - s.isn..] + Cut(data[..n], mss)
  {
    hide Wire;
    if limit > Blocks(s) {
      MulGe(limit - Blocks(s), mss);
    }
    if Accepted(s, |data|, limit, mss) == 0 {
      assert s.chunks + [] == s.chunks;
    }
  }

  /** A message that fits is taken whole. */
  lemma MsgFits(s: Sender, data: Bytes, limit: int, mss: int)
    requires mss > 0 && Blocks(s) >= 0 && data != []
    ensures |data| > limit * mss ==> (limit - Blocks(s)) * mss < |data|
    ensures (limit - Blocks(s)) * mss >= |data| ==>
      && SendData(s, data, limit, mss) == s.(chunks := s.chunks + Cut(data, mss)) && limit > Blocks(s)
  {
    hide Cut;
    var b := Blocks(s);
    MulAtLeast(b, mss);
    assert (limit - b) * mss == limit * mss - b * mss;
    if limit <= b {
      MulAtLeast(b - limit, mss);
      assert (limit - b) * mss == -((b - limit) * mss);
    }
    assert data[..|data|] == data;
  }

  lemma MulAtLeast(k: int, m: int)
    requires 0 <= k && 0 < m
    ensures k * m >= 0
  {
  }

  lemma AckFacts(s: Sender, a: int, room: int, lastAck: int, lastDataAck: int, curr: int, window: int)
    requires Residues(s, lastAck, lastDataAck, curr, window) && AckNear(s, a) && room <= window
    ensures SeqCmp(Wire(a), IncSeq(curr)) > 0 <==> a > s.curr + 1
    ensures SeqCmp(Wire(a), lastAck) >= 0 <==> a >= s.lastAck
    ensures SeqOff(lastDataAck, Wire(a)) == a - s.lastDataAck
    ensures
      var s' := Protocol.ProcessAck(s, a, room);
      && Residues(s', if s.lastAck <= a <= s.curr + 1 then Wire(a) else lastAck,
                  if s.lastDataAck < a <= s.curr + 1 then Wire(a) else lastDataAck, curr, window)
      && s'.flow == (if s.lastAck <= a <= s.curr + 1 then room else s.flow)
      && s'.broken == (s.broken || a > s.curr + 1)
      && s'.chunks == s.chunks && s'.curr == s.curr && s'.isn == s.isn
      && s'.loss == (if s.lastDataAck < a <= s.curr + 1 then set x | x in s.loss && x > a - 1 else s.loss)
      && s'.lastDataAck == (if s.lastDataAck < a <= s.curr + 1 then a else s.lastDataAck)
    ensures 0 <= s.lastDataAck - s.isn <= |s.chunks|
    ensures s.lastDataAck < a <= s.curr + 1 ==>
      && 1 <= a && (forall x | x in s.loss :: Near(x, a - 1)) && a - s.isn <= |s.chunks|
      && s.chunks[s.lastDataAck - s.isn..][a - s.lastDataAck..] == s.chunks[a - s.isn..]
  {
    hide SeqCmp, SeqOff, IncSeq, Wire;
    IncIsSucc(s.curr);
    OffAndCmp(a, s.curr + 1);
    OffAndCmp(a, s.lastAck);
    OffAndCmp(s.lastDataAck, a);
  }

  lemma LightAckFacts(s: Sender, a: int, lastAck: int, lastDataAck: int, curr: int, window: int)
    requires Residues(s, lastAck, lastDataAck, curr, window) && AckNear(s, a) && a <= s.curr + 1
    ensures SeqCmp(Wire(a), lastAck) >= 0 <==> a >= s.lastAck
    ensures SeqOff(lastAck, Wire(a)) == a - s.lastAck
    ensures
      var s' := Protocol.ProcessLightAck(s, a);
      Residues(s', if a >= s.lastAck then Wire(a) else lastAck, lastDataAck, curr, window)
  {
    hide SeqCmp, SeqOff, Wire;
    OffAndCmp(a, s.lastAck);
    OffAndCmp(s.lastAck, a);
  }

  lemma ExpireFacts(s: Sender, lastAck: int, lastDataAck: int, curr: int, window: int)
    requires Residues(s, lastAck, lastDataAck, curr, window)
    ensures IncSeq(curr) == lastAck <==> s.curr + 1 == s.lastAck
    ensures lastAck == Wire(s.lastAck) && curr == Wire(s.curr)
    ensures s.curr + 1 != s.lastAck ==> s.lastAck <= s.curr && |s.chunks| - (s.lastDataAck - s.isn) > 0
  {
    hide Wire, IncSeq;
    IncIsSucc(s.curr);
    OffAndCmp(s.curr + 1, s.lastAck);
  }

  lemma SenderFine(s: Sender, lastAck: int, lastDataAck: int, curr: int, window: int)
    requires Residues(s, lastAck, lastDataAck, curr, window)
    ensures SenderOk(s)
  {
    hide Wire;
  }

  lemma CurrIs(s: Sender, lastAck: int, lastDataAck: int, curr: int, window: int)
    requires Residues(s, lastAck, lastDataAck, curr, window)
    ensures curr == Wire(s.curr)
  {
  }
}
