/** One direction of a connection, as steps on values: what each packet handler of CUDT does to the sender's and the
    receiver's counters, buffers and loss lists. Sequence numbers are unbounded here. */
module Protocol {
  import opened Bytes
  import opened Collections
  import opened Ring
  import opened Runs
  import opened SeqNo

  datatype Option<T> = None | Some(value: T)

  datatype Packet =
    | Data(seqno: int, payload: Bytes)
    | Ack(ackSeq: int, ack: int, window: int)
    | LightAck(ack: int)
    | Nak(losses: seq<Interval>)
    | Ack2(ackSeq: int)

  /** isn: first sequence number; chunks[i]: the block that carries isn + i, for every block ever accepted. */
  datatype Sender = Sender(isn: int, chunks: seq<Bytes>, lastAck: int, lastDataAck: int, curr: int, flow: int,
                           loss: set<int>, broken: bool)

  /** start: number of the unit at the read position; slots: the stored units; notch: bytes of the first unit
      already read; acked: the ACK history, oldest first. */
  datatype Receiver = Receiver(bufSize: int, lastAck: int, lastAckAck: int, curr: int, loss: set<int>,
                               start: int, slots: map<int, Bytes>, notch: int,
                               ackSeq: int, acked: seq<(int, int)>)

  // ----- smallest element -----

  ghost predicate IsMin(s: set<int>, m: int) {
    m in s && forall x | x in s :: m <= x
  }

  lemma {:induction false} MinExists(s: set<int>)
    requires s != {}
    ensures exists m :: IsMin(s, m)
    decreases |s|
  {
    Inhabited(s);
    var x :| x in s;
    var t := s - {x};
    assert forall y | y in s :: y == x || y in t;
    if t == {} {
      assert forall y | y in s :: y == x;
      assert IsMin(s, x);
    } else {
      MinExists(t);
      var m :| IsMin(t, m);
      assert IsMin(s, if x < m then x else m);
    }
  }

  ghost function Min(s: set<int>): (m: int)
    requires s != {}
    ensures IsMin(s, m)
  {
    MinExists(s);
    var m :| IsMin(s, m);
    m
  }

  lemma MinIs(s: set<int>, m: int)
    requires IsMin(s, m)
    ensures s != {} && Min(s) == m
  {
  }

  // ----- the sender -----

  function Blocks(s: Sender): int {
    |s.chunks| - (s.lastDataAck - s.isn)
  }

  /** What the handlers rely on between calls. */
  ghost predicate SenderOk(s: Sender) {
    && 0 <= s.isn <= s.lastDataAck <= s.lastAck <= s.curr + 1 <= s.isn + |s.chunks|
    && (forall x | x in s.loss :: s.lastDataAck <= x <= s.curr)
    && (forall i | 0 <= i < |s.chunks| :: s.chunks[i] != [])
  }

  /** How many of len bytes an application send takes, with room for limit blocks of mss bytes. */
  function Accepted(s: Sender, len: nat, limit: int, mss: int): (n: nat)
    requires mss > 0
    ensures n <= len
  {
    var room := (limit - Blocks(s)) * mss;
    if limit <= Blocks(s) || room <= 0 then 0 else if room > len then len else room
  }

  function SendData(s: Sender, data: Bytes, limit: int, mss: int): Sender
    requires mss > 0
  {
    s.(chunks := s.chunks + Cut(data[..Accepted(s, |data|, limit, mss)], mss))
  }

  /** The block that carries n. */
  function Payload(s: Sender, n: int): Bytes
    requires s.isn <= n < s.isn + |s.chunks|
  {
    s.chunks[n - s.isn]
  }

  /** packData: a lost number first, else the next new block if the windows allow. */
  ghost function PackData(s: Sender, cwnd: int): (Sender, Option<Packet>)
    requires SenderOk(s)
  {
    if s.loss != {} then
      var n := Min(s.loss);
      var s' := s.(loss := s.loss - {n});
      if n < s.lastDataAck then (s', None) else (s', Some(Data(n, Payload(s, n))))
    else if (if s.flow < cwnd then s.flow else cwnd) >= s.curr + 1 - s.lastAck + 1 && s.curr + 1 < s.isn + |s.chunks| then
      (s.(curr := s.curr + 1), Some(Data(s.curr + 1, Payload(s, s.curr + 1))))
    else
      (s, None)
  }

  ghost function ProcessAck(s: Sender, ack: int, window: int): Sender {
    if ack > s.curr + 1 then s.(broken := true)
    else
      var s1 := if ack >= s.lastAck then s.(flow := window, lastAck := ack) else s;
      if ack <= s.lastDataAck then s1
      else s1.(lastDataAck := ack, loss := set x | x in s.loss && x >= ack)
  }

  function ProcessLightAck(s: Sender, ack: int): Sender {
    if ack >= s.lastAck then s.(flow := s.flow - (ack - s.lastAck), lastAck := ack) else s
  }

  /** Whether the loss report handler gives up on this interval. */
  predicate Insecure(s: Sender, iv: Interval) {
    if iv.lo == iv.hi then iv.lo >= s.lastAck && iv.lo > s.curr
    else iv.lo > iv.hi || iv.hi > s.curr
  }

  ghost function ProcessInterval(s: Sender, iv: Interval): Sender {
    if iv.lo >= s.lastAck then s.(loss := s.loss + Range(iv.lo, iv.hi))
    else if iv.hi >= s.lastAck then s.(loss := s.loss + Range(s.lastAck, iv.hi))
    else s
  }

  ghost function ProcessNak(s: Sender, rs: seq<Interval>): Sender
    decreases |rs|
  {
    if rs == [] then s
    else if Insecure(s, rs[0]) then s.(broken := true)
    else ProcessNak(ProcessInterval(s, rs[0]), rs[1..])
  }

  /** The expiry of the response timer. */
  ghost function Expire(s: Sender): Sender {
    if Blocks(s) > 0 && s.curr + 1 != s.lastAck && s.loss == {} then s.(loss := Range(s.lastAck, s.curr)) else s
  }

  // ----- what the sender's steps do -----

  /** The expiry marks everything unacknowledged as lost, if something is and nothing is marked yet, and changes nothing
      else. */
  lemma ExpiryMarks(s: Sender)
    requires SenderOk(s)
    ensures
      var s' := Expire(s);
      && s' == s.(loss := s'.loss)
      && if s.lastAck <= s.curr && s.loss == {} then forall n :: n in s'.loss <==> s.lastAck <= n <= s.curr
         else s'.loss == s.loss
  {
  }

  /** The sender after k packets, with congestion window cwnd(i) for the i-th one. */
  ghost function Packs(s: Sender, cwnd: nat -> int, k: nat): Sender {
    if k == 0 then s
    else
      var t := Packs(s, cwnd, k - 1);
      if SenderOk(t) then PackData(t, cwnd(k - 1)).0 else t
  }

  /** After the expiry the next packets are all that is unacknowledged, in order, each with the block it carried first,
      whatever the windows; then the sender is as before. */
  lemma {:induction false} ResendsInOrder(s: Sender, cwnd: nat -> int, k: nat)
    requires SenderOk(s) && s.loss == {} && s.lastAck <= s.curr && k <= s.curr + 1 - s.lastAck
    ensures
      var t := Packs(Expire(s), cwnd, k);
      && SenderOk(t) && t == s.(loss := Range(s.lastAck + k, s.curr))
      && (k <= s.curr - s.lastAck ==>
            PackData(t, cwnd(k)).1 == Some(Data(s.lastAck + k, s.chunks[s.lastAck + k - s.isn])))
      && (k == s.curr + 1 - s.lastAck ==> t == s)
    decreases k
  {
    hide PackData, SenderOk, Expire;
    if k > 0 {
      ResendsInOrder(s, cwnd, k - 1);
      ResendsNext(s.(loss := Range(s.lastAck + k - 1, s.curr)), s.lastAck + k - 1, cwnd(k - 1));
    } else {
      ExpiryMarks(s);
      assert Expire(s).loss == Range(s.lastAck, s.curr);
      ExpiryOk(s);
    }
    if k <= s.curr - s.lastAck {
      ResendsNext(s.(loss := Range(s.lastAck + k, s.curr)), s.lastAck + k, cwnd(k));
    } else {
      assert Range(s.lastAck + k, s.curr) == {};
    }
  }

  lemma ExpiryOk(s: Sender)
    requires SenderOk(s)
    ensures SenderOk(Expire(s))
  {
  }

  lemma ResendsNext(s: Sender, m: int, cwnd: int)
    requires SenderOk(s) && s.lastAck <= m <= s.curr && s.loss == Range(m, s.curr)
    ensures SenderOk(s.(loss := Range(m + 1, s.curr)))
    ensures PackData(s, cwnd) == (s.(loss := Range(m + 1, s.curr)), Some(Data(m, s.chunks[m - s.isn])))
  {
    MinIs(s.loss, m);
    assert Range(m, s.curr) - {m} == Range(m + 1, s.curr);
  }

  /** A full ACK past everything sent breaks the connection and changes nothing else. Any other one raises lastAck and
      lastDataAck to its number, never lowers them, forgets the losses it covers, and sets the window unless it is old. */
  lemma AckExact(s: Sender, ack: int, window: int)
    requires SenderOk(s)
    ensures ack > s.curr + 1 ==> ProcessAck(s, ack, window) == s.(broken := true)
    ensures ack <= s.curr + 1 ==>
      var s' := ProcessAck(s, ack, window);
      && s' == s.(lastAck := s'.lastAck, lastDataAck := s'.lastDataAck, flow := s'.flow, loss := s'.loss)
      && s'.lastAck == (if ack > s.lastAck then ack else s.lastAck)
      && s'.lastDataAck == (if ack > s.lastDataAck then ack else s.lastDataAck)
      && s'.flow == (if ack >= s.lastAck then window else s.flow)
      && forall n :: n in s'.loss <==> n in s.loss && n >= s'.lastDataAck
  {
  }

  /** A light ACK moves lastAck up and leaves the number the window reaches to where it is. */
  lemma LightAckEdge(s: Sender, ack: int)
    ensures
      var s' := ProcessLightAck(s, ack);
      && s' == s.(lastAck := s'.lastAck, flow := s'.flow)
      && s'.lastAck == (if ack > s.lastAck then ack else s.lastAck)
      && s'.lastAck + s'.flow == s.lastAck + s.flow
  {
  }

  /** The report handler gives up exactly on an interval that runs backwards or past what was sent. */
  lemma InsecureIs(s: Sender, iv: Interval)
    requires SenderOk(s)
    ensures Insecure(s, iv) <==> !(iv.lo <= iv.hi <= s.curr)
  {
  }

  /** All intervals of a report before the first bad one are marked as far as they are not acknowledged; a bad one, and
      nothing else, breaks the connection. */
  lemma {:induction false} NakExact(s: Sender, rs: seq<Interval>, k: nat)
    requires SenderOk(s) && k <= |rs| && forall i | 0 <= i < k :: rs[i].lo <= rs[i].hi <= s.curr
    requires k < |rs| ==> !(rs[k].lo <= rs[k].hi <= s.curr)
    ensures
      var s' := ProcessNak(s, rs);
      && s' == s.(loss := s'.loss, broken := s.broken || k < |rs|)
      && forall n :: n in s'.loss <==>
           n in s.loss || (n >= s.lastAck && exists i :: 0 <= i < k && rs[i].lo <= n <= rs[i].hi)
    decreases |rs|
  {
    if rs != [] && k > 0 {
      InsecureIs(s, rs[0]);
      var s1 := ProcessInterval(s, rs[0]);
      NakExact(s1, rs[1..], k - 1);
      var s' := ProcessNak(s, rs);
      forall n
        ensures n in s'.loss <==>
          n in s.loss || (n >= s.lastAck && exists i :: 0 <= i < k && rs[i].lo <= n <= rs[i].hi)
      {
        if i :| 0 <= i < k && rs[i].lo <= n <= rs[i].hi && i > 0 {
          assert rs[1..][i - 1] == rs[i];
        }
        if n in s'.loss && n !in s1.loss {
          var j :| 0 <= j < k - 1 && rs[1..][j].lo <= n <= rs[1..][j].hi;
          assert rs[j + 1].lo <= n <= rs[j + 1].hi;
        }
      }
    }
  }

  lemma BlocksFit(n: int, room: int, mss: int)
    requires 0 <= n <= room * mss && mss > 0
    ensures n / mss + (if n % mss != 0 then 1 else 0) <= room
    ensures n == room * mss ==> n / mss == room && n % mss == 0
  {
    var q, m := n / mss, n % mss;
    assert n == q * mss + m;
    if q >= room {
      if q > room {
        MulGe(q - room, mss);
      }
    } else if n == room * mss {
      MulGe(room - q, mss);
    }
  }

  /** A send takes all the buffer has room for: it leaves bytes only if the buffer is full afterwards, and never more
      blocks than the limit. */
  lemma SendFills(s: Sender, data: Bytes, limit: int, mss: int)
    requires mss > 0 && Blocks(s) <= limit
    ensures
      var n := Accepted(s, |data|, limit, mss);
      var s' := SendData(s, data, limit, mss);
      && s' == s.(chunks := s'.chunks) && s.chunks <= s'.chunks
      && Flatten(s'.chunks[|s.chunks|..]) == data[..n]
      && Blocks(s') <= limit && (n < |data| ==> Blocks(s') == limit)
  {
    hide Flatten, Cut;
    var n := Accepted(s, |data|, limit, mss);
    var room := limit - Blocks(s);
    FlattenCut(data[..n], mss);
    CutSize(data[..n], mss);
    if n > 0 || room == 0 {
      BlocksFit(n, room, mss);
    }
    var cs := Cut(data[..n], mss);
    assert (s.chunks + cs)[|s.chunks|..] == cs;
  }

  // ----- the receiver -----

  /** Free room past the acknowledged data. */
  function Avail(r: Receiver): int {
    r.bufSize - (r.lastAck - r.start) - 1
  }

  /** The number to acknowledge: the smallest lost one, else one past the largest received. */
  ghost function AckPoint(r: Receiver): int {
    if r.loss == {} then r.curr + 1 else Min(r.loss)
  }

  predicate Acceptable(r: Receiver, n: int) {
    0 <= n - r.lastAck < Avail(r) && n !in r.slots
  }

  /** processData: store an acceptable packet, report the gap in front of it, and close the gap it fills. */
  ghost function ProcessData(r: Receiver, n: int, payload: Bytes): (Receiver, Option<Packet>) {
    if !Acceptable(r, n) then (r, None)
    else
      var r1 := r.(slots := r.slots[n := payload]);
      var gap := n > r.curr + 1;
      var r2 := if gap then r1.(loss := r.loss + Range(r.curr + 1, n - 1)) else r1;
      (if n > r.curr then r2.(curr := n) else r2.(loss := r2.loss - {n}),
       if gap then Some(Nak([Interval(r.curr + 1, n - 1)])) else None)
  }

  const ACK_WINDOW: int := 1024

  /** The ACK history keeps the newest ACK_WINDOW - 1 entries. */
  function Store(w: seq<(int, int)>, k: int, ack: int): seq<(int, int)> {
    var w' := w + [(k, ack)];
    if |w'| >= ACK_WINDOW then w'[1..] else w'
  }

  /** sendCtrl(2): repeat tells whether enough time has passed to repeat the last ACK. How far lastAckAck lags depends on
      the ACK2s that arrive, so the comparisons with it are those of the numbers as they travel. */
  ghost function SendAck(r: Receiver, light: bool, repeat: bool): (Receiver, Option<Packet>) {
    var ack := AckPoint(r);
    if Same(ack, r.lastAckAck) then (r, None)
    else if light then (r, Some(LightAck(ack)))
    else if ack < r.lastAck || (ack == r.lastAck && !repeat) then (r, None)
    else
      var r1 := r.(lastAck := ack);
      if Later(ack, r.lastAckAck) then
        var window := if Avail(r1) < 2 then 2 else Avail(r1);
        (r1.(ackSeq := r.ackSeq + 1, acked := Store(r.acked, r.ackSeq + 1, ack)),
         Some(Ack(r.ackSeq + 1, ack, window)))
      else (r1, None)
  }

  /** Position of ACK number k in the history, or its length. */
  function FindAck(w: seq<(int, int)>, k: int): (i: nat)
    ensures i <= |w|
    ensures forall j | 0 <= j < i :: w[j].0 != k
    ensures i < |w| ==> w[i].0 == k
  {
    if w == [] then 0 else if w[0].0 == k then 0 else 1 + FindAck(w[1..], k)
  }

  /** processCtrl case 6: positive tells whether the measured round trip is positive. */
  function ProcessAck2(r: Receiver, k: int, positive: bool): Receiver {
    var i := FindAck(r.acked, k);
    if i == |r.acked| then r
    else
      var ack := r.acked[i].1;
      var r1 := r.(acked := r.acked[i + 1..]);
      if positive && Later(ack, r.lastAckAck) then r1.(lastAckAck := ack) else r1
  }

  ghost predicate Readable(r: Receiver) {
    && r.start <= r.lastAck
    && (forall n | r.start <= n < r.lastAck :: n in r.slots)
    && 0 <= r.notch && (r.start < r.lastAck ==> r.notch <= |r.slots[r.start]|)
  }

  /** recv: whole units while they fit in len, then part of one. */
  function Recv(r: Receiver, len: int): (res: (Receiver, Bytes))
    requires Readable(r)
    decreases r.lastAck - r.start
  {
    if len <= 0 || r.start == r.lastAck then (r, [])
    else
      var unit := r.slots[r.start][r.notch..];
      if len >= |unit| then
        var (r', rest) := Recv(r.(slots := r.slots - {r.start}, start := r.start + 1, notch := 0), len - |unit|);
        (r', unit + rest)
      else
        (r.(notch := r.notch + len), unit[..len])
  }

  /** The acknowledged bytes not read yet. */
  function Unread(r: Receiver): Bytes
    requires Readable(r)
    decreases r.lastAck - r.start
  {
    if r.start == r.lastAck then []
    else r.slots[r.start][r.notch..] + Unread(r.(slots := r.slots - {r.start}, start := r.start + 1, notch := 0))
  }

  /** The receiver without the rest of the unit at the read position. */
  function Shifted(r: Receiver): Receiver {
    r.(slots := r.slots - {r.start}, start := r.start + 1, notch := 0)
  }

  lemma ReadableNext(r: Receiver, len: int)
    requires Readable(r) && r.start < r.lastAck && 0 < len
    ensures
      var unit := r.slots[r.start][r.notch..];
      var r' := r.(notch := r.notch + len);
      && 0 <= r.notch <= |r.slots[r.start]| && r.start < r.lastAck && Shifted(r).lastAck == r.lastAck
      && Readable(Shifted(r)) && Unread(r) == unit + Unread(Shifted(r))
      && (len < |unit| ==> Readable(r') && Unread(r') == unit[len..] + Unread(Shifted(r)))
      && Recv(r, len) == if len >= |unit| then (Recv(Shifted(r), len - |unit|).0, unit + Recv(Shifted(r), len - |unit|).1)
                         else (r', unit[..len])
  {
    var unit := r.slots[r.start][r.notch..];
    var r' := r.(notch := r.notch + len);
    if len < |unit| {
      assert r'.slots[r.start][r'.notch..] == unit[len..];
      assert Shifted(r') == Shifted(r);
    }
  }

  lemma Regroup(a: Bytes, b: Bytes, c: Bytes)
    ensures a + (b + c) == a + b + c && |a + b + c| == |a| + |b| + |c|
  {
  }

  /** recv returns exactly the next min(len, available) bytes and leaves the rest in order. */
  lemma {:induction false} RecvIsQueueRead(r: Receiver, len: int)
    requires Readable(r) && 0 <= len
    ensures
      var (r', out) := Recv(r, len);
      && Readable(r') && r.start <= r'.start <= r'.lastAck == r.lastAck
      && |out| == (if len < |Unread(r)| then len else |Unread(r)|)
      && Unread(r) == out + Unread(r')
    decreases r.lastAck - r.start
  {
    if len == 0 || r.start == r.lastAck {
      assert [] + Unread(r) == Unread(r);
    } else {
      hide Recv, Unread, Readable;
      ReadableNext(r, len);
      var unit := r.slots[r.start][r.notch..];
      if len >= |unit| {
        RecvIsQueueRead(Shifted(r), len - |unit|);
        var (r', rest) := Recv(Shifted(r), len - |unit|);
        Regroup(unit, rest, Unread(r'));
      } else {
        assert unit[..len] + unit[len..] == unit;
        Regroup(unit[..len], unit[len..], Unread(Shifted(r)));
      }
    }
  }

  // ----- what the receiver's steps keep -----

  /** The receiver's ring, loss list and counters agree: between the last ACK and the largest number received, a
      slot is empty exactly when its number is in the loss list. */
  ghost predicate ReceiverOk(r: Receiver) {
    && r.start <= r.lastAck <= r.curr + 1
    && r.curr + 1 < r.start + r.bufSize
    && (forall n | n in r.slots :: r.start <= n <= r.curr && r.slots[n] != [])
    && (forall n | r.start <= n < r.lastAck :: n in r.slots)
    && (forall n | r.lastAck <= n <= r.curr :: n in r.slots <==> n !in r.loss)
    && (forall n | n in r.loss :: r.lastAck <= n < r.curr)
    && (if r.start < r.lastAck then 0 <= r.notch < |r.slots[r.start]| else r.notch == 0)
    && r.lastAckAck <= r.lastAck
    && (forall i | 0 <= i < |r.acked| :: r.acked[i].1 <= r.lastAck)
  }

  /** The ACK number is the smallest number not received. */
  lemma AckPointIs(r: Receiver)
    requires ReceiverOk(r)
    ensures r.lastAck <= AckPoint(r) <= r.curr + 1
    ensures forall n | r.start <= n < AckPoint(r) :: n in r.slots
    ensures AckPoint(r) !in r.slots
  {
    if r.loss != {} {
      assert IsMin(r.loss, Min(r.loss));
    }
  }

  lemma AckPointGrows(r: Receiver, r': Receiver)
    requires ReceiverOk(r) && ReceiverOk(r') && r.lastAck <= r'.lastAck && r'.start == r.start
    requires forall n | n in r.slots :: n in r'.slots
    ensures AckPoint(r) <= AckPoint(r')
  {
    AckPointIs(r);
    AckPointIs(r');
  }

  lemma ReceiveOk(r: Receiver, n: int, payload: Bytes)
    requires ReceiverOk(r) && payload != []
    ensures
      var r' := ProcessData(r, n, payload).0;
      && ReceiverOk(r') && r'.start == r.start && r'.lastAck == r.lastAck && r'.notch == r.notch
      && r'.bufSize == r.bufSize && r.curr <= r'.curr && r'.ackSeq == r.ackSeq
      && AckPoint(r) <= AckPoint(r')
      && r'.slots == (if Acceptable(r, n) then r.slots[n := payload] else r.slots)
      && r'.curr == (if Acceptable(r, n) && n > r.curr then n else r.curr)
  {
    hide AckPoint;
    var r' := ProcessData(r, n, payload).0;
    assert ReceiverOk(r');
    AckPointGrows(r, r');
  }

  /** An ACK moves the acknowledged data only past filled slots. */
  lemma AckTimerOk(r: Receiver, light: bool, repeat: bool)
    requires ReceiverOk(r) && 2 <= r.bufSize
    ensures
      var (r', p) := SendAck(r, light, repeat);
      && ReceiverOk(r') && r'.start == r.start && r'.notch == r.notch && r'.slots == r.slots
      && r'.curr == r.curr && r'.bufSize == r.bufSize && r.lastAck <= r'.lastAck
      && AckPoint(r') == AckPoint(r)
      && (p.Some? ==> p.value.Ack? || p.value.LightAck?)
      && r.ackSeq <= r'.ackSeq
      && (p.Some? && p.value.Ack? ==> p.value.ack == r'.lastAck && p.value.window <= r.bufSize && p.value.ackSeq == r'.ackSeq)
      && (p.Some? && p.value.LightAck? ==> p.value.ack == AckPoint(r))
    ensures forall n | r.start <= n < SendAck(r, light, repeat).0.lastAck :: n in r.slots
  {
    AckPointIs(r);
  }

  /** While the ACK2s do not lag half the sequence space behind, an ACK goes out exactly when there is something the
      sender is not known to know, and it is new, or light, or due again. */
  lemma AckGoesOut(r: Receiver, light: bool, repeat: bool)
    requires ReceiverOk(r) && 0 <= r.lastAckAck && Near(AckPoint(r), r.lastAckAck)
    ensures SendAck(r, light, repeat).1.Some? <==>
      AckPoint(r) > r.lastAckAck && (light || AckPoint(r) > r.lastAck || repeat)
    ensures !light ==> SendAck(r, light, repeat).0.lastAck == AckPoint(r)
  {
    hide AckPoint, Same, Later;
    AckPointIs(r);
    LaterIs(AckPoint(r), r.lastAckAck);
  }

  /** What an ACK may be. A light one carries the smallest number not received and leaves the receiver as it is; any other
      one acknowledges up to there, reports the room left, at least 2, and enters the history under the next number. */
  lemma AckKinds(r: Receiver, light: bool, repeat: bool)
    requires ReceiverOk(r)
    ensures
      var (r', out) := SendAck(r, light, repeat);
      && (light ==> r' == r)
      && (out.Some? ==> out.value.LightAck? == light && out.value.Ack? == !light)
      && (out.Some? ==>
            var a := out.value.ack;
            a !in r.slots && r.lastAck <= a && forall n | r.start <= n < a :: n in r.slots)
      && (out.Some? && !light ==>
            && r'.lastAck == out.value.ack && out.value.ackSeq == r'.ackSeq == r.ackSeq + 1
            && out.value.window == (var room := r.bufSize - (r'.lastAck - r.start) - 1; if room < 2 then 2 else room)
            && |r'.acked| > 0 && r'.acked[|r'.acked| - 1] == (r'.ackSeq, r'.lastAck))
      && (out.None? ==> r' == r.(lastAck := r'.lastAck))
  {
    hide AckPoint, Same, Later;
    AckPointIs(r);
  }

  /** A packet is stored exactly if its number lies in the free room and its slot is empty. */
  lemma AcceptableIs(r: Receiver, n: int, payload: Bytes)
    requires ReceiverOk(r)
    ensures n in ProcessData(r, n, payload).0.slots <==> n in r.slots || r.lastAck <= n < r.start + r.bufSize - 1
  {
  }

  /** A whole round behind, the number to acknowledge looks like the one the sender is known to know: no ACK goes out. */
  lemma AckWithheld(r: Receiver, light: bool, repeat: bool)
    requires ReceiverOk(r) && 0 <= r.lastAckAck && AckPoint(r) == r.lastAckAck + SEQ_MOD
    ensures SendAck(r, light, repeat) == (r, None) && AckPoint(r) > r.lastAckAck
  {
    hide AckPoint;
  }
}
