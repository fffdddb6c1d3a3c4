/** Message framing in the receive buffer, on values: which stored units make a message that may be delivered, and
    what reading one leaves behind. Units are numbered as in RcvBuffer. */
module Messages {
  import opened Bytes
  import opened SndBufferModule

  /** A stored unit. flag 1: not read yet; flag 2: read past the acknowledged data and kept. */
  datatype Cell = Cell(flag: int, header: Header)

  /** getMsgBoundary: 3 for a message of one unit, 2 for a first unit, 1 for a last one, 0 inside. */
  function Boundary(h: Header): int {
    if h.first then (if h.last then 3 else 2) else if h.last then 1 else 0
  }

  /** The headers of all units, by number, as the sender frames them. */
  ghost predicate Framed(h: int -> Header, isn: int) {
    && h(isn).first
    && (forall n | n >= isn :: h(n + 1).first <==> h(n).last)
    && (forall n | n >= isn :: !h(n).last ==> h(n + 1).inOrder == h(n).inOrder)
  }

  /** Units a..b are one whole message. */
  ghost predicate Whole(h: int -> Header, a: int, b: int) {
    a <= b && h(a).first && h(b).last && forall k | a <= k < b :: !h(k).last
  }

  ghost predicate Unread(v: map<int, Cell>, a: int, b: int) {
    forall k | a <= k <= b :: k in v && v[k].flag == 1
  }

  /** Message a..b is complete, not read, and fully acknowledged or allowed out of order. */
  ghost predicate Deliverable(v: map<int, Cell>, h: int -> Header, lastAck: int, a: int, b: int) {
    Whole(h, a, b) && Unread(v, a, b) && (b < lastAck || !h(b).inOrder)
  }

  /** What message mode keeps. Acknowledged slots are filled; a message read early was read as a whole; the read position
      is at the start of a message unless in one that was read early. */
  ghost predicate MsgOk(v: map<int, Cell>, h: int -> Header, isn: int, start: int, lastAck: int, maxPos: int) {
    && Framed(h, isn) && isn <= start <= lastAck
    && (forall n | n in v :: start <= n <= lastAck + maxPos && v[n].header == h(n) && (v[n].flag == 1 || v[n].flag == 2))
    && (forall n | start <= n < lastAck :: n in v)
    && (forall n | n in v && v[n].flag == 2 && !h(n).last :: n + 1 in v && v[n + 1].flag == 2)
    && (forall n | n in v && v[n].flag == 2 && !h(n).first && n > start :: n - 1 in v && v[n - 1].flag == 2)
    && (!h(start).first ==> start in v && v[start].flag == 2)
  }

  /** The bytes of units a..b. */
  function Text(slots: map<int, Bytes>, a: int, b: int): Bytes
    decreases b - a
  {
    if a > b || b !in slots then [] else Text(slots, a, b - 1) + slots[b]
  }

  lemma {:induction false} TextSame(s: map<int, Bytes>, t: map<int, Bytes>, a: int, b: int)
    requires forall k | a <= k <= b :: k in s && k in t && s[k] == t[k]
    ensures Text(s, a, b) == Text(t, a, b)
    decreases b - a
  {
    if a <= b {
      TextSame(s, t, a, b - 1);
    }
  }

  lemma WholeIn(v: map<int, Cell>, h: int -> Header, lastAck: int, a: int, b: int)
    requires Deliverable(v, h, lastAck, a, b)
    ensures Ends(v, h, a, b) && a <= b && forall k | a <= k <= b :: k in v && v[k].flag == 1
  {
  }

  /** At most len bytes of t. */
  function Cutoff(t: Bytes, len: int): Bytes
    requires 0 <= len
  {
    if |t| > len then t[..len] else t
  }

  lemma CutoffNext(t: Bytes, u: Bytes, len: int)
    requires 0 <= len
    ensures
      var rs := len - |Cutoff(t, len)|;
      0 <= rs && Cutoff(t + u, len) == Cutoff(t, len) + u[..if |u| > rs then rs else |u|]
  {
    if |t| >= len {
      assert (t + u)[..len] == t[..len];
    } else if |t| + |u| > len {
      assert (t + u)[..len] == t + u[..len - |t|];
    }
  }

  // ----- the skip loop -----

  /** The look-ahead of scanMsg: no missing or read unit before the next message end or the end of acknowledged data. */
  predicate Ahead(v: map<int, Cell>, i: int, end: int)
    decreases end - i
  {
    i >= end || (i in v && v[i].flag == 1 && (v[i].header.last || Ahead(v, i + 1, end)))
  }

  /** No message end lies in i..k - 1. */
  ghost predicate Unended(v: map<int, Cell>, i: int, k: int) {
    forall j | i <= j < k && j in v :: !v[j].header.last
  }

  /** The look-ahead fails exactly on a missing or read unit with no message end before it. */
  lemma {:induction false} AheadIs(v: map<int, Cell>, i: int, end: int)
    ensures Ahead(v, i, end) <==> forall k | i <= k < end && Unended(v, i, k) :: k in v && v[k].flag == 1
    decreases end - i
  {
    if i < end {
      AheadIs(v, i + 1, end);
      assert Unended(v, i, i);
      if i in v && !v[i].header.last {
        assert forall k | k > i :: Unended(v, i, k) <==> Unended(v, i + 1, k);
      } else if i in v {
        assert forall k | k > i :: !Unended(v, i, k);
      }
    }
  }

  /** The unit at i starts a message worth keeping. */
  predicate Good(v: map<int, Cell>, i: int, end: int) {
    i in v && v[i].flag == 1 && v[i].header.first && Ahead(v, i, end)
  }

  /** Where the skip loop stops. */
  function Skipped(v: map<int, Cell>, s: int, end: int): (t: int)
    requires s <= end
    ensures s <= t <= end
    ensures t < end ==> Good(v, t, end)
    ensures forall n | s <= n < t :: !Good(v, n, end)
    decreases end - s
  {
    if s == end || Good(v, s, end) then s else Skipped(v, s + 1, end)
  }

  lemma SkipUnfold(v: map<int, Cell>, s: int, end: int)
    requires s < end
    ensures Good(v, s, end) ==> Skipped(v, s, end) == s
    ensures !Good(v, s, end) ==> Skipped(v, s, end) == Skipped(v, s + 1, end)
  {
  }

  /** Where the skip loop stops, spelled out. */
  lemma SkippedIs(v: map<int, Cell>, s: int, end: int)
    requires s <= end
    ensures
      var t := Skipped(v, s, end);
      && s <= t <= end
      && (t < end ==> t in v && v[t].flag == 1 && v[t].header.first && Ahead(v, t, end))
      && forall n | s <= n < t :: !(n in v && v[n].flag == 1 && v[n].header.first && Ahead(v, n, end))
  {
    hide Ahead;
    var t := Skipped(v, s, end);
    forall n | s <= n < t ensures !(n in v && v[n].flag == 1 && v[n].header.first && Ahead(v, n, end)) {
      assert !Good(v, n, end);
    }
  }

  lemma SkipEnd(v: map<int, Cell>, s: int, end: int)
    requires s <= end && (s == end || Good(v, s, end))
    ensures Skipped(v, s, end) == s
  {
  }

  /** The units from s on. */
  function From(v: map<int, Cell>, s: int): map<int, Cell> {
    map n | n in v && n >= s :: v[n]
  }

  lemma {:induction false} AheadFrom(v: map<int, Cell>, s: int, i: int, end: int)
    requires s <= i
    ensures Ahead(From(v, s), i, end) == Ahead(v, i, end)
    decreases end - i
  {
    if i < end {
      AheadFrom(v, s, i + 1, end);
    }
  }

  /** An unread unit with nothing read after it in its message is followed by unread units up to the message end. */
  lemma {:induction false} AheadHolds(v: map<int, Cell>, h: int -> Header, isn: int, start: int, lastAck: int, maxPos: int, i: int)
    requires MsgOk(v, h, isn, start, lastAck, maxPos) && start <= i && (i < lastAck ==> v[i].flag == 1)
    ensures Ahead(v, i, lastAck)
    decreases lastAck - i
  {
    if i < lastAck && !h(i).last {
      AheadHolds(v, h, isn, start, lastAck, maxPos, i + 1);
    }
  }

  /** The skip loop discards nothing but units already read, and stops at an unread message if acknowledged data is
      left. */
  lemma SkipKeeps(v: map<int, Cell>, h: int -> Header, isn: int, start: int, lastAck: int, maxPos: int)
    requires MsgOk(v, h, isn, start, lastAck, maxPos)
    ensures
      var t := Skipped(v, start, lastAck);
      && (forall n | n in v && n < t :: v[n].flag == 2)
      && MsgOk(From(v, t), h, isn, t, lastAck, maxPos)
      && (t < lastAck ==> h(t).first && v[t].flag == 1)
  {
    SkipOnly(v, h, isn, start, lastAck, maxPos, start);
  }

  lemma {:induction false} SkipOnly(v: map<int, Cell>, h: int -> Header, isn: int, start: int, lastAck: int, maxPos: int, s: int)
    requires MsgOk(v, h, isn, start, lastAck, maxPos) && start <= s <= lastAck
    requires !h(s).first ==> s in v && v[s].flag == 2
    ensures
      var t := Skipped(v, s, lastAck);
      && (forall n | s <= n < t :: n in v && v[n].flag == 2)
      && (!h(t).first ==> t in v && v[t].flag == 2)
    decreases lastAck - s
  {
    if s < lastAck {
      if v[s].flag == 1 {
        AheadHolds(v, h, isn, start, lastAck, maxPos, s);
      } else {
        SkipOnly(v, h, isn, start, lastAck, maxPos, s + 1);
      }
    }
  }

  // ----- the search loop -----

  /** The search has an unread message start a, with no message end between it and unit c - 1. */
  ghost predicate Open(v: map<int, Cell>, h: int -> Header, a: int, c: int) {
    a < c && h(a).first && Unread(v, a, c - 1) && forall k | a <= k < c - 1 :: !h(k).last
  }

  /** What the search knows before unit c: the start p it remembers, if any, is open, and else no unread message runs up
      to c. */
  ghost predicate Scanned(v: map<int, Cell>, h: int -> Header, start: int, c: int, has: bool, a: int) {
    if has then start <= a && Open(v, h, a, c)
    else forall b | start <= b < c :: !(Open(v, h, b, c) && !h(c - 1).last)
  }

  ghost predicate Ends(v: map<int, Cell>, h: int -> Header, a: int, c: int) {
    Whole(h, a, c) && Unread(v, a, c)
  }

  lemma ScanHole(v: map<int, Cell>, h: int -> Header, start: int, c: int)
    requires start <= c && !(c in v && v[c].flag == 1)
    ensures Scanned(v, h, start, c + 1, false, 0)
    ensures forall a :: !Ends(v, h, a, c)
  {
    NotRead(v, c);
    var d := c + 1;
    forall b | start <= b < d ensures !Open(v, h, b, d) {
      assert !Unread(v, b, d - 1);
    }
  }

  lemma NotRead(v: map<int, Cell>, c: int)
    requires !(c in v && v[c].flag == 1)
    ensures forall a {:trigger Unread(v, a, c)} | a <= c :: !Unread(v, a, c)
  {
  }

  /** An unread unit: whether a message ends with it, and what the search remembers after it. */
  lemma ScanUnit(v: map<int, Cell>, h: int -> Header, isn: int, start: int, c: int, has: bool, a: int)
    requires Framed(h, isn) && isn <= start <= c && Scanned(v, h, start, c, has, a) && c in v && v[c].flag == 1
    ensures has ==> start <= a
    ensures h(c).first ==> Scanned(v, h, start, c + 1, true, c)
    ensures h(c).first && h(c).last ==> Ends(v, h, c, c)
    ensures !h(c).first ==> Scanned(v, h, start, c + 1, has, a)
    ensures !h(c).first && h(c).last && has ==> Ends(v, h, a, c)
    ensures !h(c).last || (!h(c).first && !has) ==> forall b | start <= b :: !Ends(v, h, b, c)
  {
    if !h(c).first && c > start {
      assert !h(c - 1).last by {
        assert h(c - 1 + 1).first <==> h(c - 1).last;
      }
    }
    if !h(c).first && !has {
      var d := c + 1;
      forall b | start <= b < d ensures !Open(v, h, b, d) {
        if b < c {
          OpenBefore(v, h, b, c);
        }
      }
      forall b | start <= b ensures !Ends(v, h, b, c) {
        if b < c {
          EndsOpen(v, h, b, c);
        }
      }
    }
  }

  lemma OpenBefore(v: map<int, Cell>, h: int -> Header, b: int, c: int)
    requires b < c
    ensures Open(v, h, b, c + 1) ==> Open(v, h, b, c) && !h(c - 1).last
  {
  }

  lemma EndsOpen(v: map<int, Cell>, h: int -> Header, b: int, c: int)
    requires b < c
    ensures Ends(v, h, b, c) ==> Open(v, h, b, c) && !h(c - 1).last
  {
  }

  lemma NothingScanned(v: map<int, Cell>, h: int -> Header, lastAck: int, start: int)
    ensures Scanned(v, h, start, start, false, 0)
    ensures forall d, c | start <= d && c < start :: !Deliverable(v, h, lastAck, d, c)
  {
  }

  lemma NoneBeyond(v: map<int, Cell>, h: int -> Header, isn: int, start: int, lastAck: int, maxPos: int)
    requires MsgOk(v, h, isn, start, lastAck, maxPos)
    ensures forall d, c | Deliverable(v, h, lastAck, d, c) :: c <= lastAck + maxPos
  {
  }

  lemma HeaderAt(v: map<int, Cell>, h: int -> Header, isn: int, start: int, lastAck: int, maxPos: int, c: int)
    requires MsgOk(v, h, isn, start, lastAck, maxPos)
    ensures Framed(h, isn) && isn <= start && (c in v ==> v[c].header == h(c))
  {
  }

  lemma EndsDeliver(v: map<int, Cell>, h: int -> Header, start: int, lastAck: int, c: int)
    ensures forall d :: Deliverable(v, h, lastAck, d, c) <==> Ends(v, h, d, c) && (c < lastAck || !h(c).inOrder)
    ensures forall d | Ends(v, h, d, c) :: c in v
  {
  }

  /** In the acknowledged part the first message to end is the one at the read position. */
  lemma {:induction false} FirstAtStart(v: map<int, Cell>, h: int -> Header, isn: int, start: int, lastAck: int, maxPos: int, a: int, b: int, e: int)
    requires MsgOk(v, h, isn, start, lastAck, maxPos) && start <= a && Ends(v, h, a, b) && b < lastAck
    requires h(start).first && v[start].flag == 1 && start <= e <= b
    requires Unread(v, start, e) && forall k | start <= k < e :: !h(k).last
    requires forall d, c | start <= d && c < b :: !Deliverable(v, h, lastAck, d, c)
    ensures a == start
    decreases b - e
  {
    assert a > isn ==> (h(a - 1 + 1).first <==> h(a - 1).last);
    if h(e).last {
      assert Whole(h, start, e);
      if e < b {
        assert Deliverable(v, h, lastAck, start, e);
      }
    } else if e < b {
      FirstAtStart(v, h, isn, start, lastAck, maxPos, a, b, e + 1);
    }
  }

  // ----- what the operations leave behind -----

  function Marked(v: map<int, Cell>, a: int, b: int): map<int, Cell> {
    map n | n in v :: if a <= n <= b then v[n].(flag := 2) else v[n]
  }

  /** Skipping units already read loses no message that may be delivered. */
  lemma SkipDelivers(v: map<int, Cell>, h: int -> Header, isn: int, start: int, lastAck: int, maxPos: int)
    requires MsgOk(v, h, isn, start, lastAck, maxPos)
    ensures
      var t := Skipped(v, start, lastAck);
      && (forall a, b | start <= a && Deliverable(v, h, lastAck, a, b) :: t <= a)
      && (forall a, b | t <= a :: Deliverable(From(v, t), h, lastAck, a, b) <==> Deliverable(v, h, lastAck, a, b))
  {
    SkipKeeps(v, h, isn, start, lastAck, maxPos);
    var t := Skipped(v, start, lastAck);
    forall a, b | start <= a && Deliverable(v, h, lastAck, a, b) ensures t <= a {
      assert Unread(v, a, b) && a <= b ==> a in v && v[a].flag == 1;
    }
    forall a, b | t <= a ensures Unread(From(v, t), a, b) <==> Unread(v, a, b) {
      assert forall k | a <= k <= b :: (k in From(v, t) <==> k in v) && (k in v ==> From(v, t)[k] == v[k]);
    }
  }

  lemma FromIs(v: map<int, Cell>, s: int)
    ensures forall n :: n in From(v, s) <==> n in v && n >= s
    ensures forall n | n in From(v, s) :: From(v, s)[n] == v[n]
  {
  }

  lemma MarkedNone(v: map<int, Cell>, a: int)
    ensures Marked(v, a, a - 1) == v
  {
  }

  /** What is left after skipping to t and reading message a..b: nothing unread is gone but the message. */
  lemma ReadLeaves(v: map<int, Cell>, t: int, lastAck: int, found: bool, a: int, b: int)
    requires (forall n | n in v && n < t :: v[n].flag == 2)
    requires found ==> t <= a <= b && (b < lastAck ==> a == t)
    ensures
      var v1 := From(v, t);
      var v' := if !found then v1 else if b < lastAck then From(v1, b + 1) else Marked(v1, a, b);
      && v' == (if !found then From(v, t) else if b < lastAck then From(v, b + 1) else Marked(From(v, t), a, b))
      && forall n | n in v && n !in v' :: v[n].flag == 2 || (found && a <= n <= b)
  {
  }

  /** What the search found after the skip loop is what may be delivered first of all there was. */
  lemma SkipThenRead(v: map<int, Cell>, h: int -> Header, isn: int, start: int, lastAck: int, maxPos: int,
                     slots: map<int, Bytes>, slots1: map<int, Bytes>, found: bool, a: int, b: int)
    requires MsgOk(v, h, isn, start, lastAck, maxPos)
    requires
      var t := Skipped(v, start, lastAck);
      var v1 := From(v, t);
      && slots1.Keys == v1.Keys && (forall n | n in slots1 :: n in slots && slots1[n] == slots[n])
      && (found ==>
            && t <= a && Deliverable(v1, h, lastAck, a, b) && (b < lastAck ==> a == t)
            && forall d, c | t <= d && c < b :: !Deliverable(v1, h, lastAck, d, c))
      && (!found ==> forall d, c | t <= d :: !Deliverable(v1, h, lastAck, d, c))
    ensures found ==>
      && start <= a <= b && Deliverable(v, h, lastAck, a, b) && Text(slots1, a, b) == Text(slots, a, b)
      && forall d, c | start <= d && c < b :: !Deliverable(v, h, lastAck, d, c)
    ensures !found ==> forall d, c | start <= d :: !Deliverable(v, h, lastAck, d, c)
    ensures
      var t := Skipped(v, start, lastAck);
      var v' := if !found then From(v, t) else if b < lastAck then From(From(v, t), b + 1) else Marked(From(v, t), a, b);
      && v' == (if !found then From(v, t) else if b < lastAck then From(v, b + 1) else Marked(From(v, t), a, b))
      && forall n | n in v && n !in v' :: v[n].flag == 2 || (found && a <= n <= b)
  {
    hide Deliverable, MsgOk, Skipped, Text, From, Marked;
    var t := Skipped(v, start, lastAck);
    SkipKeeps(v, h, isn, start, lastAck, maxPos);
    SkipDelivers(v, h, isn, start, lastAck, maxPos);
    if found {
      WholeIn(From(v, t), h, lastAck, a, b);
      assert forall k | a <= k <= b :: k in slots1.Keys;
      TextSame(slots, slots1, a, b);
    }
    ReadLeaves(v, t, lastAck, found, a, b);
  }

  /** A message read in order goes with everything before it. */
  lemma ReadInOrder(v: map<int, Cell>, h: int -> Header, isn: int, start: int, lastAck: int, maxPos: int, b: int)
    requires MsgOk(v, h, isn, start, lastAck, maxPos) && Whole(h, start, b) && Unread(v, start, b) && b < lastAck
    ensures MsgOk(From(v, b + 1), h, isn, b + 1, lastAck, maxPos)
  {
  }

  /** A message read early stays, marked. */
  lemma ReadEarly(v: map<int, Cell>, h: int -> Header, isn: int, start: int, lastAck: int, maxPos: int, a: int, b: int)
    requires MsgOk(v, h, isn, start, lastAck, maxPos) && Whole(h, a, b) && Unread(v, a, b)
    ensures MsgOk(Marked(v, a, b), h, isn, start, lastAck, maxPos)
  {
    assert a in v && b in v;
    assert h(b + 1).first;
  }

  lemma Arrives(v: map<int, Cell>, h: int -> Header, isn: int, start: int, lastAck: int, maxPos: int, n: int)
    requires MsgOk(v, h, isn, start, lastAck, maxPos) && n !in v && lastAck <= n
    ensures MsgOk(v[n := Cell(1, h(n))], h, isn, start, lastAck, if n - lastAck > maxPos then n - lastAck else maxPos)
  {
  }

  /** A number stored already lies within maxPos. */
  lemma Repeated(v: map<int, Cell>, h: int -> Header, isn: int, start: int, lastAck: int, maxPos: int, n: int)
    requires MsgOk(v, h, isn, start, lastAck, maxPos)
    ensures n in v ==> n - lastAck <= maxPos
  {
  }

  lemma Acknowledges(v: map<int, Cell>, h: int -> Header, isn: int, start: int, lastAck: int, maxPos: int, len: int)
    requires MsgOk(v, h, isn, start, lastAck, maxPos) && 0 <= len
    requires forall n | lastAck <= n < lastAck + len :: n in v
    ensures MsgOk(v, h, isn, start, lastAck + len, if maxPos < len then 0 else maxPos - len)
  {
  }

  // ----- a buffer that looks empty -----

  /** A complete message of one unit sits at the read position and may be read before it is acknowledged. */
  ghost predicate Unseen(v: map<int, Cell>, h: int -> Header, start: int) {
    start in v && v[start].flag == 1 && h(start).first && h(start).last && !h(start).inOrder
  }

  /** With no acknowledged data and nothing noted past its start, the buffer counts as empty; a message may be delivered
      all the same exactly if one of a single unit sits right at the read position. */
  lemma LooksEmpty(v: map<int, Cell>, h: int -> Header, isn: int, start: int)
    requires MsgOk(v, h, isn, start, start, 0)
    ensures (exists a, b :: start <= a && Deliverable(v, h, start, a, b)) <==> Unseen(v, h, start)
  {
    if a, b :| start <= a && Deliverable(v, h, start, a, b) {
      assert a in v && b in v;
    }
    if Unseen(v, h, start) {
      assert Deliverable(v, h, start, start, start);
    }
  }

  lemma AckPosition(v: map<int, Cell>, h: int -> Header, isn: int, start: int, lastAck: int, maxPos: int)
    requires MsgOk(v, h, isn, start, lastAck, maxPos)
    ensures isn <= start <= lastAck
  {
  }

  /** One acknowledged message of one unit is all there is to deliver. */
  lemma OneMessage(v: map<int, Cell>, h: int -> Header, slots: map<int, Bytes>)
    requires v == map[0 := Cell(1, h(0))] && h(0).first && h(0).last && 0 in slots
    ensures Deliverable(v, h, 1, 0, 0) && From(v, 0) == v
    ensures forall a, b | Deliverable(v, h, 1, a, b) :: a == 0 && b == 0
    ensures Cutoff(Text(slots, 0, 0), |slots[0]|) == slots[0]
  {
    forall a, b | Deliverable(v, h, 1, a, b) ensures a == 0 && b == 0 {
      assert a in v && b in v;
    }
    assert Text(slots, 0, 0) == Text(slots, 0, -1) + slots[0] == slots[0];
  }

  // ----- the sender's headers are framed -----

  ghost predicate FramedSeq(hs: seq<Header>) {
    && (hs != [] ==> hs[0].first && hs[|hs| - 1].last)
    && (forall i, j | 0 <= i < j < |hs| && j == i + 1 ::
          (hs[j].first <==> hs[i].last) && (!hs[i].last ==> hs[j].inOrder == hs[i].inOrder))
  }

  lemma NothingStored()
    ensures MsgOk(map[], Numbered([], 0), 0, 0, 0, 0)
  {
    NumberedFramed([], 0);
  }

  lemma NothingFramed()
    ensures FramedSeq([])
  {
  }

  /** Each addBuffer appends the headers of one message. */
  lemma FramesFramed(hs: seq<Header>, n: nat, msgNo: int, inOrder: bool)
    requires FramedSeq(hs)
    ensures FramedSeq(hs + Frames(n, msgNo, inOrder))
  {
    var fs := Frames(n, msgNo, inOrder);
    var all := hs + fs;
    forall i, j | 0 <= i < j < |all| && j == i + 1
      ensures (all[j].first <==> all[i].last) && (!all[i].last ==> all[j].inOrder == all[i].inOrder)
    {
      if i >= |hs| {
        assert all[i] == fs[i - |hs|] && all[j] == fs[j - |hs|];
      } else if j == |hs| {
        assert all[j] == fs[0];
      }
    }
  }

  /** The headers by number, with one-unit messages after those of hs. */
  function Numbered(hs: seq<Header>, isn: int): int -> Header {
    n => if isn <= n < isn + |hs| then hs[n - isn] else Header(0, false, true, true)
  }

  /** The sender's stream of headers is framed, whatever it goes on with. */
  lemma NumberedFramed(hs: seq<Header>, isn: int)
    requires FramedSeq(hs)
    ensures Framed(Numbered(hs, isn), isn)
  {
    var h := Numbered(hs, isn);
    forall n | isn <= n
      ensures (h(n + 1).first <==> h(n).last) && (!h(n).last ==> h(n + 1).inOrder == h(n).inOrder)
    {
      if n + 1 < isn + |hs| {
        assert h(n) == hs[n - isn] && h(n + 1) == hs[n - isn + 1];
      }
    }
  }
}
