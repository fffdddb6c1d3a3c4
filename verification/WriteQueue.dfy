/** The write queue of a UDT stream (udtstream.c): requests wait in order, the head is handed to the transport piece
    by piece, and finished requests wait in a second queue for their callbacks. */
module WriteQueueModule {
  import opened Bytes
  import opened Collections
  import opened Queue

  const REJECTED: int := -1
  const UV_EAGAIN: int := -11
  const UV_ENOMEM: int := -12
  const UV_ENOBUFS: int := -105
  const BUFSML: int := 4

  /** A write request. bufs[writeIndex..] is what the transport has not taken yet. */
  datatype Req = Req(bufs: seq<Bytes>, released: bool, writeIndex: int, error: int)

  const IDLE: Req := Req([], true, 0, 0)

  /** What became of a request: all of its bytes, those the transport took, and whether it was reported as sent. */
  datatype Entry = Entry(whole: Bytes, sent: Bytes, ok: bool)

  /** The bytes the transport took, request by request. */
  function Taken(es: seq<Entry>): (b: Bytes) {
    if es == [] then [] else Taken(es[..|es| - 1]) + es[|es| - 1].sent
  }

  /** udt__buf_count. */
  method BufCount(bufs: seq<Bytes>) returns (total: int)
    ensures total == |Flatten(bufs)|
  {
    hide Flatten;
    total := 0;
    var i := 0;
    CountNone(bufs);
    while i < |bufs|
      invariant 0 <= i <= |bufs| && total == |Flatten(bufs[..i])|
    {
      FlattenNext(bufs, i);
      total := total + |bufs[i]|;
      i := i + 1;
    }
    assert bufs[..i] == bufs;
  }

  lemma CountNone(bufs: seq<Bytes>)
    ensures Flatten(bufs[..0]) == []
  {
  }

  /** What the transport takes of bufs when it answers rc(k), rc(k + 1), ... to the pieces it is offered: that much of
      each, and nothing more after the first answer that is not positive. */
  function Took(bufs: seq<Bytes>, rc: nat -> int, k: nat): (b: Bytes)
    decreases |bufs|, if bufs == [] then 0 else |bufs[0]|
  {
    if bufs == [] then []
    else if bufs[0] == [] then Took(bufs[1..], rc, k)
    else if rc(k) <= 0 then []
    else if rc(k) >= |bufs[0]| then bufs[0] + Took(bufs[1..], rc, k + 1)
    else bufs[0][..rc(k)] + Took([bufs[0][rc(k)..]] + bufs[1..], rc, k + 1)
  }

  /** It is a prefix of the bytes offered, empty exactly if there are none or the first answer is not positive. */
  lemma {:induction false} TookPrefix(bufs: seq<Bytes>, rc: nat -> int, k: nat)
    ensures Took(bufs, rc, k) <= Flatten(bufs)
    ensures Took(bufs, rc, k) == [] <==> Flatten(bufs) == [] || rc(k) <= 0
    decreases |bufs|, if bufs == [] then 0 else |bufs[0]|
  {
    if bufs != [] {
      var b, rest := bufs[0], bufs[1..];
      if b == [] {
        TookPrefix(rest, rc, k);
      } else if rc(k) >= |b| {
        TookPrefix(rest, rc, k + 1);
      } else if rc(k) > 0 {
        var left := [b[rc(k)..]] + rest;
        TookPrefix(left, rc, k + 1);
        assert left[1..] == rest;
        assert b == b[..rc(k)] + b[rc(k)..];
        assert Flatten(bufs) == b[..rc(k)] + Flatten(left);
      }
    }
  }

  /** All of it, if every answer is positive. */
  lemma {:induction false} TookAll(bufs: seq<Bytes>, rc: nat -> int, k: nat)
    requires forall j | j >= k :: rc(j) > 0
    ensures Took(bufs, rc, k) == Flatten(bufs)
    decreases |bufs|, if bufs == [] then 0 else |bufs[0]|
  {
    if bufs != [] {
      var b, rest := bufs[0], bufs[1..];
      if b == [] {
        TookAll(rest, rc, k);
      } else if rc(k) >= |b| {
        TookAll(rest, rc, k + 1);
      } else {
        var left := [b[rc(k)..]] + rest;
        TookAll(left, rc, k + 1);
        assert left[1..] == rest;
        assert b == b[..rc(k)] + b[rc(k)..];
        assert Flatten(bufs) == b[..rc(k)] + Flatten(left);
      }
    }
  }

  /** One more answer r for buffer b, of which less than r0 is left out so far. */
  lemma TookStep(b: Bytes, rest: seq<Bytes>, rc: nat -> int, k: nat, ilen: int)
    requires 0 <= ilen < |b|
    ensures
      var r := if rc(k) > |b| - ilen then |b| - ilen else rc(k);
      Took([b[ilen..]] + rest, rc, k) ==
        if r <= 0 then [] else b[ilen..ilen + r] + Took([b[ilen + r..]] + rest, rc, k + 1)
  {
    var r := if rc(k) > |b| - ilen then |b| - ilen else rc(k);
    var bufs := [b[ilen..]] + rest;
    assert bufs[1..] == rest;
    if r > 0 {
      assert b[ilen..][..r] == b[ilen..ilen + r] && b[ilen..][r..] == b[ilen + r..];
      if r == |b| - ilen {
        assert b[ilen + r..] == [];
        assert ([b[ilen + r..]] + rest)[1..] == rest;
      }
    }
  }

  /** From one buffer to the next. */
  lemma TookNext(iov: seq<Bytes>, it: int, rc: nat -> int, k: nat)
    requires 0 <= it < |iov|
    ensures Took([iov[it][0..]] + iov[it + 1..], rc, k) == Took(iov[it..], rc, k)
    ensures Took([iov[it][|iov[it]|..]] + iov[it + 1..], rc, k) == Took(iov[it + 1..], rc, k)
  {
    assert [iov[it][0..]] + iov[it + 1..] == iov[it..];
    assert ([iov[it][|iov[it]|..]] + iov[it + 1..])[1..] == iov[it + 1..];
  }

  /** Hands the buffers from index on to the transport, whose k-th answer is rc(k). out collects what it took; n is its
      length, or -1 for nothing. */
  method SendBufs(bufs: seq<Bytes>, index: int, rc: nat -> int) returns (n: int, ghost out: Bytes)
    requires 0 <= index <= |bufs|
    ensures out == Took(bufs[index..], rc, 0) && out <= Flatten(bufs[index..])
    ensures n == if out == [] then -1 else |out|
  {
    hide Flatten, Took;
    n := -1;
    out := [];
    var iov := bufs[index..];
    TookPrefix(iov, rc, 0);
    var next := true;
    var it := 0;
    var calls: nat := 0;
    assert iov[0..] == iov;
    while it < |iov| && next
      invariant 0 <= it <= |iov|
      invariant Took(iov, rc, 0) == if next then out + Took(iov[it..], rc, calls) else out
      invariant n == if out == [] then -1 else |out|
      decreases |iov| - it, next
    {
      var ilen := 0;
      TookNext(iov, it, rc, calls);
      while ilen < |iov[it]| && next
        invariant 0 <= ilen <= |iov[it]|
        invariant Took(iov, rc, 0) == if next then out + Took([iov[it][ilen..]] + iov[it + 1..], rc, calls) else out
        invariant n == if out == [] then -1 else |out|
        decreases |iov[it]| - ilen, next
      {
        var r := rc(calls);
        TookStep(iov[it], iov[it + 1..], rc, calls, ilen);
        calls := calls + 1;
        if r > |iov[it]| - ilen {
          r := |iov[it]| - ilen;
        }
        if r <= 0 {
          next := false;
          assert out + [] == out;
        } else {
          if n == -1 {
            n := 0;
          }
          n := n + r;
          out := out + iov[it][ilen..ilen + r];
          ilen := ilen + r;
        }
      }
      TookNext(iov, it, rc, calls);
      it := it + 1;
    }
    assert it == |iov| ==> out + Took(iov[it..], rc, calls) == out by {
      TookNone(iov[|iov|..], rc, calls);
    }
  }

  lemma TookNone(bufs: seq<Bytes>, rc: nat -> int, k: nat)
    requires bufs == []
    ensures Took(bufs, rc, k) == []
  {
  }

  lemma TakenAppend(es: seq<Entry>, e: Entry)
    ensures Taken(es + [e]) == Taken(es) + e.sent
  {
    assert (es + [e])[..|es|] == es;
  }

  /** Request r still waits with the bytes u of its entry. */
  ghost predicate Waiting(r: Req, u: Bytes, e: Entry) {
    && !r.released && r.error == 0 && 0 <= r.writeIndex <= |r.bufs|
    && Flatten(r.bufs[r.writeIndex..]) == u && e.whole == e.sent + u && !e.ok
  }

  /** The waiting requests and their entries. Only the first one may have been sent in part. */
  ghost predicate AllWaiting(rs: seq<Req>, us: seq<Bytes>, es: seq<Entry>) {
    && |rs| == |us| == |es|
    && (forall i | 0 <= i < |rs| :: Waiting(rs[i], us[i], es[i]))
    && (forall i | 0 < i < |es| :: es[i].sent == [])
  }

  /** The transport took a prefix of each request, and all of those reported as sent. */
  ghost predicate AllLeft(es: seq<Entry>) {
    forall i | 0 <= i < |es| :: es[i].sent <= es[i].whole && (es[i].ok ==> es[i].sent == es[i].whole)
  }

  /** The buffers of r that the transport has not taken. */
  function Rest(r: Req): seq<Bytes> {
    if 0 <= r.writeIndex <= |r.bufs| then r.bufs[r.writeIndex..] else []
  }

  /** When the head of the queue, u of its bytes unsent, leaves it after the transport took out: completely sent, or
      refused for good without a byte taken. */
  predicate Leaves(u: Bytes, out: Bytes, again: bool) {
    if out == [] then !again else out == u
  }

  class Stream {
    const writeQueue: Link<Req>
    const completedQueue: Link<Req>
    var writeQueueSize: int
    var connecting: bool
    // flags: whether the stream takes writes, and whether it is being closed
    var writable: bool
    var closing: bool

    // every request accepted and not withdrawn, and those called back, in order
    ghost var issued: seq<Link<Req>>
    ghost var called: seq<Link<Req>>
    // the queued requests, and their bytes not sent yet
    ghost var reqs: seq<Req>
    ghost var unsent: seq<Bytes>
    // what the transport took: of the requests that left the queue, and of the queued ones, in order
    ghost var past: seq<Entry>
    ghost var pending: seq<Entry>
    ghost var wire: Bytes

    /** Every request accepted is called back, completed or queued, in that order. */
    ghost predicate Lists()
      reads this, writeQueue, writeQueue.ring, completedQueue, completedQueue.ring
    {
      && Holds(writeQueue) && Holds(completedQueue)
      && issued == called + completedQueue.ring[1..] + writeQueue.ring[1..]
      && Distinct([writeQueue, completedQueue] + issued)
    }

    ghost predicate Contents()
      reads this, writeQueue, writeQueue.ring
    {
      && |writeQueue.ring| == |reqs| + 1
      && forall i | 0 <= i < |reqs| :: writeQueue.ring[i + 1].data == reqs[i]
    }

    ghost predicate Accounts()
      reads this
    {
      && AllWaiting(reqs, unsent, pending) && AllLeft(past)
      && writeQueueSize == |Flatten(unsent)|
      && wire == Taken(past + pending)
    }

    ghost predicate Valid()
      reads this, writeQueue, writeQueue.ring, completedQueue, completedQueue.ring
    {
      Lists() && Contents() && Accounts()
    }

    constructor ()
      ensures Valid() && issued == [] && reqs == [] && wire == [] && writeQueueSize == 0 && !closing
      ensures fresh(writeQueue) && fresh(completedQueue) && writeQueue.ring == [writeQueue]
      ensures completedQueue.ring == [completedQueue]
    {
      writeQueue := new Link(IDLE);
      completedQueue := new Link(IDLE);
      writeQueueSize := 0;
      connecting := true;
      writable := false;
      closing := false;
      issued, called, reqs, unsent, past, pending, wire := [], [], [], [], [], [], [];
    }

    /** No link is in both queues. */
    lemma Apart(w: seq<Link<Req>>, c: seq<Link<Req>>)
      requires |writeQueue.ring| > 0 && writeQueue.ring[0] == writeQueue
      requires |completedQueue.ring| > 0 && completedQueue.ring[0] == completedQueue
      requires issued == called + completedQueue.ring[1..] + writeQueue.ring[1..]
      requires Distinct([writeQueue, completedQueue] + issued)
      requires w == writeQueue.ring && c == completedQueue.ring
      ensures writeQueue != completedQueue
      ensures forall x | x in w :: x !in c
      ensures forall i | 0 <= i < |c| :: c[i] !in w
      ensures forall i | 0 <= i < |w| :: w[i] !in c
      ensures forall x | x !in issued && x != writeQueue && x != completedQueue :: x !in w && x !in c
    {
      var all := [writeQueue, completedQueue] + issued;
      var k := 2 + |called|;
      assert forall i | 0 < i < |c| :: all[k + i - 1] == c[i];
      assert forall i | 0 < i < |w| :: all[k + |c| - 1 + i - 1] == w[i];
      assert all[0] == w[0] && all[1] == c[0];
    }

    /** q joins the end of the write queue. */
    method Enqueue(q: Link<Req>)
      requires Lists() && q !in issued && q != writeQueue && q != completedQueue
      modifies this`issued, q`next, q`prev, writeQueue.ring`next, writeQueue.ring`prev, writeQueue`ring
      ensures Lists() && writeQueue.ring == old(writeQueue.ring) + [q] && issued == old(issued) + [q]
      ensures completedQueue.ring == old(completedQueue.ring)
    {
      hide Distinct, Chained, BackChained;
      Apart(writeQueue.ring, completedQueue.ring);
      DistinctSnoc([writeQueue, completedQueue] + issued, q);
      InsertTail(writeQueue, q);
      issued := issued + [q];
      assert [writeQueue, completedQueue] + issued == [writeQueue, completedQueue] + old(issued) + [q];
      assert completedQueue.ring == old(completedQueue.ring);
    }

    /** The head of the write queue moves to the end of the completed queue. */
    method Complete(q: Link<Req>)
      requires Lists() && |writeQueue.ring| > 1 && q == writeQueue.ring[1]
      modifies writeQueue.ring`next, writeQueue.ring`prev, writeQueue`ring
      modifies completedQueue.ring`next, completedQueue.ring`prev, completedQueue`ring
      ensures Lists() && writeQueue.ring == Without(old(writeQueue.ring), 1)
      ensures completedQueue.ring == old(completedQueue.ring) + [q]
    {
      hide Distinct, Chained, BackChained;
      Apart(writeQueue.ring, completedQueue.ring);
      assert q in writeQueue.ring;
      WithoutGone(writeQueue.ring, 1);
      Remove(q, writeQueue, 1);
      InsertTail(completedQueue, q);
      assert old(writeQueue.ring)[1..] == [q] + writeQueue.ring[1..];
      assert completedQueue.ring[1..] == old(completedQueue.ring)[1..] + [q];
    }

    /** The request now in q, with these buffers, is the last of the queue. */
    ghost method BookNew(q: Link<Req>, bufs: seq<Bytes>)
      requires Lists() && AllWaiting(reqs, unsent, pending) && AllLeft(past) && wire == Taken(past + pending)
      requires writeQueueSize == |Flatten(unsent)| + |Flatten(bufs)|
      requires |writeQueue.ring| == |reqs| + 2 && writeQueue.ring[|reqs| + 1] == q && q.data == Req(bufs, false, 0, 0)
      requires forall i | 0 <= i < |reqs| :: writeQueue.ring[i + 1].data == reqs[i]
      modifies this`reqs, this`unsent, this`pending
      ensures Valid()
      ensures unsent == old(unsent) + [Flatten(bufs)]
      ensures pending == old(pending) + [Entry(Flatten(bufs), [], false)] && reqs == old(reqs) + [q.data]
    {
      hide Distinct, Chained, BackChained, Flatten, Taken, AllLeft, AllWaiting;
      NewBooks(reqs, unsent, pending, past, bufs);
      reqs := reqs + [q.data];
      unsent := unsent + [Flatten(bufs)];
      pending := pending + [Entry(Flatten(bufs), [], false)];
    }

    /** The transport took n bytes of the request in q: drops them from its buffers. */
    method Advance(q: Link<Req>, n0: int) returns (done: bool)
      requires 0 <= n0 && 0 <= q.data.writeIndex < |q.data.bufs|
      requires n0 <= |Flatten(q.data.bufs[q.data.writeIndex..])|
      modifies this`writeQueueSize, q`data
      ensures writeQueueSize == old(writeQueueSize) - n0
      ensures q.data.released == old(q.data.released) && q.data.error == old(q.data.error)
      ensures 0 <= q.data.writeIndex <= |q.data.bufs|
      ensures Flatten(q.data.bufs[q.data.writeIndex..]) == old(Flatten(q.data.bufs[q.data.writeIndex..]))[n0..]
      ensures done <==> n0 == |old(Flatten(q.data.bufs[q.data.writeIndex..]))|
    {
      hide Flatten;
      var n := n0;
      ghost var u := Flatten(q.data.bufs[q.data.writeIndex..]);
      while true
        invariant 0 <= n <= n0 && 0 <= q.data.writeIndex < |q.data.bufs|
        invariant writeQueueSize == old(writeQueueSize) - (n0 - n)
        invariant Flatten(q.data.bufs[q.data.writeIndex..]) == u[n0 - n..]
        invariant q.data.released == old(q.data.released) && q.data.error == old(q.data.error)
        decreases |q.data.bufs| - q.data.writeIndex
      {
        var r := q.data;
        var buf := r.bufs[r.writeIndex];
        BufFacts(r.bufs, r.writeIndex, n);
        if n < |buf| {
          q.data := r.(bufs := r.bufs[r.writeIndex := buf[n..]]);
          writeQueueSize := writeQueueSize - n;
          return false;
        }
        q.data := r.(writeIndex := r.writeIndex + 1);
        n := n - |buf|;
        writeQueueSize := writeQueueSize - |buf|;
        if q.data.writeIndex == |q.data.bufs| {
          return true;
        }
      }
    }

    /** The head of the queue, in q, is done with: it moves to the completed queue. Its unsent bytes no longer count. */
    method Finish(q: Link<Req>, error: int)
      requires Lists() && Contents() && |reqs| > 0 && q == writeQueue.ring[1]
      requires AllWaiting(reqs, unsent, pending) && AllLeft(past) && wire == Taken(past + pending)
      requires writeQueueSize == |Flatten(unsent)| - |Flatten([unsent[0]])| && (error == 0 ==> unsent[0] == [])
      modifies this`reqs, this`unsent, this`past, this`pending, q`data
      modifies writeQueue.ring`next, writeQueue.ring`prev, writeQueue`ring
      modifies completedQueue.ring`next, completedQueue.ring`prev, completedQueue`ring
      ensures Valid() && completedQueue.ring == old(completedQueue.ring) + [q] && q.data.released && q.data.error == error
      ensures reqs == old(reqs)[1..] && unsent == old(unsent)[1..] && pending == old(pending)[1..]
      ensures past == old(past) + [old(pending)[0].(ok := error == 0)] && writeQueue.ring == Without(old(writeQueue.ring), 1)
    {
      hide Distinct, Chained, BackChained, Flatten, Taken;
      LeaveBooks(reqs, unsent, pending, past, error == 0);
      MarkDone(q, error);
      ghost var ring := writeQueue.ring;
      Complete(q);
      past := past + [pending[0].(ok := error == 0)];
      reqs, unsent, pending := reqs[1..], unsent[1..], pending[1..];
    }

    method MarkDone(q: Link<Req>, error: int)
      requires Lists() && Contents() && |reqs| > 0 && q == writeQueue.ring[1]
      modifies q`data
      ensures Lists() && q.data.released && q.data.error == error
      ensures forall i | 1 <= i < |reqs| :: writeQueue.ring[i + 1].data == reqs[i]
    {
      q.data := Req([], true, q.data.writeIndex, error);
    }

    /** The head of the queue, if there is one, has no bytes left. */
    ghost predicate NothingToSend()
      reads this
    {
      unsent == [] || unsent[0] == []
    }

    /** The transport is ready (udt__write): hands it the head of the queue. rc: how many bytes it takes of each piece it
        is offered; again: the last error on record is only that it was full; code: the error otherwise. A request
        with nothing to send never reaches the transport and takes its fate from whatever error is on record, 0 if there
        was none. */
    method FlushHead(rc: nat -> int, again: bool, code: int) returns (ghost out: Bytes)
      requires Valid() && (code == 0 ==> NothingToSend())
      modifies this`writeQueueSize, this`reqs, this`unsent, this`past, this`pending, this`wire
      modifies writeQueue.ring`data, writeQueue.ring`next, writeQueue.ring`prev, writeQueue`ring
      modifies completedQueue.ring`next, completedQueue.ring`prev, completedQueue`ring
      ensures Valid() && wire == old(wire) + out
      ensures |old(reqs)| == |old(unsent)| == |old(pending)|
      ensures old(unsent) == [] || closing ==>
        && out == [] && writeQueue.ring == old(writeQueue.ring) && completedQueue.ring == old(completedQueue.ring)
        && reqs == old(reqs) && unsent == old(unsent) && pending == old(pending) && past == old(past)
      ensures forall x | x in writeQueue.ring :: x in old(writeQueue.ring)
      ensures forall x | x in completedQueue.ring :: x in old(completedQueue.ring) || x in old(writeQueue.ring)
      ensures old(unsent) != [] && !closing ==>
        && out == Took(Rest(old(reqs)[0]), rc, 0) && out <= old(unsent)[0] && |old(writeQueue.ring)| > 1
        && var q := old(writeQueue.ring)[1];
        var e := Entry(old(pending)[0].whole, old(pending)[0].sent + out, false);
        if Leaves(old(unsent)[0], out, again) then
          && writeQueue.ring == Without(old(writeQueue.ring), 1) && reqs == old(reqs)[1..]
          && unsent == old(unsent)[1..] && pending == old(pending)[1..] && past == old(past) + [e.(ok := q.data.error == 0)]
          && completedQueue.ring == old(completedQueue.ring) + [q]
          && q.data.released && q.data.error == (if out == [] then code else 0)
        else
          && writeQueue.ring == old(writeQueue.ring) && |reqs| == |old(reqs)| && !q.data.released
          && unsent == old(unsent)[0 := old(unsent)[0][|out|..]] && pending == old(pending)[0 := e]
          && completedQueue.ring == old(completedQueue.ring) && past == old(past)
    {
      hide Distinct, Chained, BackChained, Flatten, Taken;
      out := [];
      Lengths(reqs, unsent, pending);
      if closing {
        assert wire + [] == wire;
        return;
      }
      var empty := Empty(writeQueue);
      if empty {
        assert wire + [] == wire;
        return;
      }
      var q := Head(writeQueue);
      HeadWaits(reqs, unsent, pending);
      var n;
      n, out := SendBufs(q.data.bufs, q.data.writeIndex, rc);
      if n < 0 {
        assert wire + [] == wire && pending[0].sent + [] == pending[0].sent;
        if !again {
          FailHead(q, code);
        }
      } else {
        TakeHead(q, n, out);
      }
    }

    /** The transport took nothing of the head of the queue, and the error on record is code. */
    method FailHead(q: Link<Req>, code: int)
      requires Valid() && |reqs| > 0 && q == writeQueue.ring[1] && (code == 0 ==> NothingToSend())
      modifies this`writeQueueSize, this`reqs, this`unsent, this`past, this`pending, q`data
      modifies writeQueue.ring`next, writeQueue.ring`prev, writeQueue`ring
      modifies completedQueue.ring`next, completedQueue.ring`prev, completedQueue`ring
      ensures Valid() && completedQueue.ring == old(completedQueue.ring) + [q] && q.data.released && q.data.error == code
      ensures reqs == old(reqs)[1..] && unsent == old(unsent)[1..] && pending == old(pending)[1..]
      ensures past == old(past) + [old(pending)[0].(ok := code == 0)] && writeQueue.ring == Without(old(writeQueue.ring), 1)
      ensures wire == old(wire)
    {
      hide Distinct, Chained, BackChained, Flatten, Taken;
      FlattenOne(unsent[0]);
      HeadWaits(reqs, unsent, pending);
      var size := BufCount(q.data.bufs[q.data.writeIndex..]);
      writeQueueSize := writeQueueSize - size;
      Finish(q, code);
    }

    method AdvanceData(q: Link<Req>, n: int) returns (done: bool)
      requires Lists() && Contents() && |reqs| > 0 && q == writeQueue.ring[1]
      requires 0 <= n && 0 <= q.data.writeIndex < |q.data.bufs|
      requires n <= |Flatten(q.data.bufs[q.data.writeIndex..])|
      modifies this`writeQueueSize, q`data
      ensures Lists() && forall i | 1 <= i < |reqs| :: writeQueue.ring[i + 1].data == reqs[i]
      ensures writeQueueSize == old(writeQueueSize) - n
      ensures q.data.released == old(q.data.released) && q.data.error == old(q.data.error)
      ensures 0 <= q.data.writeIndex <= |q.data.bufs|
      ensures Flatten(q.data.bufs[q.data.writeIndex..]) == old(Flatten(q.data.bufs[q.data.writeIndex..]))[n..]
      ensures done <==> n == |old(Flatten(q.data.bufs[q.data.writeIndex..]))|
    {
      hide Flatten;
      done := Advance(q, n);
    }

    /** Enters n bytes taken of the head of the queue in its request and in the books. */
    method AdvanceHead(q: Link<Req>, n: int, ghost out: Bytes) returns (done: bool)
      requires Valid() && |reqs| > 0 && q == writeQueue.ring[1] && 0 < n == |out| && out <= unsent[0]
      modifies this`writeQueueSize, this`reqs, this`unsent, this`pending, this`wire, q`data
      ensures Valid() && wire == old(wire) + out && writeQueueSize == old(writeQueueSize) - n
      ensures done <==> out == old(unsent)[0]
      ensures |reqs| == |old(reqs)| && reqs == old(reqs)[0 := q.data] && unsent == old(unsent)[0 := old(unsent)[0][n..]]
      ensures pending == old(pending)[0 := Entry(old(pending)[0].whole, old(pending)[0].sent + out, false)]
      ensures !q.data.released
    {
      hide Flatten, Taken, AllWaiting, AllLeft;
      HeadWaits(reqs, unsent, pending);
      done := AdvanceData(q, n);
      TakeBooks(reqs, unsent, pending, past, q.data, out);
      pending := pending[0 := Entry(pending[0].whole, pending[0].sent + out, false)];
      unsent := unsent[0 := unsent[0][n..]];
      reqs := reqs[0 := q.data];
      wire := wire + out;
    }

    /** The transport took n > 0 bytes of the head of the queue. */
    method TakeHead(q: Link<Req>, n: int, ghost out: Bytes)
      requires Valid() && |reqs| > 0 && q == writeQueue.ring[1] && 0 < n == |out| && out <= unsent[0]
      modifies this`writeQueueSize, this`reqs, this`unsent, this`past, this`pending, this`wire, q`data
      modifies writeQueue.ring`next, writeQueue.ring`prev, writeQueue`ring
      modifies completedQueue.ring`next, completedQueue.ring`prev, completedQueue`ring
      ensures Valid() && wire == old(wire) + out
      ensures writeQueueSize == old(writeQueueSize) - n
      ensures
        var e := Entry(old(pending)[0].whole, old(pending)[0].sent + out, false);
        if out == old(unsent)[0] then
          && completedQueue.ring == old(completedQueue.ring) + [q] && q.data.released && q.data.error == 0
          && past == old(past) + [e.(ok := true)] && pending == old(pending)[1..] && unsent == old(unsent)[1..]
          && reqs == old(reqs)[1..] && writeQueue.ring == Without(old(writeQueue.ring), 1)
        else
          && writeQueue.ring == old(writeQueue.ring) && completedQueue.ring == old(completedQueue.ring)
          && past == old(past) && pending == old(pending)[0 := e] && |reqs| == |old(reqs)| && !q.data.released
          && unsent == old(unsent)[0 := old(unsent)[0][n..]] && q.data == reqs[0]
    {
      hide Distinct, Chained, BackChained, Flatten, Taken;
      HeadWaits(reqs, unsent, pending);
      ghost var r0, u0 := q.data, unsent[0];
      var done := AdvanceHead(q, n, out);
      if done {
        FlattenOne(unsent[0]);
        Finish(q, 0);
      }
    }

    /** The newest request, of bytes whole, sits in q: still at the end of the write queue with what is left of it, or
        completed, having sent everything or failed. Nothing else waits to be sent. */
    ghost predicate Placed(q: Link<Req>, whole: Bytes, out: Bytes)
      reads this, q, writeQueue, completedQueue
    {
      && out <= whole && |reqs| == |unsent| == |pending| && |writeQueue.ring| == |reqs| + 1
      && (|| (&& |reqs| > 0 && writeQueue.ring[|reqs|] == q && !q.data.released
              && pending[|reqs| - 1] == Entry(whole, out, false) && unsent[|reqs| - 1] == whole[|out|..]
              && writeQueueSize == |whole| - |out|)
          || (&& |reqs| == 0 && |completedQueue.ring| > 1 && completedQueue.ring[|completedQueue.ring| - 1] == q
              && q.data.released && writeQueueSize == 0
              && |past| > 0 && past[|past| - 1] == Entry(whole, out, q.data.error == 0)
              && (if q.data.error == 0 then out == whole else out == [])))
    }

    /** Offers the transport the head of the queue right after the request in q was queued behind nothing to send. */
    method FlushNew(q: Link<Req>, ghost whole: Bytes, rc: nat -> int, again: bool, code: int) returns (ghost out: Bytes)
      requires Valid() && !closing && writeQueueSize == |whole| && (code == 0 ==> NothingToSend())
      requires |reqs| > 0 && writeQueue.ring[|reqs|] == q && |unsent| == |pending| == |reqs|
      requires pending[|reqs| - 1] == Entry(whole, [], false) && unsent[|reqs| - 1] == whole
      requires forall i | 0 <= i < |reqs| - 1 :: unsent[i] == []
      modifies this`writeQueueSize, this`reqs, this`unsent, this`past, this`pending, this`wire
      modifies writeQueue.ring`data, writeQueue.ring`next, writeQueue.ring`prev, writeQueue`ring
      modifies completedQueue.ring`next, completedQueue.ring`prev, completedQueue`ring
      ensures Valid() && wire == old(wire) + out && Placed(q, whole, out)
      ensures forall x | x in writeQueue.ring :: x in old(writeQueue.ring)
      ensures forall x | x in completedQueue.ring :: x in old(completedQueue.ring) || x in old(writeQueue.ring)
      ensures out == if |old(reqs)| == 1 then Took(Rest(old(reqs)[0]), rc, 0) else []
      ensures q.data.error != 0 <==> |old(reqs)| == 1 && out == [] && !again && code != 0
    {
      hide Distinct, Chained, BackChained, Flatten, Taken, Took, Rest, AllLeft, AllWaiting;
      LastSent(reqs, unsent, pending);
      out := FlushHead(rc, again, code);
      Lengths(reqs, unsent, pending);
      LastData(reqs, unsent, pending);
      assert [] + out == out;
      OnlyLast(unsent, if |unsent| > 0 then unsent[|unsent| - 1] else []);
    }

    /** uvudt_write: queues a request with these buffers and, when nothing was waiting, offers it to the transport at
        once. UV_ENOBUFS means the request is queued and waits its turn. memory: whether a longer buffer list could be
        allocated. */
    method Write(q: Link<Req>, bufs: seq<Bytes>, memory: bool, rc: nat -> int, again: bool, code: int)
      returns (status: int, ghost out: Bytes)
      requires Valid() && q !in issued && q != writeQueue && q != completedQueue
      requires code == 0 ==> reqs != [] || Flatten(bufs) == []
      modifies this`writeQueueSize, this`issued, this`reqs, this`unsent, this`past, this`pending, this`wire
      modifies q`data, q`next, q`prev, writeQueue.ring`data, writeQueue.ring`next, writeQueue.ring`prev, writeQueue`ring
      modifies completedQueue.ring`next, completedQueue.ring`prev, completedQueue`ring
      ensures Valid() && wire == old(wire) + out
      ensures status ==
        if !writable || closing then REJECTED
        else if |bufs| > BUFSML && !memory then UV_ENOMEM
        else if connecting || old(writeQueueSize) == 0 then 0
        else UV_ENOBUFS
      ensures status == REJECTED || status == UV_ENOMEM ==>
        issued == old(issued) && writeQueueSize == old(writeQueueSize)
      ensures status == 0 || status == UV_ENOBUFS ==> issued == old(issued) + [q]
      ensures out == if status == 0 && !connecting && old(reqs) == [] then Took(bufs, rc, 0) else []
      ensures status == 0 || status == UV_ENOBUFS ==>
        (q.data.error != 0 <==> status == 0 && !connecting && old(reqs) == [] && out == [] && !again && code != 0)
      ensures forall x | x in writeQueue.ring :: x == q || x in old(writeQueue.ring)
      ensures forall x | x in completedQueue.ring :: x == q || x in old(completedQueue.ring) || x in old(writeQueue.ring)
      ensures status == 0 ==> connecting || (old(writeQueueSize) == 0 && Placed(q, Flatten(bufs), out))
    {
      hide Distinct, Chained, BackChained, Flatten, Taken, Took, AllWaiting, AllLeft;
      out := [];
      assert wire + [] == wire;
      if !writable || closing {
        return REJECTED, out;
      }
      if |bufs| > BUFSML && !memory {
        return UV_ENOMEM, out;
      }
      var emptyQueue := writeQueueSize == 0;
      if emptyQueue {
        NothingWaits(unsent);
      }
      Lengths(reqs, unsent, pending);
      Queue(q, bufs);
      if connecting {
        return 0, out;
      }
      if emptyQueue {
        assert bufs[0..] == bufs;
        out := FlushNew(q, Flatten(bufs), rc, again, code);
        return 0, out;
      }
      return UV_ENOBUFS, out;
    }

    /** Sets up the request in q and appends it. */
    method Queue(q: Link<Req>, bufs: seq<Bytes>)
      requires Valid() && q !in issued && q != writeQueue && q != completedQueue
      modifies this`writeQueueSize, this`issued, this`reqs, this`unsent, this`pending
      modifies q`data, q`next, q`prev, writeQueue.ring`next, writeQueue.ring`prev, writeQueue`ring
      ensures Valid() && issued == old(issued) + [q] && q.data == Req(bufs, false, 0, 0)
      ensures writeQueueSize == old(writeQueueSize) + |Flatten(bufs)| && wire == old(wire) && past == old(past)
      ensures unsent == old(unsent) + [Flatten(bufs)] && pending == old(pending) + [Entry(Flatten(bufs), [], false)]
      ensures writeQueue.ring == old(writeQueue.ring) + [q] && completedQueue.ring == old(completedQueue.ring)
      ensures reqs == old(reqs) + [q.data]
    {
      hide Distinct, Chained, BackChained, Flatten, Taken, AllWaiting, AllLeft;
      Fill(q, bufs);
      var total := BufCount(bufs);
      Lengths(reqs, unsent, pending);
      writeQueueSize := writeQueueSize + total;
      Enqueue(q);
      BookNew(q, bufs);
    }

    method Fill(q: Link<Req>, bufs: seq<Bytes>)
      requires Valid() && q !in issued && q != writeQueue && q != completedQueue
      modifies q`data
      ensures Valid() && q.data == Req(bufs, false, 0, 0)
    {
      hide Distinct, Flatten, Taken;
      Apart(writeQueue.ring, completedQueue.ring);
      q.data := Req(bufs, false, 0, 0);
    }

    /** Calls back every completed request, once, in order (udt__write_callbacks). */
    method Callbacks() returns (done: seq<Link<Req>>)
      requires Valid()
      modifies this`called, completedQueue`ring
      modifies (set x | x in completedQueue.ring)`next, (set x | x in completedQueue.ring)`prev
      ensures Valid() && completedQueue.ring == [completedQueue]
      ensures done == old(completedQueue.ring)[1..] && called == old(called) + done
    {
      hide Distinct, Chained, BackChained, Flatten, Taken, AllWaiting, AllLeft, Contents, Accounts;
      done := [];
      ghost var ring0 := completedQueue.ring;
      ghost var called0 := called;
      ghost var all := set x | x in completedQueue.ring;
      Apart(writeQueue.ring, completedQueue.ring);
      var empty := Empty(completedQueue);
      while !empty
        invariant Valid() && (empty <==> |completedQueue.ring| == 1)
        invariant ring0[1..] == done + completedQueue.ring[1..] && called == called0 + done
        invariant forall x | x in completedQueue.ring :: x in all
        invariant forall x | x in writeQueue.ring :: x !in all
        decreases |completedQueue.ring|, !empty
      {
        var q := Head(completedQueue);
        CallBack(q, all);
        done := done + [q];
        empty := Empty(completedQueue);
      }
      assert completedQueue.ring == [completedQueue];
    }

    /** The callback of the first completed request. */
    method CallBack(q: Link<Req>, ghost all: set<Link<Req>>)
      requires Valid() && |completedQueue.ring| > 1 && q == completedQueue.ring[1]
      requires (forall x | x in completedQueue.ring :: x in all) && (forall x | x in writeQueue.ring :: x !in all)
      modifies this`called, all`next, all`prev, completedQueue`ring
      ensures Valid() && called == old(called) + [q] && completedQueue.ring == Without(old(completedQueue.ring), 1)
    {
      hide Distinct, Chained, BackChained, Flatten, Taken, AllWaiting, AllLeft, Without;
      Apart(writeQueue.ring, completedQueue.ring);
      Remove(q, completedQueue, 1);
      called := called + [q];
      assert old(completedQueue.ring)[1..] == [q] + completedQueue.ring[1..];
    }

    /** The newest request, its unsent bytes no longer counted, leaves whichever queue it is in. */
    method Withdraw(q: Link<Req>, ghost whole: Bytes, ghost out: Bytes)
      requires Lists() && Contents() && AllWaiting(reqs, unsent, pending) && AllLeft(past) && wire == Taken(past + pending)
      requires out <= whole && |reqs| == |unsent| == |pending|
      requires if |reqs| > 0 then && writeQueue.ring[|reqs|] == q && !q.data.released && pending[|reqs| - 1] == Entry(whole, out, false)
                 && writeQueueSize == |Flatten(unsent)| - |Flatten([unsent[|reqs| - 1]])|
               else && |completedQueue.ring| > 1 && completedQueue.ring[|completedQueue.ring| - 1] == q
                    && writeQueueSize == |Flatten(unsent)|
      modifies this`issued, this`reqs, this`unsent, this`past, this`pending
      modifies writeQueue.ring`next, writeQueue.ring`prev, writeQueue`ring
      modifies completedQueue.ring`next, completedQueue.ring`prev, completedQueue`ring
      ensures Valid() && |old(issued)| > 0 && issued == old(issued)[..|old(issued)| - 1]
    {
      hide Distinct, Chained, BackChained, Flatten, Taken, AllWaiting, AllLeft;
      if |reqs| > 0 {
        DropBooks(reqs, unsent, pending, past);
      }
      Unhook(q, if |reqs| > 0 then writeQueue else completedQueue);
      if |reqs| > 0 {
        ghost var n := |reqs| - 1;
        past := if n == 0 then past + pending else past;
        reqs, unsent, pending := reqs[..n], unsent[..n], pending[..n];
      }
    }

    /** Unlinks q, the newest request, from the queue with head h. */
    method Unhook(q: Link<Req>, ghost h: Link<Req>)
      requires Lists() && (h == writeQueue || (h == completedQueue && |writeQueue.ring| == 1))
      requires |h.ring| > 1 && q == h.ring[|h.ring| - 1]
      modifies this`issued, h.ring`next, h.ring`prev, h`ring
      ensures Lists() && h.ring == old(h.ring)[..|old(h.ring)| - 1]
      ensures h == writeQueue ==> completedQueue.ring == old(completedQueue.ring)
      ensures h == completedQueue ==> writeQueue.ring == old(writeQueue.ring)
      ensures |old(issued)| > 0 && issued == old(issued)[..|old(issued)| - 1]
    {
      hide Distinct, Chained, BackChained;
      Apart(writeQueue.ring, completedQueue.ring);
      DistinctPrefix([writeQueue, completedQueue] + issued);
      ghost var n, ring := |issued| - 1, h.ring;
      Remove(q, h, |h.ring| - 1);
      assert h.ring == ring[..|ring| - 1];
      assert ring[1..] == h.ring[1..] + [q];
      issued := issued[..n];
      assert issued == called + completedQueue.ring[1..] + writeQueue.ring[1..];
      assert [writeQueue, completedQueue] + issued == ([writeQueue, completedQueue] + old(issued))[..n + 2];
    }

    /** uvudt_try_write: like Write, but only when nothing waits, and what is not taken at once is forgotten. taken: the
        bytes that went out; failed: whether the transport refused the request for good. */
    method TryWrite(bufs: seq<Bytes>, memory: bool, rc: nat -> int, again: bool, code: int)
      returns (r: int, ghost taken: Bytes, ghost failed: bool)
      requires Valid() && (code == 0 ==> reqs != [] || Flatten(bufs) == [])
      modifies this`writeQueueSize, this`issued, this`reqs, this`unsent, this`past, this`pending, this`wire
      modifies writeQueue.ring`data, writeQueue.ring`next, writeQueue.ring`prev, writeQueue`ring
      modifies completedQueue.ring`next, completedQueue.ring`prev, completedQueue`ring
      ensures Valid() && issued == old(issued) && wire == old(wire) + taken && taken <= Flatten(bufs)
      ensures connecting || old(writeQueueSize) != 0 ==> r == UV_EAGAIN && taken == []
      ensures old(writeQueueSize) == 0 ==> writeQueueSize == 0
      ensures !connecting && old(writeQueueSize) == 0 && (!writable || closing) ==> r == REJECTED && taken == []
      ensures !connecting && old(writeQueueSize) == 0 && writable && !closing && |bufs| > BUFSML && !memory ==>
        r == UV_ENOMEM && taken == []
      ensures !connecting && old(writeQueueSize) == 0 && writable && !closing && (|bufs| <= BUFSML || memory) ==>
        && taken == (if old(reqs) == [] then Took(bufs, rc, 0) else [])
        && (failed <==> old(reqs) == [] && !again && code != 0 && (Flatten(bufs) == [] || rc(0) <= 0))
        && r == (if failed then |Flatten(bufs)| else if taken == [] && Flatten(bufs) != [] then UV_EAGAIN else |taken|)
        && (r != UV_EAGAIN ==> (r != |taken| <==> failed && Flatten(bufs) != []))
    {
      hide Distinct, Chained, BackChained, Flatten, Taken, Took, AllWaiting, AllLeft, Placed, Valid, Lists, Contents, Accounts;
      TookPrefix(bufs, rc, 0);
      taken, failed := [], false;
      assert wire + [] == wire;
      if connecting || writeQueueSize != 0 {
        return UV_EAGAIN, taken, failed;
      }
      var q := new Link(IDLE);
      ghost var all := {q} + (set x | x in writeQueue.ring) + (set x | x in completedQueue.ring);
      r, taken := Write(q, bufs, memory, rc, again, code);
      if r != 0 {
        return r, taken, failed;
      }
      var written := BufCount(bufs);
      failed := q.data.error != 0;
      var reqSize := RestOf(q, Flatten(bufs), taken);
      written := written - reqSize;
      Forget(q, reqSize, Flatten(bufs), taken, all);
      r := if written == 0 && reqSize != 0 then UV_EAGAIN else written;
    }

    method Forget(q: Link<Req>, reqSize: int, ghost whole: Bytes, ghost out: Bytes, ghost all: set<Link<Req>>)
      requires Valid() && Placed(q, whole, out) && reqSize == writeQueueSize
      requires (forall x | x in writeQueue.ring :: x in all) && (forall x | x in completedQueue.ring :: x in all)
      modifies this`writeQueueSize, this`issued, this`reqs, this`unsent, this`past, this`pending
      modifies all`next, all`prev, writeQueue`ring, completedQueue`ring
      ensures Valid() && |old(issued)| > 0 && issued == old(issued)[..|old(issued)| - 1] && writeQueueSize == 0
    {
      hide Distinct, Chained, BackChained, Flatten, Taken, AllWaiting, AllLeft;
      if |reqs| > 0 {
        FlattenOne(unsent[|reqs| - 1]);
      }
      writeQueueSize := writeQueueSize - reqSize;
      Withdraw(q, whole, out);
    }

    /** The unsent bytes of the newest request. */
    method RestOf(q: Link<Req>, ghost whole: Bytes, ghost out: Bytes) returns (n: int)
      requires Valid() && Placed(q, whole, out)
      ensures n == writeQueueSize && out <= whole && writeQueueSize >= 0
      ensures if q.data.error == 0 then n == |whole| - |out| else n == 0 && out == []
    {
      hide Distinct, Chained, BackChained, Flatten, Taken, AllLeft;
      LastData(reqs, unsent, pending);
      if !q.data.released {
        n := BufCount(q.data.bufs[q.data.writeIndex..]);
      } else {
        n := 0;
      }
    }
  }

  /** The first buffer of those from k on, and what is left without its first n bytes. */
  lemma BufFacts(bufs: seq<Bytes>, k: int, n: int)
    requires 0 <= k < |bufs| && 0 <= n
    ensures Flatten(bufs[k..]) == bufs[k] + Flatten(bufs[k + 1..])
    ensures n < |bufs[k]| ==>
      && Flatten(bufs[k := bufs[k][n..]][k..]) == Flatten(bufs[k..])[n..]
      && n < |Flatten(bufs[k..])|
    ensures n >= |bufs[k]| && n <= |Flatten(bufs[k..])| ==>
      Flatten(bufs[k + 1..]) == Flatten(bufs[k..])[|bufs[k]|..]
    ensures k + 1 == |bufs| ==> Flatten(bufs[k + 1..]) == []
  {
    assert bufs[k..][1..] == bufs[k + 1..];
    if n < |bufs[k]| {
      var bs := bufs[k := bufs[k][n..]];
      assert bs[k..][1..] == bufs[k + 1..] && bs[k..][0] == bufs[k][n..];
    }
  }

  lemma NewBooks(rs: seq<Req>, us: seq<Bytes>, es: seq<Entry>, past: seq<Entry>, bufs: seq<Bytes>)
    requires AllWaiting(rs, us, es)
    ensures AllWaiting(rs + [Req(bufs, false, 0, 0)], us + [Flatten(bufs)], es + [Entry(Flatten(bufs), [], false)])
    ensures |Flatten(us + [Flatten(bufs)])| == |Flatten(us)| + |Flatten(bufs)|
    ensures Taken(past + (es + [Entry(Flatten(bufs), [], false)])) == Taken(past + es)
  {
    hide Flatten;
    FlattenAppend(us, [Flatten(bufs)]);
    FlattenOne(Flatten(bufs));
    TakenAppend(past + es, Entry(Flatten(bufs), [], false));
    assert past + es + [Entry(Flatten(bufs), [], false)] == past + (es + [Entry(Flatten(bufs), [], false)]);
    assert bufs[0..] == bufs;
  }

  lemma {:induction false} TakenRest(past: seq<Entry>, es: seq<Entry>)
    requires es != [] && forall i | 0 < i < |es| :: es[i].sent == []
    ensures Taken(past + es) == Taken(past) + es[0].sent
    decreases |es|
  {
    var n := |es| - 1;
    TakenAppend(past + es[..n], es[n]);
    assert past + es[..n] + [es[n]] == past + es;
    if n == 0 {
      assert past + es[..0] == past;
    } else {
      TakenRest(past, es[..n]);
    }
  }

  lemma Lengths(rs: seq<Req>, us: seq<Bytes>, es: seq<Entry>)
    requires AllWaiting(rs, us, es)
    ensures |us| == |es| == |rs|
  {
  }

  lemma HeadWaits(rs: seq<Req>, us: seq<Bytes>, es: seq<Entry>)
    requires AllWaiting(rs, us, es) && |rs| > 0
    ensures |us| == |es| == |rs|
    ensures !rs[0].released && rs[0].error == 0 && 0 <= rs[0].writeIndex <= |rs[0].bufs|
    ensures Flatten(rs[0].bufs[rs[0].writeIndex..]) == us[0]
    ensures rs[0].writeIndex == |rs[0].bufs| ==> us[0] == []
  {
    assert Waiting(rs[0], us[0], es[0]);
  }

  /** The books after the transport took out of the head's bytes. */
  lemma TakeBooks(rs: seq<Req>, us: seq<Bytes>, es: seq<Entry>, past: seq<Entry>, r: Req, out: Bytes)
    requires AllWaiting(rs, us, es) && |rs| > 0 && out <= us[0]
    requires !r.released && r.error == 0 && 0 <= r.writeIndex <= |r.bufs|
    requires Flatten(r.bufs[r.writeIndex..]) == us[0][|out|..]
    ensures
      var e := Entry(es[0].whole, es[0].sent + out, false);
      && AllWaiting(rs[0 := r], us[0 := us[0][|out|..]], es[0 := e])
      && |Flatten(us[0 := us[0][|out|..]])| == |Flatten(us)| - |out|
      && Taken(past + es[0 := e]) == Taken(past + es) + out
  {
    hide Flatten, Taken;
    var e := Entry(es[0].whole, es[0].sent + out, false);
    var u := us[0][|out|..];
    assert Waiting(rs[0], us[0], es[0]);
    assert us[0] == out + u && e.whole == e.sent + u;
    TakenRest(past, es);
    TakenRest(past, es[0 := e]);
    assert Taken(past) + (es[0].sent + out) == Taken(past) + es[0].sent + out;
    HeadSize(us, u);
  }

  lemma HeadSize(us: seq<Bytes>, u: Bytes)
    requires |us| > 0
    ensures |Flatten(us[0 := u])| == |Flatten(us)| - |us[0]| + |u|
  {
    assert us[0 := u][1..] == us[1..];
  }

  /** The books after the head left. */
  lemma LeaveBooks(rs: seq<Req>, us: seq<Bytes>, es: seq<Entry>, past: seq<Entry>, ok: bool)
    requires AllWaiting(rs, us, es) && |rs| > 0 && AllLeft(past) && (ok ==> us[0] == [])
    ensures AllWaiting(rs[1..], us[1..], es[1..]) && AllLeft(past + [es[0].(ok := ok)])
    ensures |Flatten(us[1..])| == |Flatten(us)| - |Flatten([us[0]])|
    ensures Taken(past + [es[0].(ok := ok)] + es[1..]) == Taken(past + es)
  {
    hide Flatten, Taken;
    assert Waiting(rs[0], us[0], es[0]);
    FlattenOne(us[0]);
    TailSize(us);
    TakenMark(past, es[0], es[1..], ok);
    assert past + [es[0]] + es[1..] == past + es;
  }

  lemma {:induction false} TakenMark(past: seq<Entry>, e: Entry, rest: seq<Entry>, ok: bool)
    ensures Taken(past + [e.(ok := ok)] + rest) == Taken(past + [e] + rest)
    decreases |rest|
  {
    var f := e.(ok := ok);
    if rest == [] {
      TakenAppend(past, e);
      TakenAppend(past, f);
      assert past + [f] + [] == past + [f] && past + [e] + [] == past + [e];
    } else {
      var n := |rest| - 1;
      TakenMark(past, e, rest[..n], ok);
      TakenAppend(past + [e] + rest[..n], rest[n]);
      TakenAppend(past + [f] + rest[..n], rest[n]);
      assert past + [e] + rest[..n] + [rest[n]] == past + [e] + rest;
      assert past + [f] + rest[..n] + [rest[n]] == past + [f] + rest;
    }
  }

  lemma TailSize(us: seq<Bytes>)
    requires |us| > 0
    ensures |Flatten(us[1..])| == |Flatten(us)| - |us[0]|
  {
  }

  lemma {:induction false} NothingWaits(us: seq<Bytes>)
    requires |Flatten(us)| == 0
    ensures forall i | 0 <= i < |us| :: us[i] == []
  {
    if us != [] {
      NothingWaits(us[1..]);
      forall i | 0 <= i < |us| ensures us[i] == [] {
        if i > 0 {
          assert us[i] == us[1..][i - 1];
        }
      }
    }
  }

  lemma {:induction false} OnlyLast(us: seq<Bytes>, u: Bytes)
    requires us == [] ==> u == []
    requires us != [] ==> us[|us| - 1] == u && forall i | 0 <= i < |us| - 1 :: us[i] == []
    ensures Flatten(us) == u
    decreases |us|
  {
    if |us| == 1 {
      assert us == [u];
      FlattenOne(u);
    } else if |us| > 1 {
      OnlyLast(us[1..], u);
    }
  }

  /** Of a request behind the head nothing was sent. */
  lemma LastSent(rs: seq<Req>, us: seq<Bytes>, es: seq<Entry>)
    requires AllWaiting(rs, us, es) && |rs| > 0
    ensures |us| == |es| == |rs|
    ensures |rs| > 1 ==> es[|rs| - 1].sent == []
  {
  }

  lemma DistinctPrefix(ls: seq<Link<Req>>)
    requires Distinct(ls) && |ls| > 0
    ensures Distinct(ls[..|ls| - 1])
  {
  }

  lemma LastData(rs: seq<Req>, us: seq<Bytes>, es: seq<Entry>)
    requires AllWaiting(rs, us, es)
    ensures |us| == |es| == |rs|
    ensures |rs| > 0 ==>
      var r := rs[|rs| - 1];
      && !r.released && r.error == 0 && 0 <= r.writeIndex <= |r.bufs|
      && Flatten(r.bufs[r.writeIndex..]) == us[|rs| - 1]
  {
    if |rs| > 0 {
      assert Waiting(rs[|rs| - 1], us[|rs| - 1], es[|rs| - 1]);
    }
  }

  /** The books after the last request left. */
  lemma DropBooks(rs: seq<Req>, us: seq<Bytes>, es: seq<Entry>, past: seq<Entry>)
    requires AllWaiting(rs, us, es) && |rs| > 0 && AllLeft(past)
    ensures |us| == |es| == |rs|
    ensures
      var n := |rs| - 1;
      && AllWaiting(rs[..n], us[..n], es[..n])
      && |Flatten(us[..n])| == |Flatten(us)| - |Flatten([us[n]])|
      && (n == 0 ==> AllLeft(past + es) && past + es + es[..n] == past + es)
      && (n > 0 ==> Taken(past + es[..n]) == Taken(past + es))
  {
    hide Flatten, Taken;
    var n := |rs| - 1;
    assert Waiting(rs[n], us[n], es[n]);
    LastSize(us);
    if n > 0 {
      assert es[n].sent == [];
      LastTaken(es, past);
    }
  }

  lemma LastSize(us: seq<Bytes>)
    requires |us| > 0
    ensures |Flatten(us[..|us| - 1])| == |Flatten(us)| - |Flatten([us[|us| - 1]])|
  {
    hide Flatten;
    FlattenAppend(us[..|us| - 1], [us[|us| - 1]]);
    assert us[..|us| - 1] + [us[|us| - 1]] == us;
  }

  lemma LastTaken(es: seq<Entry>, past: seq<Entry>)
    requires |es| > 0 && es[|es| - 1].sent == []
    ensures Taken(past + es[..|es| - 1]) == Taken(past + es)
  {
    hide Taken;
    var n := |es| - 1;
    TakenAppend(past + es[..n], es[n]);
    assert past + es[..n] + [es[n]] == past + es;
    assert Taken(past + es[..n]) + [] == Taken(past + es[..n]);
  }

  /** A try on a fresh stream, whose transport takes all it is offered or refuses for good: either way the call reports
      all bytes as written. */
  method TryFresh(data: Bytes, takes: bool) returns (r: int, ghost taken: Bytes)
    requires data != []
    ensures r == |data| && taken == if takes then data else []
  {
    hide Took, Flatten;
    var s := new Stream();
    s.connecting, s.writable := false, true;
    var rc := (k: nat) => if takes then |data| else -1;
    FlattenOne(data);
    if takes {
      TookAll([data], rc, 0);
    } else {
      TookPrefix([data], rc, 0);
    }
    ghost var failed;
    r, taken, failed := s.TryWrite([data], true, rc, false, 7);
  }
}
