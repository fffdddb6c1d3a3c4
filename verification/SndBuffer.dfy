/** The sender's buffer (CSndBuffer): a circular list of blocks that grows on demand, with three cursors. first is
    the oldest unacknowledged block, curr the next one to send for the first time, last the next one to fill. */
module SndBufferModule {
  import opened Bytes
  import opened Collections

  /** The message header a block carries: number, order flag, and whether it starts or ends its message. */
  datatype Header = Header(msgNo: int, inOrder: bool, first: bool, last: bool)

  const MAX_MSG: int := 0x1FFF_FFFF

  class Block {
    var payload: Bytes
    var header: Header
    var next: Block?

    constructor ()
      ensures next == null
    {
      payload := [];
      header := Header(0, false, false, false);
      next := null;
    }
  }

  /** Each block points to the next one, the last one to tail. */
  ghost predicate Linked(bs: seq<Block>, tail: Block?)
    reads bs
  {
    forall i {:trigger bs[i].next} | 0 <= i < |bs| :: bs[i].next == if i + 1 == |bs| then tail else bs[i + 1]
  }

  ghost predicate Strung(bs: seq<Block>, tail: Block?)
    reads bs
  {
    Distinct(bs) && Linked(bs, tail)
  }

  ghost predicate Within(bs: seq<Block>, objs: set<Block>) {
    forall i | 0 <= i < |bs| :: bs[i] in objs
  }

  /** The first blocks hold these payloads and headers. */
  ghost predicate Filled(bs: seq<Block>, cs: seq<Bytes>, hs: seq<Header>, mss: int)
    reads bs
  {
    && |cs| == |hs| <= |bs|
    && forall i | 0 <= i < |cs| :: bs[i].payload == cs[i] && bs[i].header == hs[i] && 0 < |cs[i]| <= mss
  }

  lemma FilledSizes(bs: seq<Block>, cs: seq<Bytes>, hs: seq<Header>, mss: int)
    requires Filled(bs, cs, hs, mss)
    ensures |cs| == |hs| <= |bs|
  {
  }

  lemma FilledRotate(bs: seq<Block>, cs: seq<Bytes>, hs: seq<Header>, mss: int, k: int)
    requires Filled(bs, cs, hs, mss) && 0 <= k <= |cs|
    ensures Filled(bs[k..] + bs[..k], cs[k..], hs[k..], mss)
  {
    var all := bs[k..] + bs[..k];
    assert forall i | 0 <= i < |cs| - k :: all[i] == bs[k + i];
  }

  /** n blocks past the filled ones, holding the pieces and headers of one message, are filled too. */
  lemma FilledAppend(bs: seq<Block>, cs: seq<Bytes>, hs: seq<Header>, mss: int, ds: seq<Bytes>, gs: seq<Header>)
    requires Filled(bs, cs, hs, mss) && |ds| == |gs| && |cs| + |ds| <= |bs|
    requires forall i | 0 <= i < |ds| :: 0 < |ds[i]| <= mss
    requires forall j | |cs| <= j < |cs| + |ds| :: bs[j].payload == ds[j - |cs|] && bs[j].header == gs[j - |cs|]
    ensures Filled(bs, cs + ds, hs + gs, mss)
  {
  }

  lemma WithinRotate(bs: seq<Block>, objs: set<Block>, k: int)
    requires Within(bs, objs) && 0 <= k <= |bs|
    ensures Within(bs[k..] + bs[..k], objs)
  {
  }

  lemma DistinctSplice(ring: seq<Block>, k: int, bs: seq<Block>)
    requires 0 <= k <= |ring| && Distinct(ring) && Distinct(bs) && forall b | b in bs :: b !in ring
    ensures Distinct(ring[..k] + bs + ring[k..])
  {
    var all := ring[..k] + bs + ring[k..];
    forall i, j | 0 <= i < j < |all| ensures all[i] != all[j] {
      assert k <= i < k + |bs| ==> all[i] == bs[i - k];
      assert k <= j < k + |bs| ==> all[j] == bs[j - k];
      assert !(k <= i < k + |bs|) ==> all[i] in ring;
      assert !(k <= j < k + |bs|) ==> all[j] in ring;
    }
  }

  lemma LinkedConcat(a: seq<Block>, b: seq<Block>, tail: Block?)
    requires Linked(a, if b == [] then tail else b[0]) && Linked(b, tail)
    ensures Linked(a + b, tail)
  {
    var c := a + b;
    forall i | 0 <= i < |c| ensures c[i].next == if i + 1 == |c| then tail else c[i + 1] {
      if i < |a| {
        assert c[i] == a[i] && a[i].next == if i + 1 == |a| then (if b == [] then tail else b[0]) else a[i + 1];
      } else {
        assert c[i] == b[i - |a|];
      }
    }
  }

  lemma LinkedSplit(a: seq<Block>, k: int, tail: Block?)
    requires 0 <= k <= |a| && Linked(a, tail)
    ensures Linked(a[..k], if k == |a| then tail else a[k]) && Linked(a[k..], tail)
  {
    forall i | 0 <= i < k ensures a[..k][i].next == if i + 1 == k then (if k == |a| then tail else a[k]) else a[i + 1] {
      assert a[..k][i] == a[i];
    }
    forall i | 0 <= i < |a| - k ensures a[k..][i].next == if i + 1 == |a| - k then tail else a[k..][i + 1] {
      assert a[k..][i] == a[k + i];
    }
  }

  lemma DistinctAt(ring: seq<Block>, k: int)
    requires 0 <= k < |ring| && Distinct(ring)
    ensures forall i | 0 <= i < |ring| && i != k :: ring[i] != ring[k]
  {
  }

  lemma DistinctRotate(ring: seq<Block>, k: int)
    requires 0 <= k <= |ring| && Distinct(ring)
    ensures Distinct(ring[k..] + ring[..k])
  {
    var all := ring[k..] + ring[..k];
    forall i, j | 0 <= i < j < |all| ensures all[i] != all[j] {
      var n := |ring| - k;
      assert all[i] == ring[if i < n then k + i else i - n];
      assert all[j] == ring[if j < n then k + j else j - n];
    }
  }

  /** A circular list read from its k-th block on. */
  lemma StrungRotate(ring: seq<Block>, k: int)
    requires 0 <= k < |ring| && Strung(ring, ring[0])
    ensures Strung(ring[k..] + ring[..k], ring[k])
  {
    hide Linked, Distinct;
    var a, b := ring[..k], ring[k..];
    assert a + b == ring;
    LinkedSplit(ring, k, ring[0]);
    DistinctRotate(ring, k);
    LinkedConcat(b, a, b[0]);
  }

  class SndBuffer {
    const mss: int
    const unitSize: int
    var first: Block
    var curr: Block
    var last: Block
    var nextMsgNo: int
    var size: int
    var count: int

    // the blocks in list order from first on; how many of the filled ones were sent; what they hold
    ghost var ring: seq<Block>
    ghost var repr: set<Block>
    ghost var sent: int
    ghost var contents: seq<Bytes>
    ghost var headers: seq<Header>

    ghost predicate Cursors()
      reads this
    {
      && mss > 0 && unitSize > 0
      && |ring| == size && 0 <= sent <= count < size
      && first == ring[0] && curr == ring[sent] && last == ring[count]
      && |contents| == |headers| == count
      && Within(ring, repr)
    }

    ghost predicate Valid()
      reads this, repr
    {
      Cursors() && Strung(ring, ring[0]) && Filled(ring, contents, headers, mss)
    }

    lemma Sizes()
      requires Valid()
      ensures count == |contents| == |headers| && 0 <= sent <= count && mss > 0
      ensures forall i | 0 <= i < count :: 0 < |contents[i]| <= mss
    {
    }

    /** n new blocks in a row. */
    static method NewBlocks(n: int) returns (head: Block, tail: Block, ghost bs: seq<Block>)
      requires n > 0
      ensures |bs| == n && head == bs[0] && tail == bs[n - 1] && Strung(bs, null)
      ensures fresh(bs)
    {
      head := new Block();
      tail := head;
      bs := [head];
      var i := 1;
      while i < n
        invariant 1 <= i <= n && |bs| == i && head == bs[0] && tail == bs[i - 1]
        invariant Strung(bs, null)
        invariant fresh(bs)
      {
        var b := new Block();
        tail.next := b;
        tail := b;
        bs := bs + [b];
        i := i + 1;
      }
    }

    constructor (capacity: int, payloadSize: int)
      requires capacity > 0 && payloadSize > 0
      ensures Valid() && contents == [] && headers == [] && sent == 0 && mss == payloadSize && nextMsgNo == 1
      ensures fresh(repr)
    {
      var head, tail;
      ghost var bs;
      head, tail, bs := NewBlocks(capacity);
      tail.next := head;
      mss := payloadSize;
      unitSize := capacity;
      first := head;
      curr := head;
      last := head;
      nextMsgNo := 1;
      size := capacity;
      count := 0;
      ring := bs;
      repr := set b | b in bs;
      sent := 0;
      contents := [];
      headers := [];
    }

    /** Room for unitSize more blocks, spliced in after the block the last cursor points to. */
    method Increase()
      requires Valid()
      modifies this`size, this`ring, this`repr, last
      ensures Valid() && size == old(size) + unitSize
      ensures fresh(repr - old(repr))
      ensures ring[..count + 1] == old(ring[..count + 1])
    {
      hide Distinct, Linked;
      ghost var k := count + 1;
      ghost var used, free := ring[..k], ring[k..];
      LinkedSplit(ring, k, first);
      assert used + free == ring;
      DistinctAt(ring, count);
      var bs := SpliceAfterLast(used, free);
      LinkedConcat(bs, free, first);
      LinkedConcat(used, bs + free, first);
      DistinctSplice(ring, k, bs);
      assert used + (bs + free) == used + bs + free;
      size := size + unitSize;
      ring := used + bs + free;
      repr := repr + set b | b in bs;
    }

    /** Links unitSize new blocks in after the last one of used, which free follows. */
    method SpliceAfterLast(ghost used: seq<Block>, ghost free: seq<Block>) returns (ghost bs: seq<Block>)
      requires used != [] && used[|used| - 1] == last && unitSize > 0
      requires (forall i | 0 <= i < |used| - 1 :: used[i] != last) && (forall i | 0 <= i < |free| :: free[i] != last)
      requires Linked(used, if free == [] then first else free[0]) && Linked(free, first)
      modifies last
      ensures |bs| == unitSize && fresh(bs) && Distinct(bs)
      ensures Linked(used, bs[0]) && Linked(bs, if free == [] then first else free[0]) && Linked(free, first)
      ensures last.payload == old(last.payload) && last.header == old(last.header)
    {
      var head, tail;
      head, tail, bs := NewBlocks(unitSize);
      tail.next := last.next;
      last.next := head;
    }

    /** Cuts data into blocks that make one message, and fills the next free blocks with them. */
    method AddBuffer(data: Bytes, inOrder: bool)
      requires Valid()
      modifies this, repr
      ensures Valid() && sent == old(sent)
      ensures contents == old(contents) + Cut(data, mss)
      ensures headers == old(headers) + Frames(|Cut(data, mss)|, old(nextMsgNo), inOrder)
      ensures nextMsgNo == NextMsgNo(old(nextMsgNo))
      ensures fresh(repr - old(repr))
    {
      hide Cut, Linked, Distinct;
      var blocks := |data| / mss;
      if |data| % mss != 0 {
        blocks := blocks + 1;
      }
      CutSize(data, mss);
      MakeRoom(blocks);
      Place(data, blocks, inOrder);
    }

    /** Fills the blocks from last on and moves the last cursor past them. */
    method Place(data: Bytes, blocks: int, inOrder: bool)
      requires Valid() && blocks == |Cut(data, mss)| && blocks + count < size
      modifies this`last, this`count, this`nextMsgNo, this`contents, this`headers, repr
      ensures Valid()
      ensures contents == old(contents) + Cut(data, mss)
      ensures headers == old(headers) + Frames(blocks, old(nextMsgNo), inOrder)
      ensures nextMsgNo == NextMsgNo(old(nextMsgNo))
    {
      hide Cut, Linked, Distinct, Within, Filled, Frames;
      CutPieces(data, mss);
      var s := Fill(data, blocks, inOrder);
      FilledAppend(ring, contents, headers, mss, Cut(data, mss), Frames(blocks, nextMsgNo, inOrder));
      AdvanceLast(s, blocks, Cut(data, mss), Frames(blocks, nextMsgNo, inOrder));
    }

    /** The filled blocks up to s now count. */
    method AdvanceLast(s: Block, blocks: int, ghost ds: seq<Bytes>, ghost gs: seq<Header>)
      requires Cursors() && Strung(ring, ring[0]) && 0 <= blocks && blocks + count < size && s == ring[count + blocks]
      requires Filled(ring, contents + ds, headers + gs, mss) && |ds| == blocks
      modifies this`last, this`count, this`nextMsgNo, this`contents, this`headers
      ensures Valid()
      ensures contents == old(contents) + ds && headers == old(headers) + gs
      ensures nextMsgNo == NextMsgNo(old(nextMsgNo))
    {
      hide Linked, Distinct, Within, Filled;
      FilledSizes(ring, contents + ds, headers + gs, mss);
      contents, headers := contents + ds, headers + gs;
      last := s;
      count := count + blocks;
      nextMsgNo := nextMsgNo + 1;
      if nextMsgNo == MAX_MSG {
        nextMsgNo := 1;
      }
    }

    /** Grows the buffer until blocks more fit. */
    method MakeRoom(blocks: int)
      requires Valid()
      modifies this`size, this`ring, this`repr, last
      ensures Valid() && blocks + count < size
      ensures fresh(repr - old(repr))
      ensures last == old(last)
    {
      hide Linked, Distinct, Filled;
      while blocks + count >= size
        invariant Valid()
        invariant fresh(repr - old(repr))
        decreases blocks + count - size
      {
        Increase();
      }
    }

    /** Writes the blocks from last on and returns the one after them. */
    method Fill(data: Bytes, blocks: int, inOrder: bool) returns (s: Block)
      requires Valid() && blocks == |Cut(data, mss)| && blocks + count < size
      modifies repr
      ensures Strung(ring, ring[0]) && Filled(ring, contents, headers, mss) && s == ring[count + blocks]
      ensures forall j | count <= j < count + blocks ::
                && ring[j].payload == Cut(data, mss)[j - count]
                && ring[j].header == Frames(blocks, nextMsgNo, inOrder)[j - count]
    {
      hide Cut;
      s := last;
      var i := 0;
      while i < blocks
        invariant 0 <= i <= blocks && s == ring[count + i]
        invariant Strung(ring, ring[0]) && Filled(ring, contents, headers, mss)
        invariant forall j | count <= j < count + i ::
                    && ring[j].payload == Cut(data, mss)[j - count]
                    && ring[j].header == Frame(j - count, blocks, nextMsgNo, inOrder)
      {
        CutAt(data, mss, i);
        var pktlen := |data| - i * mss;
        if pktlen > mss {
          pktlen := mss;
        }
        s.payload := data[i * mss..i * mss + pktlen];
        s.header := Header(nextMsgNo, inOrder, i == 0, i == blocks - 1);
        s := s.next;
        i := i + 1;
      }
    }

    /** The next block to send for the first time, if any. */
    method ReadNew() returns (found: bool, payload: Bytes, header: Header)
      requires Valid()
      modifies this`curr, this`sent
      ensures Valid()
      ensures found <==> old(sent) < count
      ensures found ==> sent == old(sent) + 1 && payload == contents[old(sent)] && header == headers[old(sent)]
      ensures !found ==> sent == old(sent) && payload == []
    {
      if curr == last {
        return false, [], Header(0, false, false, false);
      }
      payload := curr.payload;
      header := curr.header;
      curr := curr.next;
      sent := sent + 1;
      found := true;
    }

    /** The block offset steps past the oldest unacknowledged one, for retransmission. */
    method ReadAt(offset: int) returns (payload: Bytes, header: Header)
      requires Valid() && 0 <= offset < count
      ensures payload == contents[offset] && header == headers[offset]
    {
      var p := first;
      var i := 0;
      while i < offset
        invariant 0 <= i <= offset && p == ring[i]
      {
        p := p.next;
        i := i + 1;
      }
      return p.payload, p.header;
    }

    /** Drops the first offset blocks, which must have been sent. */
    method AckData(offset: int)
      requires Valid() && 0 <= offset <= sent
      modifies this`first, this`count, this`ring, this`sent, this`contents, this`headers
      ensures Valid() && sent == old(sent) - offset && count == old(count) - offset
      ensures contents == old(contents)[offset..] && headers == old(headers)[offset..]
    {
      hide Linked, Distinct, Filled, Within, Strung;
      ghost var a, b := ring[..offset], ring[offset..];
      StrungRotate(ring, offset);
      FilledRotate(ring, contents, headers, mss, offset);
      WithinRotate(ring, repr, offset);
      WalkFirst(offset);
      count := count - offset;
      ring := b + a;
      sent := sent - offset;
      contents := contents[offset..];
      headers := headers[offset..];
    }

    /** Moves the first cursor offset blocks on. */
    method WalkFirst(offset: int)
      requires Valid() && 0 <= offset <= sent
      modifies this`first
      ensures first == ring[offset]
    {
      var i := 0;
      while i < offset
        invariant 0 <= i <= offset && first == ring[i]
      {
        first := first.next;
        i := i + 1;
      }
    }
  }

  function NextMsgNo(n: int): int {
    if n + 1 == MAX_MSG then 1 else n + 1
  }

  function Frame(i: int, n: int, msgNo: int, inOrder: bool): Header {
    Header(msgNo, inOrder, i == 0, i == n - 1)
  }

  /** The headers of the n blocks of one message. */
  function Frames(n: nat, msgNo: int, inOrder: bool): (hs: seq<Header>)
    ensures |hs| == n && forall i | 0 <= i < n :: hs[i] == Frame(i, n, msgNo, inOrder)
  {
    seq(n, i => Frame(i, n, msgNo, inOrder))
  }
}
