/** The send scheduler (CSndUList): a binary heap of sockets by next send time. Every node knows its own slot. */
module SndUListModule {

  // ----- heap order on the send times -----

  function Parent(i: int): int {
    (i - 1) / 2
  }

  /** No entry is due before its parent, except possibly the one in slot hole. */
  ghost predicate OrderedBut(ks: seq<int>, hole: int) {
    forall i | 1 <= i < |ks| && i != hole :: ks[Parent(i)] <= ks[i]
  }

  ghost predicate Ordered(ks: seq<int>) {
    forall i | 1 <= i < |ks| :: ks[Parent(i)] <= ks[i]
  }

  /** The entries below slot q are not due before the one above it. */
  ghost predicate Bridged(ks: seq<int>, q: int) {
    forall i | 1 <= i < |ks| && q > 0 && Parent(i) == q && Parent(q) < |ks| :: ks[Parent(q)] <= ks[i]
  }

  /** In an ordered heap the root is due first. */
  lemma {:induction false} RootIsMin(ks: seq<int>, i: int)
    requires Ordered(ks) && 0 <= i < |ks|
    ensures ks[0] <= ks[i]
    decreases i
  {
    if i > 0 {
      RootIsMin(ks, Parent(i));
    }
  }

  function Swap(ks: seq<int>, p: int, q: int): (rs: seq<int>)
    requires 0 <= p < |ks| && 0 <= q < |ks|
    ensures |rs| == |ks|
  {
    ks[p := ks[q]][q := ks[p]]
  }

  lemma UpStep(ks: seq<int>, q: int)
    requires 0 < q < |ks| && OrderedBut(ks, q) && Bridged(ks, q) && ks[Parent(q)] > ks[q]
    ensures OrderedBut(Swap(ks, Parent(q), q), Parent(q)) && Bridged(Swap(ks, Parent(q), q), Parent(q))
  {
  }

  lemma UpDone(ks: seq<int>, q: int)
    requires 0 <= q < |ks| && (q > 0 ==> ks[Parent(q)] <= ks[q])
    ensures OrderedBut(ks, q) ==> Ordered(ks)
  {
  }

  /** The entry in slot q moved up until the one above it is not due later. */
  function Risen(ks: seq<int>, q: int): (rs: seq<int>)
    requires 0 <= q < |ks|
    ensures |rs| == |ks|
    decreases q
  {
    if q > 0 && ks[Parent(q)] > ks[q] then Risen(Swap(ks, Parent(q), q), Parent(q)) else ks
  }

  lemma {:induction false} RisenOrder(ks: seq<int>, q: int)
    requires 0 <= q < |ks| && OrderedBut(ks, q) && Bridged(ks, q)
    ensures Ordered(Risen(ks, q))
    decreases q
  {
    hide OrderedBut, Bridged, Ordered, Swap;
    if q > 0 && ks[Parent(q)] > ks[q] {
      UpStep(ks, q);
      RisenOrder(Swap(ks, Parent(q), q), Parent(q));
    } else {
      UpDone(ks, q);
    }
  }

  lemma {:induction false} RisenKeeps(ks: seq<int>, q: int, x: int)
    requires 0 <= q < x < |ks|
    ensures Risen(ks, q)[x] == ks[x]
    decreases q
  {
    if q > 0 && ks[Parent(q)] > ks[q] {
      RisenKeeps(Swap(ks, Parent(q), q), Parent(q), x);
    }
  }

  /** A new entry joins the heap. */
  function Inserted(ks: seq<int>, ts: int): seq<int> {
    Risen(ks + [ts], |ks|)
  }

  lemma InsertedOrder(ks: seq<int>, ts: int)
    requires Ordered(ks)
    ensures Ordered(Inserted(ks, ts))
  {
    RisenOrder(ks + [ts], |ks|);
  }

  /** Slots whose parent is q are the only ones that may be out of order. */
  ghost predicate OrderedAbove(ks: seq<int>, q: int) {
    forall i | 1 <= i < |ks| && Parent(i) != q :: ks[Parent(i)] <= ks[i]
  }

  /** The earlier of the two entries below slot q. */
  function Child(ks: seq<int>, q: int): (p: int)
    requires 0 <= q && 2 * q + 1 < |ks|
    ensures 0 < p < |ks| && Parent(p) == q
    ensures forall i | 1 <= i < |ks| && Parent(i) == q :: ks[p] <= ks[i]
  {
    if 2 * q + 2 < |ks| && ks[2 * q + 1] > ks[2 * q + 2] then 2 * q + 2 else 2 * q + 1
  }

  lemma DownStep(ks: seq<int>, q: int)
    requires 0 <= q && 2 * q + 1 < |ks| && OrderedAbove(ks, q) && Bridged(ks, q) && ks[q] > ks[Child(ks, q)]
    ensures OrderedAbove(Swap(ks, Child(ks, q), q), Child(ks, q)) && Bridged(Swap(ks, Child(ks, q), q), Child(ks, q))
  {
  }

  /** The entry in slot q moved down until neither entry below it is due earlier. */
  function Sunk(ks: seq<int>, q: int): (rs: seq<int>)
    requires 0 <= q
    ensures |rs| == |ks|
    decreases |ks| - q
  {
    if 2 * q + 1 < |ks| && ks[q] > ks[Child(ks, q)] then Sunk(Swap(ks, Child(ks, q), q), Child(ks, q)) else ks
  }

  lemma {:induction false} SunkOrder(ks: seq<int>, q: int)
    requires 0 <= q && OrderedAbove(ks, q) && Bridged(ks, q)
    ensures Ordered(Sunk(ks, q))
    decreases |ks| - q
  {
    hide OrderedAbove, Bridged, Ordered, Swap;
    if 2 * q + 1 < |ks| && ks[q] > ks[Child(ks, q)] {
      DownStep(ks, q);
      SunkOrder(Swap(ks, Child(ks, q), q), Child(ks, q));
    } else {
      DownDone(ks, q);
    }
  }

  lemma ChildIs(ks: seq<int>, q: int, p: int)
    requires 0 <= q && 2 * q + 1 < |ks|
    requires p == if 2 * q + 2 < |ks| && ks[2 * q + 1] > ks[2 * q + 2] then 2 * q + 2 else 2 * q + 1
    ensures p == Child(ks, q)
  {
  }

  lemma DownDone(ks: seq<int>, q: int)
    requires 0 <= q && OrderedAbove(ks, q)
    requires 2 * q + 1 < |ks| ==> ks[q] <= ks[Child(ks, q)]
    ensures Ordered(ks)
  {
  }

  /** Whether the last entry may take the place of entry k. */
  predicate Replaceable(ks: seq<int>, k: int)
    requires 0 <= k < |ks|
  {
    k == 0 || k == |ks| - 1 || ks[|ks| - 1] >= ks[Parent(k)]
  }

  /** Entry k replaced by the last one. */
  function Moved(ks: seq<int>, k: int): seq<int>
    requires 0 <= k < |ks|
  {
    ks[k := ks[|ks| - 1]][..|ks| - 1]
  }

  lemma MovedOrder(ks: seq<int>, k: int)
    requires Ordered(ks) && 0 <= k < |ks|
    ensures Replaceable(ks, k) ==> OrderedAbove(Moved(ks, k), k) && Bridged(Moved(ks, k), k)
    ensures !Replaceable(ks, k) ==>
      && !Ordered(Moved(ks, k))
      && (2 * k + 1 < |ks| - 1 ==> Moved(ks, k)[k] <= Moved(ks, k)[Child(Moved(ks, k), k)])
  {
    var ms := Moved(ks, k);
    if !Replaceable(ks, k) {
      assert ms[Parent(k)] > ms[k];
    }
  }

  /** The heap without entry k: the last one takes its place and moves down. */
  function Removed(ks: seq<int>, k: int): seq<int>
    requires 0 <= k < |ks|
  {
    Sunk(Moved(ks, k), k)
  }

  /** Heap order survives a removal exactly when the last entry fits into the gap; if it does not, it stays there. */
  lemma RemovedOrder(ks: seq<int>, k: int)
    requires Ordered(ks) && 0 <= k < |ks|
    ensures Ordered(Removed(ks, k)) <==> Replaceable(ks, k)
    ensures !Replaceable(ks, k) ==> Removed(ks, k) == Moved(ks, k)
  {
    hide Ordered, OrderedAbove, Bridged, Child;
    MovedOrder(ks, k);
    if Replaceable(ks, k) {
      SunkOrder(Moved(ks, k), k);
    }
  }

  // ----- a removal and a new entry at once -----

  /** Slot x lies on the way from slot q to the root. */
  predicate Above(x: int, q: int)
    decreases q
  {
    x == q || (q > 0 && Above(x, Parent(q)))
  }

  lemma {:induction false} AboveLess(x: int, q: int)
    requires Above(x, q) && 0 <= q
    ensures 0 <= x <= q
    decreases q
  {
    if x != q {
      AboveLess(x, Parent(q));
    }
  }

  /** The last entry does not fit into gap k, but the way up from the last slot leads through the slot above the gap and
      not through the gap, and the entry two above the gap is not due after the last one. */
  predicate Mended(ks: seq<int>, k: int)
    requires 0 < k < |ks|
  {
    var p := Parent(k);
    Above(p, |ks| - 1) && !Above(k, |ks| - 1) && (p == 0 || ks[Parent(p)] <= ks[|ks| - 1])
  }

  /** No entry is due before its parent, except in slot k and possibly in slot q. */
  ghost predicate OrderedButTwo(ks: seq<int>, q: int, k: int) {
    forall i | 1 <= i < |ks| && i != q && i != k :: ks[Parent(i)] <= ks[i]
  }

  /** An entry of time 1 rises from slot q past an entry in slot k that is due before its parent: order is restored
      exactly if the rise pulls an early enough entry down to the parent of k. */
  lemma {:induction false} RiseMends(cs: seq<int>, q: int, k: int)
    requires 0 <= q < |cs| && 0 < k < |cs| && q != k && q != Parent(k) && cs[q] == 1 && forall i | 0 <= i < |cs| :: cs[i] >= 1
    requires OrderedButTwo(cs, q, k) && Bridged(cs, q) && cs[Parent(k)] > cs[k]
    ensures Ordered(Risen(cs, q)) <==>
      Above(Parent(k), q) && !Above(k, q) && (Parent(k) == 0 || cs[Parent(Parent(k))] <= cs[k])
    decreases q
  {
    var p := Parent(k);
    var u := Parent(q);
    if q == 0 {
      StillBad(cs, q, k);
    } else if cs[u] <= 1 {
      StillBad(cs, q, k);
      if Above(p, q) && !Above(k, q) {
        PathOrdered(cs, q, k, p, u);
      }
    } else if u == k {
      PastGap(cs, q, k);
    } else if u == p {
      AtParent(cs, q, k);
    } else {
      RiseOn(cs, q, k);
      RiseMends(Swap(cs, u, q), u, k);
    }
  }

  /** Away from the gap the rise keeps what it needs. */
  lemma RiseOn(cs: seq<int>, q: int, k: int)
    requires 0 < q < |cs| && 0 < k < |cs| && q != k && q != Parent(k) && Parent(q) != k && Parent(q) != Parent(k)
    requires cs[q] == 1 && forall i | 0 <= i < |cs| :: cs[i] >= 1
    requires OrderedButTwo(cs, q, k) && Bridged(cs, q) && cs[Parent(q)] > 1
    ensures
      var u, p := Parent(q), Parent(k);
      var ds := Swap(cs, u, q);
      && ds[u] == 1 && (forall i | 0 <= i < |ds| :: ds[i] >= 1) && OrderedButTwo(ds, u, k) && Bridged(ds, u)
      && ds[p] == cs[p] && ds[k] == cs[k] && (Above(p, q) <==> Above(p, u)) && (Above(k, q) <==> Above(k, u))
      && (Above(p, u) && p > 0 ==> ds[Parent(p)] == cs[Parent(p)])
  {
    if Above(Parent(k), Parent(q)) {
      AboveLess(Parent(k), Parent(q));
    }
  }

  /** The entry in slot k stays due before its parent. */
  lemma StillBad(cs: seq<int>, q: int, k: int)
    requires 0 <= q < |cs| && 0 < k < |cs| && cs[Parent(k)] > cs[k]
    ensures Risen(cs, q) == cs ==> !Ordered(Risen(cs, q))
  {
  }

  /** On the way from p down to slot u, off slot k, entries are not due before the one in p. */
  lemma {:induction false} PathOrdered(cs: seq<int>, q: int, k: int, p: int, u: int)
    requires 0 <= u < q < |cs| && OrderedButTwo(cs, q, k) && Above(p, u) && !Above(k, u)
    ensures 0 <= p <= u && cs[p] <= cs[u]
    decreases u
  {
    if p != u {
      PathOrdered(cs, q, k, p, Parent(u));
    }
  }

  /** The rise through k itself leaves k's entry below its former parent. */
  lemma PastGap(cs: seq<int>, q: int, k: int)
    requires 0 < k < q < |cs| && Parent(q) == k && cs[q] == 1 && cs[Parent(k)] > cs[k] > 1
    ensures !Ordered(Risen(cs, q)) && Above(k, q)
  {
    var p := Parent(k);
    var ds := Swap(cs, k, q);
    var es := Swap(ds, p, k);
    assert Risen(cs, q) == Risen(ds, k) == Risen(es, p);
    RisenKeeps(es, p, k);
    RisenKeeps(es, p, q);
    assert es[k] == cs[p] && es[q] == cs[k];
    assert Above(k, k);
  }

  /** The rise reaches the parent of k from k's sibling q. */
  lemma AtParent(cs: seq<int>, q: int, k: int)
    requires 0 < q < |cs| && 0 < k < |cs| && q != k && Parent(q) == Parent(k) && cs[q] == 1
    requires forall i | 0 <= i < |cs| :: cs[i] >= 1
    requires OrderedButTwo(cs, q, k) && Bridged(cs, q) && cs[Parent(k)] > cs[k]
    ensures Ordered(Risen(cs, q)) <==> Parent(k) == 0 || cs[Parent(Parent(k))] <= cs[k]
    ensures Above(Parent(k), q) && !Above(k, q)
  {
    var p := Parent(k);
    var ds := Swap(cs, p, q);
    assert Risen(cs, q) == Risen(ds, p);
    assert Above(p, p) && Above(p, q);
    if Above(k, p) {
      AboveLess(k, p);
    }
    AtParentOrder(cs, q, k);
    if p > 0 && cs[Parent(p)] > 1 {
      var g := Parent(p);
      var es := Swap(ds, g, p);
      assert Risen(ds, p) == Risen(es, g);
      if cs[g] <= cs[k] {
        AtParentPulled(cs, q, k);
        RisenOrder(es, g);
      } else {
        RisenKeeps(es, g, p);
        RisenKeeps(es, g, k);
        assert es[p] == cs[g] && es[k] == cs[k];
      }
    }
  }

  lemma AtParentOrder(cs: seq<int>, q: int, k: int)
    requires 0 < q < |cs| && 0 < k < |cs| && q != k && Parent(q) == Parent(k) && cs[q] == 1
    requires forall i | 0 <= i < |cs| :: cs[i] >= 1
    requires OrderedButTwo(cs, q, k) && Bridged(cs, q)
    ensures
      var p := Parent(k);
      OrderedBut(Swap(cs, p, q), p) && (p == 0 || cs[Parent(p)] <= 1 ==> Ordered(Swap(cs, p, q)))
  {
  }

  lemma AtParentPulled(cs: seq<int>, q: int, k: int)
    requires 0 < q < |cs| && 0 < k < |cs| && q != k && Parent(q) == Parent(k) && cs[q] == 1
    requires forall i | 0 <= i < |cs| :: cs[i] >= 1
    requires OrderedButTwo(cs, q, k) && Bridged(cs, q) && cs[Parent(k)] > cs[k]
    requires Parent(k) > 0 && cs[Parent(Parent(k))] <= cs[k]
    ensures
      var p, g := Parent(k), Parent(Parent(k));
      var es := Swap(Swap(cs, p, q), g, p);
      OrderedBut(es, g) && Bridged(es, g)
  {
  }

  /** Rescheduling the entry in slot k for time 1: heap order survives exactly if the last entry fits into the gap, or
      the rise of the new one mends what it breaks. */
  lemma RescheduledOrder(ks: seq<int>, k: int)
    requires Ordered(ks) && 0 < k < |ks| && forall i | 0 <= i < |ks| :: ks[i] >= 1
    ensures Ordered(Inserted(Removed(ks, k), 1)) <==> Replaceable(ks, k) || Mended(ks, k)
  {
    hide Sunk;
    RemovedOrder(ks, k);
    if Replaceable(ks, k) {
      InsertedOrder(Removed(ks, k), 1);
    } else {
      GapLeft(ks, k);
      hide Ordered, OrderedButTwo, Bridged, Above;
      RiseMends(Moved(ks, k) + [1], |ks| - 1, k);
    }
  }

  /** The last entry in a gap it does not fit into, and a new entry of time 1. */
  lemma GapLeft(ks: seq<int>, k: int)
    requires Ordered(ks) && 0 < k < |ks| && !Replaceable(ks, k) && forall i | 0 <= i < |ks| :: ks[i] >= 1
    ensures
      var j, cs := |ks| - 1, Moved(ks, k) + [1];
      && k < j && Parent(k) != j && |cs| == |ks| && cs[j] == 1 && (forall i | 0 <= i < |cs| :: cs[i] >= 1)
      && OrderedButTwo(cs, j, k) && Bridged(cs, j)
      && cs[k] == ks[j] && cs[Parent(k)] == ks[Parent(k)] > cs[k]
      && (Parent(k) > 0 ==> cs[Parent(Parent(k))] == ks[Parent(Parent(k))])
  {
    var j, cs := |ks| - 1, Moved(ks, k) + [1];
    assert forall i | 0 <= i < j && i != k :: cs[i] == ks[i];
  }

  class SNode {
    var timeStamp: int
    // slot in the heap, or -1
    var heapLoc: int

    constructor ()
      ensures timeStamp == 1 && heapLoc == -1
    {
      timeStamp := 1;
      heapLoc := -1;
    }
  }

  class SndUList {
    var heap: array<SNode?>
    var lastEntry: int
    // the nodes of all sockets that use this list, those that have a slot, and the send times in slot order
    ghost var nodes: set<SNode>
    ghost var entries: set<SNode>
    ghost var keys: seq<int>

    /** Slots 0..lastEntry hold nodes, each of which knows its slot; the one in slot hole need not. */
    ghost predicate Located(hole: int)
      reads this, heap, nodes
    {
      && -1 <= lastEntry < heap.Length && |keys| == lastEntry + 1
      && (forall i | 0 <= i <= lastEntry ::
            heap[i] != null && heap[i] in nodes && heap[i].timeStamp == keys[i] && (i == hole || heap[i].heapLoc == i))
    }

    /** A node with a slot is in it, and a node without one has -1. */
    ghost predicate Indexed(n: SNode)
      reads this, heap, n
    {
      if n in entries then 0 <= n.heapLoc <= lastEntry < heap.Length && heap[n.heapLoc] == n else n.heapLoc == -1
    }

    /** heapLoc is the exact inverse of the heap array, -1 for nodes that are not in it. */
    ghost predicate Valid()
      reads this, heap, nodes
    {
      && heap.Length > 0 && entries <= nodes
      && Located(-1)
      && (forall n | n in nodes :: Indexed(n))
    }

    /** All but n, which sits in slot q without knowing it. */
    ghost predicate Rising(n: SNode, q: int)
      reads this, heap, nodes
    {
      && heap.Length > 0 && entries <= nodes
      && Located(q) && 0 <= q <= lastEntry && heap[q] == n && n in nodes && n.heapLoc == -1 && n !in entries
      && (forall m | m in nodes && m != n :: Indexed(m))
    }

    /** n has left the slots but does not know it yet. */
    ghost predicate Gone(n: SNode)
      reads this, heap, nodes
    {
      && heap.Length > 0 && entries <= nodes
      && Located(-1) && n in nodes && n !in entries
      && (forall i | 0 <= i <= lastEntry :: heap[i] != n)
      && (forall m | m in nodes && m != n :: Indexed(m))
    }

    constructor ()
      ensures Valid() && entries == {} && nodes == {} && keys == [] && fresh(heap)
    {
      heap := new SNode?[4096](_ => null);
      lastEntry := -1;
      nodes := {};
      entries := {};
      keys := [];
    }

    /** A socket that will use this list. */
    ghost method Register(n: SNode)
      requires Valid() && n !in nodes && n.heapLoc == -1
      modifies this`nodes
      ensures Valid() && nodes == old(nodes) + {n}
    {
      nodes := nodes + {n};
    }

    method SwapUp(n: SNode, p: int, q: int)
      requires Rising(n, q) && 0 <= p < q
      modifies heap, nodes`heapLoc, this`keys
      ensures Rising(n, p) && keys == Swap(old(keys), p, q)
    {
      var t := heap[p];
      heap[p] := heap[q];
      heap[q] := t;
      t.heapLoc := q;
      keys := Swap(keys, p, q);
    }

    method Append(ts: int, n: SNode)
      requires Valid() && n in nodes && n !in entries && lastEntry + 1 < heap.Length
      modifies this`lastEntry, this`keys, heap, n`timeStamp
      ensures lastEntry == old(lastEntry) + 1 && Rising(n, lastEntry)
      ensures keys == old(keys) + [ts] && n.timeStamp == ts && |keys| == lastEntry + 1
    {
      assert Indexed(n);
      lastEntry := lastEntry + 1;
      heap[lastEntry] := n;
      n.timeStamp := ts;
      keys := keys + [ts];
    }

    /** n learns its slot. */
    method Settle(n: SNode, q: int)
      requires Rising(n, q)
      modifies n`heapLoc, this`entries
      ensures Valid() && n.heapLoc == q && entries == old(entries) + {n}
    {
      n.heapLoc := q;
      entries := entries + {n};
    }

    /** Enters n with time ts, unless it is in the heap already. */
    method InsertNode(ts: int, n: SNode)
      requires Valid() && n in nodes && lastEntry + 1 < heap.Length
      modifies this`lastEntry, this`keys, this`entries, heap, n`timeStamp, nodes`heapLoc
      ensures Valid() && entries == old(entries) + {n}
      ensures n.timeStamp == if n in old(entries) then old(n.timeStamp) else ts
      ensures keys == if n in old(entries) then old(keys) else Inserted(old(keys), ts)
      ensures Ordered(old(keys)) ==> Ordered(keys)
    {
      hide Ordered, Risen, Located, Rising;
      assert Indexed(n);
      if n.heapLoc >= 0 {
        return;
      }
      if Ordered(keys) {
        InsertedOrder(keys, ts);
      }
      KeyTotal();
      Append(ts, n);
      Rise(ts, n);
    }

    lemma KeyTotal()
      requires Valid()
      ensures |keys| == lastEntry + 1 <= heap.Length
    {
    }

    /** Moves n up from the last slot until the entry above it is not due later. */
    method Rise(ts: int, n: SNode)
      requires Rising(n, lastEntry) && n.timeStamp == ts && |keys| == lastEntry + 1
      modifies this`keys, this`entries, heap, nodes`heapLoc
      ensures Valid() && entries == old(entries) + {n} && n.timeStamp == ts
      ensures keys == Risen(old(keys), lastEntry)
    {
      hide Swap;
      var q := lastEntry;
      var p := q;
      while p != 0
        invariant p == q && Rising(n, q) && entries == old(entries)
        invariant 0 <= q < |keys| && Risen(old(keys), lastEntry) == Risen(keys, q)
        decreases p
      {
        p := (q - 1) / 2;
        if heap[p].timeStamp > heap[q].timeStamp {
          SwapUp(n, p, q);
          q := p;
        } else {
          break;
        }
      }
      Settle(n, q);
    }

    /** Doubles the array when it is full, then enters n. */
    method Insert(ts: int, n: SNode)
      requires Valid() && n in nodes
      modifies this`heap, this`lastEntry, this`keys, this`entries, heap, n`timeStamp, nodes`heapLoc
      ensures heap.Length == old(heap.Length) * if old(lastEntry == heap.Length - 1) then 2 else 1
      ensures Valid() && entries == old(entries) + {n}
      ensures n.timeStamp == if n in old(entries) then old(n.timeStamp) else ts
      ensures keys == if n in old(entries) then old(keys) else Inserted(old(keys), ts)
      ensures Ordered(old(keys)) ==> Ordered(keys)
    {
      hide Ordered, Risen;
      if lastEntry == heap.Length - 1 {
        Grow();
      }
      InsertNode(ts, n);
    }

    method Grow()
      requires Valid() && lastEntry == heap.Length - 1
      modifies this`heap
      ensures Valid() && lastEntry + 1 < heap.Length == 2 * old(heap.Length) && fresh(heap)
    {
      var temp := new SNode?[heap.Length * 2](_ => null);
      forall i | 0 <= i < heap.Length {
        temp[i] := heap[i];
      }
      heap := temp;
    }

    method SwapDown(n: SNode, p: int, q: int)
      requires Gone(n) && 0 <= q < p <= lastEntry
      modifies heap, nodes`heapLoc, this`keys
      ensures Gone(n) && keys == Swap(old(keys), p, q) && |keys| == |old(keys)| && n.heapLoc == old(n.heapLoc)
    {
      var t := heap[p];
      heap[p] := heap[q];
      heap[p].heapLoc := p;
      heap[q] := t;
      heap[q].heapLoc := q;
      keys := Swap(keys, p, q);
    }

    /** The last entry takes n's slot. */
    method Refill(n: SNode)
      requires Valid() && n in entries
      modifies this`lastEntry, this`keys, this`entries, heap, nodes`heapLoc
      ensures lastEntry == old(lastEntry) - 1 && Gone(n) && 0 <= n.heapLoc == old(n.heapLoc) <= old(lastEntry)
      ensures |old(keys)| == old(lastEntry) + 1 && keys == Moved(old(keys), n.heapLoc)
      ensures entries == old(entries) - {n}
    {
      assert Indexed(n);
      heap[n.heapLoc] := heap[lastEntry];
      lastEntry := lastEntry - 1;
      heap[n.heapLoc].heapLoc := n.heapLoc;
      keys := Moved(keys, n.heapLoc);
      entries := entries - {n};
    }

    lemma KeyCount(n: SNode)
      requires Gone(n)
      ensures |keys| == lastEntry + 1
    {
    }

    /** The earlier entry below slot q, and whether it is due before the one in q. */
    method EarlierChild(n: SNode, q: int) returns (p: int, sinks: bool)
      requires Gone(n) && 0 <= q && 2 * q + 1 <= lastEntry
      ensures 2 * q + 1 < |keys| && q < p <= lastEntry && p == Child(keys, q)
      ensures sinks <==> keys[q] > keys[p]
    {
      p := q * 2 + 1;
      if p + 1 <= lastEntry && heap[p].timeStamp > heap[p + 1].timeStamp {
        p := p + 1;
      }
      ChildIs(keys, q, p);
      sinks := heap[q].timeStamp > heap[p].timeStamp;
    }

    /** Moves the entry in slot k down until neither entry below it is due earlier. */
    method SiftDown(n: SNode, k: int)
      requires Gone(n) && 0 <= k
      modifies heap, nodes`heapLoc, this`keys
      ensures Gone(n) && n.heapLoc == old(n.heapLoc)
      ensures keys == Sunk(old(keys), k)
    {
      hide Swap, Child, Gone;
      KeyCount(n);
      var q := k;
      var p := q * 2 + 1;
      while p <= lastEntry
        invariant 0 <= q && p == 2 * q + 1 && Gone(n) && n.heapLoc == old(n.heapLoc)
        invariant |keys| == lastEntry + 1 && Sunk(old(keys), k) == Sunk(keys, q)
        decreases lastEntry - q
      {
        var sinks;
        p, sinks := EarlierChild(n, q);
        if sinks {
          SwapDown(n, p, q);
          q := p;
          p := q * 2 + 1;
        } else {
          break;
        }
      }
    }

    /** Takes n out of the heap. Heap order survives exactly when the last entry fits into n's place. */
    method RemoveNode(n: SNode)
      requires Valid() && n in nodes
      modifies this`lastEntry, this`keys, this`entries, heap, nodes`heapLoc
      ensures Valid() && entries == old(entries) - {n}
      ensures n !in old(entries) ==> keys == old(keys)
      ensures n in old(entries) ==> 0 <= old(n.heapLoc) < |old(keys)| && keys == Removed(old(keys), old(n.heapLoc))
      ensures lastEntry == old(lastEntry) - if n in old(entries) then 1 else 0
      ensures n in old(entries) && Ordered(old(keys)) ==>
        (Ordered(keys) <==> Replaceable(old(keys), old(n.heapLoc)))
    {
      hide Ordered, Replaceable, Sunk;
      assert Indexed(n);
      if n.heapLoc >= 0 {
        if Ordered(keys) {
          RemovedOrder(keys, n.heapLoc);
        }
        Refill(n);
        SiftDown(n, n.heapLoc);
        n.heapLoc := -1;
      }
    }

    /** Schedules n at once: a waiting root is due now, any other entry is entered anew. Only Insert makes room: with no
        free slot for n the code writes past the end of the array (ok is false). */
    method Update(n: SNode, reschedule: bool) returns (ok: bool)
      requires Valid() && n in nodes
      modifies this`lastEntry, this`keys, this`entries, heap, n`timeStamp, nodes`heapLoc
      ensures Valid()
      ensures ok <==> n in old(entries) || old(lastEntry) + 1 < heap.Length
      ensures !ok ==> entries == old(entries) && keys == old(keys)
      ensures ok ==> entries == old(entries) + {n} && (n !in old(entries) || reschedule ==> n.timeStamp == 1)
      ensures n in old(entries) && !reschedule ==> keys == old(keys) && n.timeStamp == old(n.timeStamp)
      ensures forall m | m in nodes && m != n :: m.timeStamp == old(m.timeStamp)
      ensures n in old(entries) ==> 0 <= old(n.heapLoc) < |old(keys)|
      ensures ok ==> keys == if n in old(entries) then Rescheduled(old(keys), old(n.heapLoc), reschedule)
                             else Inserted(old(keys), 1)
    {
      hide Ordered, Risen, Sunk, Located;
      assert Indexed(n);
      KeyTotal();
      if n.heapLoc >= 0 {
        if !reschedule {
          return true;
        }
        if n.heapLoc == 0 {
          Hasten(n);
          return true;
        }
        RemoveNode(n);
      }
      if lastEntry + 1 == heap.Length {
        return false;
      }
      InsertNode(1, n);
      ok := true;
    }

    /** The root is due now. */
    method Hasten(n: SNode)
      requires Valid() && n in entries && n.heapLoc == 0 && |keys| > 0
      modifies this`keys, n`timeStamp
      ensures Valid() && keys == old(keys)[0 := 1] && n.timeStamp == 1
    {
      assert Indexed(n);
      n.timeStamp := 1;
      keys := keys[0 := 1];
    }

    /** The scheduler's turn at time now: the earliest entry, if it is due, gives way to its next send time (none if
        that is 0, the socket is closed, or it has nothing to send). */
    method Pop(now: int, open: bool, packed: bool, nextTime: int) returns (n: SNode?)
      requires Valid()
      modifies this`lastEntry, this`keys, this`entries, heap, nodes
      ensures Valid()
      ensures n == null ==> entries == old(entries) && keys == old(keys) && (keys == [] || now < keys[0])
      ensures n != null ==> n in old(entries) && n == old(if lastEntry >= 0 then heap[0] else null) && old(n.timeStamp) <= now
      ensures n != null ==> entries == if open && packed && nextTime > 0 then old(entries) else old(entries) - {n}
      ensures n != null && open && packed && nextTime > 0 ==> n.timeStamp == nextTime
      ensures n != null && !(open && packed && nextTime > 0) ==> n.timeStamp == old(n.timeStamp)
      ensures forall m | m in nodes && m != n :: m.timeStamp == old(m.timeStamp)
      ensures n != null ==> |old(keys)| > 0 && old(n.timeStamp) == old(keys)[0]
      ensures n != null ==> keys == if open && packed && nextTime > 0 then Inserted(Removed(old(keys), 0), nextTime)
                                    else Removed(old(keys), 0)
      ensures Ordered(old(keys)) ==> Ordered(keys)
      ensures n != null && Ordered(old(keys)) ==> forall m | m in old(entries) :: old(n.timeStamp) <= old(m.timeStamp)
    {
      hide Ordered, Risen, Sunk;
      n := null;
      if lastEntry == -1 || now < heap[0].timeStamp {
        return;
      }
      n := heap[0];
      RootFirst();
      FirstFits(keys);
      RemoveNode(n);
      if !open || !packed {
        return;
      }
      if nextTime > 0 {
        InsertNode(nextTime, n);
      }
    }

    /** getNextProcTime. */
    method NextTime() returns (t: int)
      requires Valid()
      ensures t == if keys == [] then 0 else keys[0]
    {
      if lastEntry == -1 {
        return 0;
      }
      t := heap[0].timeStamp;
    }

    method At(i: int) returns (n: SNode)
      requires Valid() && 0 <= i < |keys|
      ensures n in entries && n in nodes && n.heapLoc == i
    {
      n := heap[i];
      assert Indexed(n);
    }

    /** The root has the smallest send time of all entries. */
    lemma RootFirst()
      requires Valid() && lastEntry >= 0
      ensures heap[0] in entries
      ensures Ordered(keys) ==> forall m | m in entries :: heap[0].timeStamp <= m.timeStamp
    {
      hide Ordered;
      assert heap[0] in nodes && Indexed(heap[0]);
      if Ordered(keys) {
        forall m | m in entries ensures heap[0].timeStamp <= m.timeStamp {
          assert Indexed(m);
          RootIsMin(keys, m.heapLoc);
        }
      }
    }
  }

  /** Update on the entry in slot k. */
  function Rescheduled(ks: seq<int>, k: int, reschedule: bool): seq<int>
    requires 0 <= k < |ks|
  {
    if !reschedule then ks else if k == 0 then ks[0 := 1] else Inserted(Removed(ks, k), 1)
  }

  /** When update keeps heap order, if no entry is due before time 1. */
  lemma UpdateOrder(ks: seq<int>, k: int, reschedule: bool)
    requires Ordered(ks) && 0 <= k < |ks| && forall i | 0 <= i < |ks| :: ks[i] >= 1
    ensures Ordered(Rescheduled(ks, k, reschedule)) <==>
      !reschedule || k == 0 || Replaceable(ks, k) || Mended(ks, k)
  {
    if reschedule {
      if k > 0 {
        hide Ordered, Inserted, Removed, Replaceable, Mended;
        RescheduledOrder(ks, k);
      }
    }
  }

  lemma FirstFits(ks: seq<int>)
    requires |ks| > 0
    ensures Replaceable(ks, 0)
  {
  }

  // ----- a run in which the scheduler takes a later entry first -----

  /** A new socket is scheduled at time ts. */
  method Enter(l: SndUList, ts: int) returns (n: SNode)
    requires l.Valid()
    modifies l`heap, l`nodes, l`lastEntry, l`keys, l`entries, l.heap, l.nodes`heapLoc
    ensures l.Valid() && l.keys == Inserted(old(l.keys), ts) && n.timeStamp == ts
    ensures l.entries == old(l.entries) + {n} && fresh(n) && l.nodes == old(l.nodes) + {n}
    ensures l.heap == old(l.heap) || fresh(l.heap)
  {
    hide Inserted, Ordered;
    n := new SNode();
    l.Register(n);
    l.Insert(ts, n);
  }

  lemma InsertedLast(ks: seq<int>, ts: int)
    requires ks == [] || ks[Parent(|ks|)] <= ts
    ensures Inserted(ks, ts) == ks + [ts]
  {
  }

  /** Sockets scheduled in heap order stay in that order. */
  method EnterAll(ts: seq<int>) returns (l: SndUList)
    requires Ordered(ts)
    ensures fresh(l) && fresh(l.heap) && fresh(l.nodes) && l.Valid() && l.keys == ts
  {
    hide Inserted, SndUList.Valid;
    l := new SndUList();
    for i := 0 to |ts|
      invariant fresh(l) && fresh(l.heap) && fresh(l.nodes) && l.Valid() && l.keys == ts[..i]
    {
      InsertedLast(ts[..i], ts[i]);
      var n := Enter(l, ts[i]);
    }
  }

  /** Of seven sockets in heap order the one in slot 3 is removed; the heap is out of order afterwards. */
  method MiddleRemoval() returns (l: SndUList)
    ensures fresh(l) && fresh(l.heap) && fresh(l.nodes) && l.Valid()
    ensures l.keys == [1, 10, 2, 3, 12, 20] && !Ordered(l.keys)
  {
    hide Removed, SndUList.Valid;
    OneRemoved();
    l := EnterAll([1, 10, 2, 11, 12, 20, 3]);
    var n := l.At(3);
    l.RemoveNode(n);
  }

  lemma OneRemoved()
    ensures
      var ks := [1, 10, 2, 11, 12, 20, 3];
      var rs := [1, 10, 2, 3, 12, 20];
      Removed(ks, 3) == rs && Ordered(ks) && rs[Parent(3)] > rs[3]
  {
    var ks := [1, 10, 2, 11, 12, 20, 3];
    MovedOrder(ks, 3);
    assert Moved(ks, 3) == [1, 10, 2, 3, 12, 20];
  }

  lemma TwoTaken()
    ensures Removed([1, 10, 2, 3, 12, 20], 0) == [2, 10, 20, 3, 12]
    ensures Removed([2, 10, 20, 3, 12], 0) == [10, 3, 20, 12]
    ensures Removed([10, 3, 20, 12], 0) == [3, 12, 20]
  {
    var a, b, c := [20, 10, 2, 3, 12], [12, 10, 20, 3], [12, 3, 20];
    assert Moved([1, 10, 2, 3, 12, 20], 0) == a && Swap(a, 2, 0) == [2, 10, 20, 3, 12];
    assert Moved([2, 10, 20, 3, 12], 0) == b && Swap(b, 1, 0) == [10, 12, 20, 3];
    assert Swap([10, 12, 20, 3], 3, 1) == [10, 3, 20, 12];
    assert Moved([10, 3, 20, 12], 0) == c && Swap(c, 1, 0) == [3, 12, 20];
  }

  /** After that removal the scheduler takes the entry due at 10 before the one due at 3. */
  method MiddleRemovalBreaksOrder() returns (first: int, second: int)
    ensures first == 10 && second == 3
  {
    hide Inserted, Removed, Ordered;
    var l := MiddleRemoval();
    TwoTaken();
    var n := l.Pop(100, false, false, 0);
    n := l.Pop(100, false, false, 0);
    first := l.NextTime();
    n := l.Pop(100, false, false, 0);
    second := l.NextTime();
  }
}
