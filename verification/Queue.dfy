/** The intrusive circular list of queue.h: a head and its members, linked both ways. */
module Queue {
  import opened Collections

  /** The link of a queue, with the structure it is embedded in. */
  class Link<T> {
    var next: Link<T>
    var prev: Link<T>
    var data: T
    // of a head: itself and the members, in order
    ghost var ring: seq<Link<T>>

    constructor (d: T)
      ensures Holds(this) && ring == [this] && data == d
    {
      next := this;
      prev := this;
      data := d;
      ring := [this];
    }
  }

  /** Every link points to the one after it, the last one to the first. */
  ghost predicate Chained<T>(all: seq<Link<T>>)
    reads all
  {
    forall i {:trigger all[i].next} | 0 <= i < |all| ::
      all[i].next == (if i + 1 < |all| then all[i + 1] else all[0])
  }

  ghost predicate BackChained<T>(all: seq<Link<T>>)
    reads all
  {
    forall i {:trigger all[i].prev} | 0 <= i < |all| ::
      all[i].prev == (if i > 0 then all[i - 1] else all[|all| - 1])
  }

  /** h is the head of a queue with members ring[1..]. */
  ghost predicate Holds<T>(h: Link<T>)
    reads h, h.ring
  {
    && |h.ring| > 0 && h.ring[0] == h
    && Distinct(h.ring) && Chained(h.ring) && BackChained(h.ring)
  }

  method Empty<T>(h: Link<T>) returns (b: bool)
    requires Holds(h)
    ensures b <==> |h.ring| == 1
  {
    b := h == h.next;
  }

  method Head<T>(h: Link<T>) returns (q: Link<T>)
    requires Holds(h) && |h.ring| > 1
    ensures q == h.ring[1]
  {
    q := h.next;
  }

  method InsertTail<T>(h: Link<T>, q: Link<T>)
    requires Holds(h) && q !in h.ring
    modifies q`next, q`prev, h.ring`next, h.ring`prev, h`ring
    ensures Holds(h) && h.ring == old(h.ring) + [q]
  {
    q.next := h;
    q.prev := h.prev;
    q.prev.next := q;
    h.prev := q;
    h.ring := h.ring + [q];
  }

  /** Takes q, the i-th member of the queue of h, out. */
  method Remove<T>(q: Link<T>, ghost h: Link<T>, ghost i: int)
    requires Holds(h) && 0 < i < |h.ring| && h.ring[i] == q
    modifies h.ring`next, h.ring`prev, h`ring
    ensures Holds(h) && h.ring == Without(old(h.ring), i)
  {
    hide Distinct, Chained, BackChained;
    WithoutDistinct(h.ring, i);
    PassNext(q, h.ring, i);
    PassPrev(q, h.ring, i);
    Settle(h, Without(h.ring, i));
  }

  ghost method Settle<T>(h: Link<T>, all: seq<Link<T>>)
    requires |all| > 0 && all[0] == h && Distinct(all) && Chained(all) && BackChained(all)
    modifies h`ring
    ensures Holds(h) && h.ring == all
  {
    h.ring := all;
  }

  lemma WithoutGone<T>(all: seq<Link<T>>, i: int)
    requires Distinct(all) && 0 <= i < |all|
    ensures forall j | 0 <= j < |all| - 1 :: Without(all, i)[j] != all[i]
  {
  }

  method PassNext<T>(q: Link<T>, ghost all: seq<Link<T>>, ghost i: int)
    requires Distinct(all) && Chained(all) && BackChained(all) && 0 < i < |all| && all[i] == q
    modifies all`next
    ensures Chained(Without(all, i)) && BackChained(all) && q.next == old(q.next)
    ensures q.next == all[if i + 1 < |all| then i + 1 else 0]
  {
    q.prev.next := q.next;
  }

  method PassPrev<T>(q: Link<T>, ghost all: seq<Link<T>>, ghost i: int)
    requires Distinct(all) && BackChained(all) && 0 < i < |all| && all[i] == q
    requires q.next == all[if i + 1 < |all| then i + 1 else 0] && Chained(Without(all, i))
    modifies all`prev
    ensures Chained(Without(all, i)) && BackChained(Without(all, i))
  {
    q.next.prev := q.prev;
  }
}
