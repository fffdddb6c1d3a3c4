/** The receive timer list (CRcvUList): the sockets of one receive queue in a doubly linked list, least recently
    served first, and the sweep over the stale ones (CRcvQueue::worker). */
module RcvUListModule {
  import opened Collections

  class RNode {
    var timeStamp: int
    var prev: RNode?
    var next: RNode?
    var onList: bool

    constructor ()
      ensures !onList && prev == null && next == null
    {
      timeStamp := 1;
      prev := null;
      next := null;
      onList := false;
    }
  }

  ghost predicate Linked(ns: seq<RNode>)
    reads ns
  {
    forall i {:trigger ns[i].next} {:trigger ns[i].prev} | 0 <= i < |ns| ::
      && ns[i].next == (if i + 1 < |ns| then ns[i + 1] else null)
      && ns[i].prev == (if i > 0 then ns[i - 1] else null)
  }

  ghost predicate Sorted(ts: seq<int>) {
    forall i, j | 0 <= i < j < |ts| :: ts[i] <= ts[j]
  }

  ghost predicate NoLater(ts: seq<int>, now: int) {
    forall i | 0 <= i < |ts| :: ts[i] <= now
  }

  /** Every node on the list is marked, and was last served at these times. */
  ghost predicate Marked(ns: seq<RNode>, ts: seq<int>)
    reads ns
  {
    && |ns| == |ts|
    && forall i | 0 <= i < |ns| :: ns[i].onList && ns[i].timeStamp == ts[i]
  }

  lemma WithoutSorted(ts: seq<int>, i: int, now: int)
    requires Sorted(ts) && NoLater(ts, now) && 0 <= i < |ts|
    ensures Sorted(Without(ts, i)) && NoLater(Without(ts, i), now)
    ensures Sorted(Without(ts, i) + [now]) && NoLater(Without(ts, i) + [now], now)
  {
  }

  lemma AppendSorted(ts: seq<int>, now: int)
    requires Sorted(ts) && NoLater(ts, now)
    ensures Sorted(ts + [now]) && NoLater(ts + [now], now)
  {
  }

  lemma LaterStill(ts: seq<int>, now: int, later: int)
    requires NoLater(ts, now) && now <= later
    ensures NoLater(ts, later)
  {
  }

  class RcvUList {
    var head: RNode?
    var last: RNode?
    // the nodes in order, and when each was last served
    ghost var list: seq<RNode>
    ghost var times: seq<int>

    ghost predicate Ends()
      reads this
    {
      && head == (if list == [] then null else list[0])
      && last == (if list == [] then null else list[|list| - 1])
    }

    ghost predicate Valid(now: int)
      reads this, list
    {
      && Distinct(list) && Linked(list) && Ends()
      && Marked(list, times) && Sorted(times) && NoLater(times, now)
    }

    constructor ()
      ensures Valid(0) && list == []
    {
      head := null;
      last := null;
      list := [];
      times := [];
    }

    /** A new socket goes to the end. */
    method Insert(n: RNode, now: int)
      requires Valid(now) && n !in list && n.onList
      modifies this, n, last
      ensures Valid(now) && list == old(list) + [n] && times == old(times) + [now]
    {
      hide Sorted, NoLater, Distinct, Linked;
      AppendSorted(times, now);
      DistinctSnoc(list, n);
      Stamp(n, now);
      LinkLast(n);
      times := times + [now];
    }

    method Stamp(n: RNode, now: int)
      requires Linked(list) && Marked(list, times) && n !in list && n.onList
      modifies n`timeStamp
      ensures Linked(list) && Marked(list + [n], times + [now])
    {
      n.timeStamp := now;
    }

    /** Links n in at the end. */
    method LinkLast(n: RNode)
      requires Linked(list) && Ends() && Distinct(list + [n])
      modifies this`head, this`last, this`list, n`prev, n`next, list[if list == [] then 0 else |list| - 1..]`next
      ensures list == old(list) + [n] && Linked(list) && Ends()
    {
      ghost var was := list;
      assert (was + [n])[|was|] == n;
      assert forall i | 0 <= i < |was| :: was[i] == (was + [n])[i] != n;
      if head == null {
        n.prev := null;
        n.next := null;
        last := n;
        head := n;
      } else {
        n.prev := last;
        n.next := null;
        last.next := n;
        last := n;
      }
      list := list + [n];
    }

    /** Takes the i-th node out of the links, its own aside. */
    method Unlink(n: RNode, ghost i: int)
      requires Distinct(list) && Linked(list) && Ends() && 0 <= i < |list| && list[i] == n
      modifies this`head, this`last, this`list, list`next, list`prev
      ensures list == Without(old(list), i) && Linked(list) && Ends()
    {
      hide Without;
      ghost var was := list;
      if n.prev == null {
        head := n.next;
        if head == null {
          last := null;
        } else {
          head.prev := null;
        }
      } else {
        n.prev.next := n.next;
        if n.next == null {
          last := n.prev;
        } else {
          n.next.prev := n.prev;
        }
      }
      list := Without(list, i);
      forall j | 0 <= j < |list|
        ensures list[j].next == (if j + 1 < |list| then list[j + 1] else null)
        ensures list[j].prev == (if j > 0 then list[j - 1] else null)
      {
        assert list[j] == was[if j < i then j else j + 1];
      }
    }

    /** Links n in behind the last node. */
    method Relink(n: RNode)
      requires list != [] && Linked(list) && Ends() && Distinct(list + [n])
      modifies this`last, this`list, n`prev, n`next, last`next
      ensures list == old(list) + [n] && Linked(list) && Ends()
    {
      assert (list + [n])[|list|] == n;
      assert forall i | 0 <= i < |list| :: list[i] == (list + [n])[i] != n;
      n.prev := last;
      n.next := null;
      last.next := n;
      last := n;
      list := list + [n];
    }

    /** Unlinks n, the i-th node, unless it is not on the list. */
    method Remove(n: RNode, now: int, ghost i: int)
      requires Valid(now) && (n.onList ==> 0 <= i < |list| && list[i] == n)
      modifies this, list`next, list`prev
      ensures Valid(now)
      ensures list == if n.onList then Without(old(list), i) else old(list)
      ensures times == if n.onList then Without(old(times), i) else old(times)
    {
      hide Sorted, NoLater, Distinct, Linked;
      if !n.onList {
        return;
      }
      ghost var was := list;
      WithoutDistinct(list, i);
      WithoutSorted(times, i, now);
      Unlink(n, i);
      Clear(n);
      times := Without(times, i);
    }

    method Clear(n: RNode)
      requires Linked(list) && forall j | 0 <= j < |list| :: list[j] != n
      modifies n`next, n`prev
      ensures Linked(list)
    {
      n.next := null;
      n.prev := null;
    }

    /** n, the i-th node, was served at time now: it moves to the end, unless it is not on the list. */
    method Update(n: RNode, now: int, ghost i: int)
      requires Valid(now) && (n.onList ==> 0 <= i < |list| && list[i] == n)
      modifies this, list`next, list`prev, n`timeStamp
      ensures Valid(now)
      ensures list == if n.onList then Without(old(list), i) + [n] else old(list)
      ensures times == if n.onList then Without(old(times), i) + [now] else old(times)
    {
      hide Sorted, NoLater, Distinct, Linked, Marked;
      if !n.onList {
        return;
      }
      Lengths();
      WithoutDistinct(list, i);
      WithoutSorted(times, i, now);
      Touch(n, now, i);
      LastHasNoNext(i);
      times := Without(times, i) + [now];
      if n.next == null {
        assert list == Without(list, i) + [n];
        return;
      }
      MoveToEnd(n, i);
    }

    method MoveToEnd(n: RNode, ghost i: int)
      requires Distinct(list) && Linked(list) && Ends() && 0 <= i < |list| - 1 && list[i] == n
      requires Marked(Without(list, i) + [n], times)
      modifies this`head, this`last, this`list, list`next, list`prev
      ensures list == Without(old(list), i) + [n] && Linked(list) && Ends() && Marked(list, times)
    {
      hide Distinct, Linked;
      WithoutDistinct(list, i);
      Unlink(n, i);
      Relink(n);
    }

    method Touch(n: RNode, now: int, ghost i: int)
      requires Distinct(list) && Linked(list) && Marked(list, times) && 0 <= i < |list| && list[i] == n
      modifies n`timeStamp
      ensures Linked(list) && n.timeStamp == now
      ensures Marked(Without(list, i) + [n], Without(times, i) + [now])
    {
      WithoutDistinct(list, i);
      n.timeStamp := now;
    }

    lemma Lengths()
      requires Marked(list, times)
      ensures |times| == |list|
    {
    }

    lemma LastHasNoNext(i: int)
      requires Linked(list) && 0 <= i < |list|
      ensures list[i].next == null <==> i == |list| - 1
    {
    }

    /** Serves the first socket: to the end of the list if it is open, off the list otherwise. */
    method ServeHead(open: set<RNode>, now: int, later: int, ghost all: set<RNode>)
      requires Valid(now) && now <= later && list != [] && forall n | n in list :: n in all
      modifies this, all`next, all`prev, head`timeStamp, head`onList
      ensures Valid(later)
      ensures list == old(list)[1..] + (if old(list)[0] in open then [old(list)[0]] else [])
      ensures times == old(times)[1..] + (if old(list)[0] in open then [later] else [])
      ensures old(list)[0] !in open ==> !old(list)[0].onList
    {
      hide Sorted, NoLater, Distinct, Linked;
      Lengths();
      LaterStill(times, now, later);
      assert Without(list, 0) == list[1..] && Without(times, 0) == times[1..];
      if head in open {
        Update(head, later, 0);
      } else {
        DropHead(head, later);
      }
    }

    method DropHead(n: RNode, now: int)
      requires Valid(now) && list != [] && n == head
      modifies this, list`next, list`prev, n`onList
      ensures Valid(now) && !n.onList
      ensures |old(list)| == |old(times)| && list == Without(old(list), 0) && times == Without(old(times), 0)
    {
      hide Sorted, NoLater, Distinct, Linked;
      WithoutDistinct(list, 0);
      Lengths();
      Remove(n, now, 0);
      Drop(n);
    }

    method Drop(n: RNode)
      requires Linked(list) && Marked(list, times) && forall i | 0 <= i < |list| :: list[i] != n
      modifies n`onList
      ensures Linked(list) && Marked(list, times) && !n.onList
    {
      n.onList := false;
    }

    /** The worker's timer check: as long as the head was last served before ctime, it is served. elapsed(i) is the
        time that passes before the i-th service, and served counts them. */
    method Sweep(age: int, open: set<RNode>, currtime: int, elapsed: nat -> nat) returns (now: int, served: int)
      requires Valid(currtime) && age > 0
      modifies this, set n | n in list
      ensures currtime <= now && Valid(now)
      ensures 0 <= served <= |old(list)| == |old(times)|
      ensures forall i | 0 <= i < |old(times)| :: old(times)[i] < currtime - age <==> i < served
      ensures list == old(list)[served..] + Kept(old(list)[..served], open)
      ensures forall i | 0 <= i < |times| :: times[i] >= currtime - age
      ensures forall i | 0 <= i < served && old(list)[i] !in open :: !old(list)[i].onList
    {
      hide Valid, Sorted, NoLater, Kept;
      HeadFacts(currtime);
      ghost var ns, ts, late := list, times, [];
      ghost var all := set n | n in list;
      var ctime := currtime - age;
      now := currtime;
      served := 0;
      SweepStart(ns, ts, open);
      while head != null && head.timeStamp < ctime
        invariant Valid(now) && currtime <= now && 0 <= served <= |ns|
        invariant list == ns[served..] + Kept(ns[..served], open) && times == ts[served..] + late
        invariant forall t | t in late :: t >= currtime
        invariant forall i | 0 <= i < served :: ts[i] < ctime
        invariant forall n | n in list :: n in all
        invariant forall i | 0 <= i < served && ns[i] !in open :: !ns[i].onList
        decreases |ns| - served
      {
        HeadFacts(now);
        var later := now + elapsed(served);
        ghost var es := if head in open then [later] else [];
        SweepStep(ns, ts, open, served, late, es, ctime);
        assert list[0] in list;
        ServeHead(open, now, later, all);
        late := late + es;
        now := later;
        served := served + 1;
      }
      HeadFacts(now);
      SweepEnd(ns, ts, served, late, ctime);
    }

    lemma HeadFacts(now: int)
      requires Valid(now)
      ensures |times| == |list| && (head == null <==> list == []) && Sorted(times)
      ensures head != null ==> head == list[0] && head.timeStamp == times[0]
    {
      hide Sorted, NoLater, Distinct, Linked;
    }
  }

  /** The open ones among the nodes, in order. */
  function Kept(ns: seq<RNode>, open: set<RNode>): (r: seq<RNode>)
    ensures forall n | n in r :: n in ns && n in open
  {
    if ns == [] then []
    else Kept(ns[..|ns| - 1], open) + if ns[|ns| - 1] in open then [ns[|ns| - 1]] else []
  }

  lemma SweepStart(ns: seq<RNode>, ts: seq<int>, open: set<RNode>)
    ensures ns == ns[0..] + Kept(ns[..0], open) && ts == ts[0..] + []
  {
  }

  lemma SweepStep(ns: seq<RNode>, ts: seq<int>, open: set<RNode>, k: int, late: seq<int>, es: seq<int>, ctime: int)
    requires 0 <= k <= |ns| == |ts|
    requires |ns[k..] + Kept(ns[..k], open)| == |ts[k..] + late| > 0
    requires (ts[k..] + late)[0] < ctime && forall t | t in late :: t >= ctime
    ensures k < |ns| && ts[k] < ctime
    ensures
      var n := ns[k];
      var e := if n in open then [n] else [];
      && n == (ns[k..] + Kept(ns[..k], open))[0]
      && (ns[k..] + Kept(ns[..k], open))[1..] + e == ns[k + 1..] + Kept(ns[..k + 1], open)
    ensures (ts[k..] + late)[1..] + es == ts[k + 1..] + (late + es)
  {
    var all := ts[k..] + late;
    forall i | |ns| - k <= i < |all| ensures all[i] >= ctime {
      var t := late[i - (|ns| - k)];
      assert all[i] == t && t in late;
    }
    assert ns[..k + 1][..k] == ns[..k];
  }

  lemma SweepEnd(ns: seq<RNode>, ts: seq<int>, k: int, late: seq<int>, ctime: int)
    requires 0 <= k <= |ns| == |ts| && Sorted(ts[k..] + late)
    requires ts[k..] + late != [] ==> (ts[k..] + late)[0] >= ctime
    requires forall i | 0 <= i < k :: ts[i] < ctime
    ensures forall i | 0 <= i < |ts| :: ts[i] < ctime <==> i < k
    ensures forall i | 0 <= i < |ts[k..] + late| :: (ts[k..] + late)[i] >= ctime
  {
    var all := ts[k..] + late;
    forall i | k <= i < |ts| ensures ts[i] >= ctime {
      assert all[i - k] == ts[i];
    }
  }
}
