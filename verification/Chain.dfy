/** The layout both loss lists share: a chain of runs stored in parallel static arrays. A run starting at number x
    sits in the slot x - origin modulo the array size; an unused slot holds -1 in both data arrays. */
module Chain {
  import opened SeqNo
  import opened Ring
  import opened Runs

  const NIL: int := -1

  /** first: lowest lo or NIL; hi: the end of each run; succ, pred: the neighbouring runs' lo, or NIL;
      origin: the number that sits in slot 0; owner: for each slot in use, the lo stored there. */
  datatype Chain = Chain(first: int, hi: map<int, int>, succ: map<int, int>, pred: map<int, int>,
                         origin: int, owner: map<int, int>)

  /** Run x is sane and linked both ways to its neighbours; only the run at loose may reach past its successor. */
  ghost predicate Link(c: Chain, loose: int, x: int) {
    x in c.hi ==>
      && x in c.succ && x in c.pred
      && 0 <= c.first <= x <= c.hi[x]
      && (c.succ[x] != NIL ==>
            && c.succ[x] in c.hi && c.succ[x] in c.pred && c.pred[c.succ[x]] == x
            && x < c.succ[x] && (x != loose ==> c.hi[x] < c.succ[x]))
      && (c.pred[x] == NIL <==> x == c.first)
      && (c.pred[x] != NIL ==>
            c.pred[x] in c.hi && c.pred[x] in c.succ && c.succ[c.pred[x]] == x && c.pred[x] < x)
  }

  /** No run lies strictly between x and its successor. */
  ghost predicate Consecutive(c: Chain, x: int, y: int) {
    x in c.hi && x in c.succ && y in c.hi && x < y ==> c.succ[x] != NIL && c.succ[x] <= y
  }

  /** The runs in increasing order and disjoint, except that the run at loose may reach past its successor. */
  ghost predicate Chained(c: Chain, loose: int) {
    && c.hi.Keys == c.succ.Keys == c.pred.Keys
    && (c.first != NIL ==> c.first in c.hi)
    && (forall x {:trigger Link(c, loose, x)} :: Link(c, loose, x))
    && (forall x, y {:trigger Consecutive(c, x, y)} :: Consecutive(c, x, y))
  }

  /** lo..hi fits in the arrays and inside the comparison threshold. */
  predicate Spans(lo: int, hi: int, size: int) {
    hi - lo < size && hi - lo < SEQ_TH
  }

  ghost predicate Spanned(c: Chain, size: int) {
    forall x | x in c.hi :: Spans(c.first, c.hi[x], size)
  }

  function At(c: Chain, size: int, x: int): (s: int)
    requires size > 0
    ensures 0 <= s < size
  {
    Slot(x, c.origin, size)
  }

  function Loc(c: Chain, size: int, x: int): int
    requires size > 0
  {
    if x == NIL then -1 else At(c, size, x)
  }

  /** Slots in use and runs correspond one to one. */
  ghost predicate Placed(c: Chain, size: int)
    requires size > 0
  {
    && (forall s | s in c.owner :: c.owner[s] in c.hi && At(c, size, c.owner[s]) == s)
    && (forall x | x in c.hi :: At(c, size, x) in c.owner && c.owner[At(c, size, x)] == x)
  }

  ghost predicate Wellformed(c: Chain, size: int, loose: int)
    requires size > 0
  {
    Chained(c, loose) && Placed(c, size) && Spanned(c, size)
  }

  /** The number stored for x. */
  function Num(x: int): int {
    if x < 0 then -1 else Wire(x)
  }

  /** What the run at x leaves in its slot: start, end (or -1 for a single number), and the two links. */
  ghost predicate Node(c: Chain, size: int, x: int, v1: int, v2: int, n: int)
    requires size > 0 && x in c.hi && x in c.succ
  {
    v1 == Num(x) && v2 == (if c.hi[x] == x then -1 else Num(c.hi[x])) && n == Loc(c, size, c.succ[x])
  }

  ghost predicate Cell(c: Chain, size: int, s: int, v1: int, v2: int, n: int)
    requires size > 0
  {
    if s in c.owner && c.owner[s] in c.hi && c.owner[s] in c.succ
    then Node(c, size, c.owner[s], v1, v2, n)
    else v1 == -1 && v2 == -1
  }

  ghost predicate Stored(c: Chain, size: int, d1: seq<int>, d2: seq<int>, nx: seq<int>)
    requires size > 0
  {
    && |d1| == |d2| == |nx| == size
    && (forall s {:trigger Cell(c, size, s, d1[s], d2[s], nx[s])} | 0 <= s < size ::
          Cell(c, size, s, d1[s], d2[s], nx[s]))
  }

  lemma NodeAt(c: Chain, size: int, loose: int, d1: seq<int>, d2: seq<int>, nx: seq<int>, x: int)
    requires size > 0 && Wellformed(c, size, loose) && Stored(c, size, d1, d2, nx) && x in c.hi
    ensures x in c.succ && Node(c, size, x, d1[At(c, size, x)], d2[At(c, size, x)], nx[At(c, size, x)])
    ensures |d1| == |d2| == |nx| == size
    ensures d2[At(c, size, x)] == -1 <==> c.hi[x] == x
    ensures nx[At(c, size, x)] == -1 <==> c.succ[x] == NIL
  {
    hide Slot, Wire;
    assert Link(c, loose, x);
    var s := At(c, size, x);
    assert Cell(c, size, s, d1[s], d2[s], nx[s]);
  }

  /** A number close enough to the runs has a slot that no other run occupies, and that slot is empty. */
  lemma FreeSlot(c: Chain, size: int, x: int, d1: seq<int>, d2: seq<int>, nx: seq<int>)
    requires size > 0 && Wellformed(c, size, NIL) && Stored(c, size, d1, d2, nx) && x !in c.hi
    requires forall y | y in c.hi :: -size < x - y < size
    ensures At(c, size, x) !in c.owner
    ensures d1[At(c, size, x)] == -1 && d2[At(c, size, x)] == -1
  {
    var s := At(c, size, x);
    assert Cell(c, size, s, d1[s], d2[s], nx[s]);
    if s in c.owner {
      SlotInjective(x, c.owner[s], c.origin, size);
    }
  }

  /** What Wellformed says of one run. */
  lemma RunAt(c: Chain, size: int, loose: int, x: int)
    requires size > 0 && Wellformed(c, size, loose) && x in c.hi
    ensures x in c.succ && x in c.pred && 0 <= c.first <= x <= c.hi[x] && Spans(c.first, c.hi[x], size)
    ensures Link(c, loose, x)
    ensures At(c, size, x) in c.owner && c.owner[At(c, size, x)] == x
    ensures c.first in c.hi
  {
    assert Link(c, loose, x);
  }

  lemma Loosen(c: Chain, l: int)
    requires Chained(c, NIL)
    ensures Chained(c, l)
  {
    forall x ensures Link(c, l, x) {
      assert Link(c, NIL, x);
    }
  }

  lemma Tighten(c: Chain, l: int)
    requires Chained(c, l) && (l in c.hi && c.succ[l] != NIL ==> c.hi[l] < c.succ[l])
    ensures Chained(c, NIL)
  {
    forall x ensures Link(c, NIL, x) {
      assert Link(c, l, x);
    }
  }

  /** Every stored number is close enough to a and b to compare with them. */
  ghost predicate Reaches(c: Chain, size: int, a: int, b: int) {
    && 0 <= a <= b && Spans(a, b, size)
    && forall x | x in c.hi :: Spans(a, c.hi[x], size) && Spans(x, b, size)
  }

  lemma ReachesFromMembers(c: Chain, size: int, a: int, b: int)
    requires size > 0 && Wellformed(c, size, NIL) && 0 <= a <= b && Spans(a, b, size)
    requires forall x | x in Members(c.hi) :: Spans(a, x, size) && Spans(x, b, size)
    ensures Reaches(c, size, a, b)
  {
    hide Placed;
    forall x | x in c.hi ensures Spans(a, c.hi[x], size) && Spans(x, b, size) {
      RunAt(c, size, NIL, x);
      assert Covered(c.hi, x) && Covered(c.hi, c.hi[x]);
      assert x in Members(c.hi) && c.hi[x] in Members(c.hi);
    }
  }

  lemma ReachesRun(c: Chain, size: int, a: int, b: int, x: int)
    requires size > 0 && Wellformed(c, size, NIL) && Reaches(c, size, a, b) && x in c.hi
    ensures 0 <= x <= c.hi[x] && -size < a - x < size && -size < c.hi[x] - a < size
    ensures Near(a, x) && Near(x, a) && Near(a, c.hi[x]) && Near(c.hi[x], a) && Near(b, c.hi[x]) && Near(c.hi[x], b)
  {
    RunAt(c, size, NIL, x);
    RunAt(c, size, NIL, c.first);
  }

  /** Slot a of a list that can take a..b holds a run starting at a, or nothing. */
  lemma SlotOfNew(c: Chain, size: int, a: int, b: int, d1: seq<int>, d2: seq<int>, nx: seq<int>)
    requires size > 0 && Wellformed(c, size, NIL) && Reaches(c, size, a, b) && Stored(c, size, d1, d2, nx)
    ensures d1[At(c, size, a)] == Num(a) <==> a in c.hi
    ensures a !in c.hi ==>
      At(c, size, a) !in c.owner && d1[At(c, size, a)] == -1 && d2[At(c, size, a)] == -1
  {
    hide Wire, Chained, Placed, Spanned, Stored;
    if a in c.hi {
      NodeAt(c, size, NIL, d1, d2, nx, a);
    } else {
      forall y | y in c.hi ensures -size < a - y < size {
        ReachesRun(c, size, a, b, y);
      }
      FreeSlot(c, size, a, d1, d2, nx);
    }
  }

  lemma EmptyChain(c: Chain, size: int)
    requires size > 0 && Wellformed(c, size, NIL) && |Members(c.hi)| == 0
    ensures c.hi == map[] && c.first == NIL
  {
    hide Placed;
    forall x | x in c.hi ensures x <= c.hi[x] {
      RunAt(c, size, NIL, x);
    }
    EmptyMembers(c.hi);
  }

  lemma WireIsNum(x: int)
    requires x >= 0
    ensures Num(x) == Wire(x)
  {
  }

  lemma PairFacts(a: int, b: int, size: int)
    requires 0 <= a <= b && Spans(a, b, size)
    ensures (Num(a) == Num(b) <==> a == b) && SeqLen(Num(a), Num(b)) == b - a + 1
  {
    OffAndCmp(a, b);
    LenIsCount(a, b);
  }

  /** An empty chain may be given a new origin. */
  lemma Rebase(c: Chain, size: int, origin: int, d1: seq<int>, d2: seq<int>, nx: seq<int>)
    requires size > 0 && Wellformed(c, size, NIL) && Stored(c, size, d1, d2, nx) && c.hi == map[]
    ensures Wellformed(c.(origin := origin), size, NIL) && Stored(c.(origin := origin), size, d1, d2, nx)
    ensures c.first == NIL && At(c.(origin := origin), size, origin) == 0
    ensures forall s :: s !in c.owner
  {
    hide Num, Slot;
    var c' := c.(origin := origin);
    forall s | 0 <= s < size ensures Cell(c', size, s, d1[s], d2[s], nx[s]) {
      assert Cell(c, size, s, d1[s], d2[s], nx[s]);
    }
    forall x ensures Link(c', NIL, x) {}
    forall x, y ensures Consecutive(c', x, y) {}
    OriginSlot(origin, size);
  }

  lemma OriginSlot(origin: int, size: int)
    requires size > 0
    ensures Slot(origin, origin, size) == 0
  {
  }

  /** Every stored number is close enough to a to compare with it. */
  ghost predicate NearAll(c: Chain, a: int) {
    0 <= a && forall x | x in c.hi :: Near(x, a) && Near(c.hi[x], a)
  }

  lemma ReachesIsNear(c: Chain, size: int, a: int, b: int)
    requires size > 0 && Wellformed(c, size, NIL) && Reaches(c, size, a, b)
    ensures NearAll(c, a)
  {
    hide Chained, Placed, Spanned;
    forall x | x in c.hi ensures Near(x, a) && Near(c.hi[x], a) {
      ReachesRun(c, size, a, b, x);
    }
  }

  lemma NearFacts(c: Chain, size: int, a: int, x: int)
    requires size > 0 && Wellformed(c, size, NIL) && NearAll(c, a) && x in c.hi
    ensures SeqCmp(Num(x), Num(a)) < 0 <==> x < a
    ensures Num(x) == Num(a) <==> x == a
    ensures SeqCmp(Num(c.hi[x]), Num(a)) > 0 <==> c.hi[x] > a
    ensures SeqOff(Num(x), Num(a)) == a - x
    ensures (At(c, size, x) + (a - x) + size) % size == At(c, size, a)
  {
    hide SeqCmp, SeqOff, Wire, Slot, Placed, Spanned;
    RunAt(c, size, NIL, x);
    OffAndCmp(x, a);
    OffAndCmp(c.hi[x], a);
    SlotMove(x, a, c.origin, size);
  }

  lemma FirstFacts(c: Chain, size: int, d1: seq<int>, d2: seq<int>, nx: seq<int>)
    requires size > 0 && Wellformed(c, size, NIL) && Stored(c, size, d1, d2, nx) && c.first != NIL
    ensures c.first in c.hi && c.first in c.succ && c.first in c.pred && c.pred[c.first] == NIL
    ensures 0 <= c.first <= c.hi[c.first]
    ensures |d1| == size && Num(c.first) >= 0
    ensures Loc(c, size, c.first) == At(c, size, c.first) && d1[At(c, size, c.first)] == Num(c.first)
    ensures d2[At(c, size, c.first)] == -1 <==> c.hi[c.first] == c.first
  {
    hide Slot, Wire, Stored;
    RunAt(c, size, NIL, c.first);
    NodeAt(c, size, NIL, d1, d2, nx, c.first);
  }

  /** The head of a nonempty list is its smallest number. */
  lemma HeadNumber(c: Chain, size: int, d1: seq<int>, d2: seq<int>, nx: seq<int>)
    requires size > 0 && Wellformed(c, size, NIL) && Stored(c, size, d1, d2, nx) && Members(c.hi) != {}
    ensures c.first != NIL && 0 <= c.first && Loc(c, size, c.first) == At(c, size, c.first)
    ensures d1[At(c, size, c.first)] == Num(c.first) == Wire(c.first)
    ensures c.first in Members(c.hi) && forall x | x in Members(c.hi) :: c.first <= x
  {
    hide Slot, Wire, Stored, Placed;
    forall x | x in Members(c.hi) ensures c.first != NIL && c.first <= x {
      var y :| y in c.hi && y <= x <= c.hi[y];
      RunAt(c, size, NIL, y);
    }
    var x :| x in Members(c.hi);
    FirstFacts(c, size, d1, d2, nx);
    assert Covered(c.hi, c.first);
  }

  /** The comparisons made between a stored run and a..b decide what they look like they decide. */
  lemma RunFacts(c: Chain, size: int, a: int, b: int, x: int)
    requires size > 0 && Wellformed(c, size, NIL) && Reaches(c, size, a, b) && x in c.hi
    ensures 0 <= x <= c.hi[x]
    ensures SeqCmp(Num(x), Num(a)) < 0 <==> x < a
    ensures SeqCmp(Num(c.hi[x]), Num(a)) < 0 <==> c.hi[x] < a
    ensures SeqCmp(Num(c.hi[x]), Num(b)) < 0 <==> c.hi[x] < b
    ensures SeqCmp(Num(b), Num(c.hi[x])) > 0 <==> c.hi[x] < b
    ensures SeqOff(Num(x), Num(a)) == a - x
    ensures c.hi[x] <= b ==> SeqLen(Num(c.hi[x]), Num(b)) == b - c.hi[x] + 1
    ensures (Num(a) == Num(b) <==> a == b) && SeqLen(Num(a), Num(b)) == b - a + 1
    ensures (At(c, size, x) + (a - x) + size) % size == At(c, size, a)
  {
    hide SeqCmp, SeqLen, SeqOff, Wire, Slot, Chained, Placed, Spanned;
    ReachesRun(c, size, a, b, x);
    OffAndCmp(x, a);
    OffAndCmp(c.hi[x], a);
    OffAndCmp(c.hi[x], b);
    OffAndCmp(b, c.hi[x]);
    PairFacts(a, b, size);
    SlotMove(x, a, c.origin, size);
    if c.hi[x] <= b {
      LenIsCount(c.hi[x], b);
    }
  }

  /** Runs other than the loose one are pairwise disjoint. */
  lemma Disjoint(c: Chain, loose: int, i: int)
    requires Chained(c, loose) && i in c.hi && i != loose
    ensures forall x | x in c.hi && x != i && x != loose :: c.hi[x] < i || c.hi[i] < x
    ensures loose == NIL ==> forall x | x in c.hi && x != i :: c.hi[x] < i || c.hi[i] < x
  {
    forall x | x in c.hi && x != i && x != loose ensures c.hi[x] < i || c.hi[i] < x {
      assert Link(c, loose, x) && Link(c, loose, i) && Consecutive(c, x, i) && Consecutive(c, i, x);
    }
    assert Link(c, loose, NIL);
  }

  // ----- absorbing a run's successor -----

  function Merge(c: Chain, size: int, l: int): Chain
    requires size > 0 && l in c.hi && l in c.succ && c.succ[l] in c.hi && c.succ[l] in c.succ
  {
    var n := c.succ[l];
    var h := if c.hi[l] < c.hi[n] then c.hi[n] else c.hi[l];
    var m := c.succ[n];
    Chain(c.first, c.hi[l := h] - {n}, c.succ[l := m] - {n},
          (if m == NIL then c.pred else c.pred[m := l]) - {n},
          c.origin, c.owner - {At(c, size, n)})
  }

  lemma MergeWellformed(c: Chain, size: int, l: int)
    requires size > 0 && Wellformed(c, size, l) && l in c.hi && c.succ[l] != NIL
    ensures l < c.succ[l] && c.succ[l] in c.hi
    ensures Wellformed(Merge(c, size, l), size, l)
  {
    hide Slot;
    assert Link(c, l, l);
    var n, c' := c.succ[l], Merge(c, size, l);
    assert Link(c, l, n);
    assert Link(c, l, c.succ[n]);
    forall x ensures Link(c', l, x) {
      assert Link(c, l, x) && Consecutive(c, x, l) && Consecutive(c, l, x);
    }
    forall x, y ensures Consecutive(c', x, y) {
      assert Consecutive(c, x, y) && Consecutive(c, n, y);
    }
  }

  lemma MergeStored(c: Chain, size: int, l: int, d1: seq<int>, d2: seq<int>, nx: seq<int>)
    requires size > 0 && Wellformed(c, size, l) && l in c.hi && c.succ[l] != NIL
    requires Stored(c, size, d1, d2, nx)
    ensures l < c.succ[l] && c.succ[l] in c.hi
    ensures
      var n, h := c.succ[l], Merge(c, size, l).hi[l];
      var s, t := At(c, size, l), At(c, size, n);
      Stored(Merge(c, size, l), size, d1[t := -1], d2[s := Num(h)][t := -1], nx[s := nx[t]])
  {
    hide Slot, Num;
    assert Link(c, l, l);
    var n, c' := c.succ[l], Merge(c, size, l);
    var s, t := At(c, size, l), At(c, size, n);
    var e1, e2, ex := d1[t := -1], d2[s := Num(c'.hi[l])][t := -1], nx[s := nx[t]];
    assert Link(c, l, n);
    assert Cell(c, size, t, d1[t], d2[t], nx[t]);
    forall k | 0 <= k < size ensures Cell(c', size, k, e1[k], e2[k], ex[k]) {
      assert Cell(c, size, k, d1[k], d2[k], nx[k]);
    }
  }

  /** Absorbing the successor of a run that reaches it keeps the members; the absorbed run leaves the rest. */
  lemma MergeMembers(c: Chain, size: int, l: int)
    requires size > 0 && Wellformed(c, size, l) && l in c.hi && c.succ[l] != NIL && c.succ[l] <= c.hi[l] + 1
    ensures c.succ[l] in c.hi
    ensures
      var n, c' := c.succ[l], Merge(c, size, l);
      && l in c'.hi
      && Members(c'.hi) == Members(c.hi)
      && |Members(c'.hi - {l})| == |Members(c.hi - {l})| - (c.hi[n] - n + 1)
      && |c'.hi| < |c.hi|
  {
    hide Slot, At, Placed, Members, Spanned;
    assert Link(c, l, l);
    var n, c' := c.succ[l], Merge(c, size, l);
    assert Link(c, l, n);
    Disjoint(c, l, n);
    DropRun(c.hi - {l}, n);
    MergeRun(c.hi, l, n, c'.hi[l]);
    assert c.hi - {l} - {n} == c'.hi - {l};
    assert c'.hi.Keys == c.hi.Keys - {n};
    assert |c'.hi| == |c'.hi.Keys| && |c.hi| == |c.hi.Keys|;
  }

  /** Everything one round of coalescing changes. */
  lemma MergeEffect(c: Chain, size: int, l: int, d1: seq<int>, d2: seq<int>, nx: seq<int>)
    requires size > 0 && Wellformed(c, size, l) && l in c.hi && l in c.succ && c.succ[l] != NIL
    requires c.succ[l] <= c.hi[l] + 1 && Stored(c, size, d1, d2, nx)
    ensures c.succ[l] in c.hi && c.succ[l] in c.succ
    ensures
      var n, c' := c.succ[l], Merge(c, size, l);
      var s, t := At(c, size, l), At(c, size, n);
      && Wellformed(c', size, l) && l in c'.hi && c'.first == c.first && c'.origin == c.origin
      && c'.hi[l] == (if c.hi[l] < c.hi[n] then c.hi[n] else c.hi[l])
      && Stored(c', size, d1[t := -1], d2[s := Num(c'.hi[l])][t := -1], nx[s := nx[t]])
      && s in c'.owner && s != t
      && Members(c'.hi) == Members(c.hi)
      && |Members(c'.hi - {l})| == |Members(c.hi - {l})| - (c.hi[n] - n + 1)
      && |c'.hi| < |c.hi|
  {
    hide Slot, Wire, Chained, Placed, Spanned, Stored, Members;
    RunAt(c, size, l, l);
    RunAt(c, size, l, c.succ[l]);
    MergeWellformed(c, size, l);
    MergeStored(c, size, l, d1, d2, nx);
    MergeMembers(c, size, l);
    RunAt(Merge(c, size, l), size, l, l);
  }

  /** The comparisons made on stored values decide what they look like they decide. */
  lemma NextFacts(c: Chain, size: int, l: int, d1: seq<int>, d2: seq<int>, nx: seq<int>)
    requires size > 0 && Wellformed(c, size, l) && Stored(c, size, d1, d2, nx) && l in c.hi
    requires nx[At(c, size, l)] != -1 && d2[At(c, size, l)] != -1
    ensures l in c.succ && c.succ[l] != NIL && c.succ[l] in c.hi && l < c.succ[l] <= c.hi[c.succ[l]]
    ensures
      var s, t := At(c, size, l), At(c, size, c.succ[l]);
      && nx[s] == t && d1[t] == Num(c.succ[l]) && d2[s] == Num(c.hi[l])
      && d2[t] == (if c.hi[c.succ[l]] == c.succ[l] then -1 else Num(c.hi[c.succ[l]]))
    ensures
      var n, h, hn := c.succ[l], c.hi[l], c.hi[c.succ[l]];
      && Num(h) >= 0 && Num(hn) >= 0 && Num(n) >= 0
      && (SeqCmp(Num(n), IncSeq(Num(h))) <= 0 <==> n <= h + 1)
      && (Num(n) == IncSeq(Num(h)) <==> n == h + 1)
      && (SeqCmp(Num(hn), Num(h)) > 0 <==> hn > h)
      && (SeqCmp(Num(h), Num(n)) >= 0 <==> h >= n)
      && (n <= h ==> SeqLen(Num(n), Num(h)) == h - n + 1)
      && SeqLen(Num(n), Num(hn)) == hn - n + 1
  {
    hide SeqCmp, SeqLen, IncSeq, Wire, Slot, Placed;
    NodeAt(c, size, l, d1, d2, nx, l);
    assert Link(c, l, l);
    var n, h := c.succ[l], c.hi[l];
    assert Link(c, l, n);
    NodeAt(c, size, l, d1, d2, nx, n);
    var hn := c.hi[n];
    IncIsSucc(h);
    OffAndCmp(n, h + 1);
    OffAndCmp(hn, h);
    OffAndCmp(h, n);
    LenIsCount(n, hn);
    if n <= h {
      LenIsCount(n, h);
    }
  }

  // ----- changing where a run ends -----

  function SetEnd(c: Chain, l: int, h: int): Chain {
    c.(hi := c.hi[l := h])
  }

  lemma SetEndWellformed(c: Chain, size: int, l: int, h: int)
    requires size > 0 && Wellformed(c, size, l) && l in c.hi && l <= h && Spans(c.first, h, size)
    ensures Wellformed(SetEnd(c, l, h), size, l)
  {
    hide Slot;
    var c' := SetEnd(c, l, h);
    forall x ensures Link(c', l, x) {
      assert Link(c, l, x);
    }
    forall x, y ensures Consecutive(c', x, y) {
      assert Consecutive(c, x, y);
    }
  }

  lemma SetEndStored(c: Chain, size: int, l: int, h: int, d1: seq<int>, d2: seq<int>, nx: seq<int>)
    requires size > 0 && Wellformed(c, size, l) && l in c.hi && l <= h && Stored(c, size, d1, d2, nx)
    ensures Stored(SetEnd(c, l, h), size, d1, d2[At(c, size, l) := if h == l then -1 else Num(h)], nx)
  {
    hide Slot, Num;
    var s, c' := At(c, size, l), SetEnd(c, l, h);
    var e2 := d2[s := if h == l then -1 else Num(h)];
    forall k | 0 <= k < size ensures Cell(c', size, k, d1[k], e2[k], nx[k]) {
      assert Cell(c, size, k, d1[k], d2[k], nx[k]);
    }
  }

  // ----- a new run after p (at the front when p is NIL) -----

  function InsertRun(c: Chain, size: int, p: int, a: int, b: int): Chain
    requires size > 0 && (p != NIL ==> p in c.succ)
  {
    var n := if p == NIL then c.first else c.succ[p];
    Chain(if p == NIL then a else c.first,
          c.hi[a := b],
          (if p == NIL then c.succ else c.succ[p := a])[a := n],
          (if n == NIL then c.pred else c.pred[n := a])[a := p],
          c.origin, c.owner[At(c, size, a) := a])
  }

  /** a may go right after p: past p's end and before p's successor. */
  ghost predicate Gap(c: Chain, p: int, a: int) {
    if p == NIL then c.first == NIL || a < c.first
    else p in c.hi && p in c.succ && c.hi[p] < a && (c.succ[p] == NIL || a < c.succ[p])
  }

  lemma InsertConsecutive(c: Chain, size: int, p: int, a: int, b: int)
    requires size > 0 && Chained(c, NIL) && Gap(c, p, a) && 0 <= a
    ensures forall x, y {:trigger Consecutive(InsertRun(c, size, p, a, b), x, y)} ::
              Consecutive(InsertRun(c, size, p, a, b), x, y)
  {
    hide At;
    forall x, y ensures Consecutive(InsertRun(c, size, p, a, b), x, y) {
      assert Link(c, NIL, x) && Link(c, NIL, y) && Link(c, NIL, p);
      assert Consecutive(c, x, y) && Consecutive(c, p, y) && Consecutive(c, x, p) && Consecutive(c, p, x);
    }
  }

  lemma InsertLinks(c: Chain, size: int, p: int, a: int, b: int)
    requires size > 0 && Chained(c, NIL) && Gap(c, p, a) && 0 <= a <= b && a !in c.hi
    ensures forall x {:trigger Link(InsertRun(c, size, p, a, b), a, x)} :: Link(InsertRun(c, size, p, a, b), a, x)
  {
    hide At;
    var c' := InsertRun(c, size, p, a, b);
    assert Link(c, NIL, p) && Link(c, NIL, c.first);
    forall x ensures Link(c', a, x) {
      assert Link(c, NIL, x) && Consecutive(c, x, p) && Consecutive(c, p, x);
    }
  }

  lemma InsertWellformed(c: Chain, size: int, p: int, a: int, b: int)
    requires size > 0 && Wellformed(c, size, NIL) && Gap(c, p, a) && 0 <= a <= b
    requires At(c, size, a) !in c.owner
    requires Spans(if p == NIL then a else c.first, b, size)
    requires p == NIL ==> forall x | x in c.hi :: Spans(a, c.hi[x], size)
    ensures a !in c.hi
    ensures Wellformed(InsertRun(c, size, p, a, b), size, a)
  {
    hide Slot, Consecutive;
    assert Link(c, NIL, p) && Link(c, NIL, c.first);
    InsertLinks(c, size, p, a, b);
    InsertConsecutive(c, size, p, a, b);
  }

  lemma InsertStored(c: Chain, size: int, p: int, a: int, b: int, d1: seq<int>, d2: seq<int>, nx: seq<int>)
    requires size > 0 && Wellformed(c, size, NIL) && Gap(c, p, a) && 0 <= a <= b
    requires At(c, size, a) !in c.owner
    requires Stored(c, size, d1, d2, nx)
    ensures
      var s, n := At(c, size, a), if p == NIL then c.first else c.succ[p];
      var nx' := nx[s := Loc(c, size, n)];
      Stored(InsertRun(c, size, p, a, b), size, d1[s := Num(a)], d2[s := if b == a then -1 else Num(b)],
             if p == NIL then nx' else nx'[At(c, size, p) := s])
  {
    hide Slot, Num;
    var c' := InsertRun(c, size, p, a, b);
    var s, n := At(c, size, a), if p == NIL then c.first else c.succ[p];
    var nx' := nx[s := Loc(c, size, n)];
    var e1, e2 := d1[s := Num(a)], d2[s := if b == a then -1 else Num(b)];
    var ex := if p == NIL then nx' else nx'[At(c, size, p) := s];
    forall k | 0 <= k < size ensures Cell(c', size, k, e1[k], e2[k], ex[k]) {
      assert Cell(c, size, k, d1[k], d2[k], nx[k]);
    }
  }

  /** Membership and count after a new run that may overlap only later runs. */
  lemma InsertMembers(c: Chain, size: int, p: int, a: int, b: int)
    requires size > 0 && (p != NIL ==> p in c.succ) && a !in c.hi && a <= b
    ensures
      var c' := InsertRun(c, size, p, a, b);
      && a in c'.hi && c'.hi[a] == b
      && Members(c'.hi) == Members(c.hi) + Range(a, b)
      && |Members(c'.hi - {a})| == |Members(c.hi)|
  {
    hide Members;
    AddRun(c.hi, a, b);
    assert c.hi[a := b] - {a} == c.hi;
  }

  /** Everything a new run a..b after p changes. */
  lemma InsertEffect(c: Chain, size: int, p: int, a: int, b: int, d1: seq<int>, d2: seq<int>, nx: seq<int>)
    requires size > 0 && Wellformed(c, size, NIL) && Reaches(c, size, a, b) && Stored(c, size, d1, d2, nx)
    requires a !in c.hi && Gap(c, p, a)
    ensures
      var c' := InsertRun(c, size, p, a, b);
      var s, n := At(c, size, a), if p == NIL then c.first else c.succ[p];
      var nx' := nx[s := Loc(c, size, n)];
      && Wellformed(c', size, a) && a in c'.hi && c'.hi[a] == b
      && Stored(c', size, d1[s := Num(a)], d2[s := if Num(a) == Num(b) then -1 else Num(b)],
                if p == NIL then nx' else nx'[Loc(c, size, p) := s])
      && s == At(c', size, a) && s in c'.owner
      && Members(c'.hi) == Members(c.hi) + Range(a, b)
      && |Members(c'.hi - {a})| == |Members(c.hi)|
      && Loc(c', size, c'.first) == (if p == NIL then s else Loc(c, size, c.first))
    ensures SeqLen(Num(a), Num(b)) == b - a + 1
    ensures d2[At(c, size, a)] == -1
    ensures p != NIL ==> nx[Loc(c, size, p)] == Loc(c, size, c.succ[p]) && Loc(c, size, p) != At(c, size, a)
    ensures p != NIL <==> Loc(c, size, p) != -1
  {
    hide Slot, Wire, Chained, Placed, Stored, Members, SeqLen;
    SlotOfNew(c, size, a, b, d1, d2, nx);
    PairFacts(a, b, size);
    if p != NIL {
      RunAt(c, size, NIL, p);
      NodeAt(c, size, NIL, d1, d2, nx, p);
    }
    InsertWellformed(c, size, p, a, b);
    InsertStored(c, size, p, a, b, d1, d2, nx);
    InsertMembers(c, size, p, a, b);
    RunAt(InsertRun(c, size, p, a, b), size, a, a);
  }

  /** Membership and count after moving a run's end up. */
  lemma GrowMembers(c: Chain, l: int, h: int)
    requires Chained(c, NIL) && l in c.hi && c.hi[l] <= h
    ensures
      var c' := SetEnd(c, l, h);
      && l in c'.hi && c'.hi[l] == h
      && Members(c'.hi) == Members(c.hi) + Range(l, h)
      && |Members(c'.hi - {l})| == |Members(c.hi)| - (c.hi[l] - l + 1)
  {
    hide Members;
    assert Link(c, NIL, l);
    AddRun(c.hi, l, h);
    Disjoint(c, NIL, l);
    DropRun(c.hi, l);
    assert c.hi[l := h] - {l} == c.hi - {l};
  }

  /** Everything moving the end of run l up to b changes, when a..b starts inside it. */
  lemma GrowEffect(c: Chain, size: int, l: int, a: int, b: int, d1: seq<int>, d2: seq<int>, nx: seq<int>)
    requires size > 0 && Wellformed(c, size, NIL) && Reaches(c, size, a, b) && Stored(c, size, d1, d2, nx)
    requires l in c.hi && l <= a <= c.hi[l] < b
    ensures
      var c' := SetEnd(c, l, b);
      && Wellformed(c', size, l) && l in c'.hi && c'.hi[l] == b
      && Stored(c', size, d1, d2[At(c, size, l) := Num(b)], nx)
      && At(c, size, l) in c.owner
      && Members(c'.hi) == Members(c.hi) + Range(a, b)
      && |Members(c'.hi - {l})| == |Members(c.hi)| - (c.hi[l] - l + 1)
    ensures SeqLen(Num(c.hi[l]), Num(b)) == b - c.hi[l] + 1
    ensures d2[At(c, size, l)] == if c.hi[l] == l then -1 else Num(c.hi[l])
    ensures d2[At(c, size, l)] == -1 <==> c.hi[l] == l
  {
    hide Slot, Wire, Chained, Placed, Stored, Members, SeqLen, Spanned;
    RunAt(c, size, NIL, l);
    RunFacts(c, size, a, b, l);
    NodeAt(c, size, NIL, d1, d2, nx, l);
    ReachesFirst(c, size, a, b);
    Loosen(c, l);
    SetEndWellformed(c, size, l, b);
    SetEndStored(c, size, l, b, d1, d2, nx);
    GrowMembers(c, l, b);
    assert Range(l, c.hi[l]) <= Members(c.hi) by {
      Disjoint(c, NIL, l);
      DropRun(c.hi, l);
    }
    assert Range(l, b) == Range(l, c.hi[l]) + Range(a, b);
  }

  lemma ReachesFirst(c: Chain, size: int, a: int, b: int)
    requires Reaches(c, size, a, b) && c.first in c.hi
    ensures Spans(c.first, b, size)
  {
  }

  /** What the insertion branches read off the run at l, at or before a. */
  lemma AtRunFacts(c: Chain, size: int, l: int, a: int, b: int, d1: seq<int>, d2: seq<int>, nx: seq<int>)
    requires size > 0 && Wellformed(c, size, NIL) && Reaches(c, size, a, b) && Stored(c, size, d1, d2, nx)
    requires l in c.hi && l <= a
    ensures
      var v := d2[At(c, size, l)];
      && 0 <= l <= c.hi[l] && a <= b && Link(c, NIL, l) && (v == -1 <==> c.hi[l] == l)
      && (v != -1 ==>
            && (SeqCmp(v, Num(a)) < 0 <==> c.hi[l] < a)
            && (SeqCmp(v, Num(b)) < 0 <==> c.hi[l] < b)
            && (SeqCmp(Num(b), v) <= 0 <==> b <= c.hi[l]))
      && (Num(a) == Num(b) <==> a == b)
      && At(c, size, l) in c.owner && Loc(c, size, l) == At(c, size, l)
    ensures b <= c.hi[l] ==> Members(c.hi) + Range(a, b) == Members(c.hi)
  {
    hide Slot, Wire, Chained, Placed, Stored, SeqCmp, SeqOff, SeqLen;
    RunAt(c, size, NIL, l);
    RunFacts(c, size, a, b, l);
    NodeAt(c, size, NIL, d1, d2, nx, l);
    if b <= c.hi[l] {
      forall x | a <= x <= b ensures x in Members(c.hi) {
        assert Covered(c.hi, x);
      }
    }
  }

  /** What an insertion reads off the head. */
  lemma HeadFacts(c: Chain, size: int, a: int, b: int, d1: seq<int>, d2: seq<int>, nx: seq<int>)
    requires size > 0 && Wellformed(c, size, NIL) && Reaches(c, size, a, b) && Stored(c, size, d1, d2, nx)
    requires |Members(c.hi)| != 0
    ensures c.first in c.hi && 0 <= c.first && Loc(c, size, c.first) == At(c, size, c.first)
    ensures
      var s := At(c, size, c.first);
      && s in c.owner
      && SeqOff(d1[s], Num(a)) == a - c.first
      && (s + (a - c.first) + size) % size == At(c, size, a)
      && Num(a) == Wire(a) && Num(b) == Wire(b)
    ensures a < c.first ==> a !in c.hi && Gap(c, NIL, a)
  {
    hide Slot, Wire, Placed, Stored, SeqCmp, SeqOff, SeqLen;
    var m :| m in Members(c.hi);
    var x :| x in c.hi && x <= m <= c.hi[x];
    RunAt(c, size, NIL, x);
    RunAt(c, size, NIL, c.first);
    RunFacts(c, size, a, b, c.first);
    NodeAt(c, size, NIL, d1, d2, nx, c.first);
    assert Link(c, NIL, a);
  }

  // ----- removing a whole run -----

  function Unlink(c: Chain, size: int, l: int): Chain
    requires size > 0 && l in c.succ && l in c.pred
  {
    var n, p := c.succ[l], c.pred[l];
    Chain(if p == NIL then n else c.first,
          c.hi - {l},
          (if p == NIL then c.succ else c.succ[p := n]) - {l},
          (if n == NIL then c.pred else c.pred[n := p]) - {l},
          c.origin, c.owner - {At(c, size, l)})
  }

  lemma UnlinkWellformed(c: Chain, size: int, l: int)
    requires size > 0 && Wellformed(c, size, NIL) && l in c.hi
    ensures Wellformed(Unlink(c, size, l), size, NIL)
  {
    hide Slot;
    var c' := Unlink(c, size, l);
    assert Link(c, NIL, l);
    assert Link(c, NIL, c.succ[l]) && Link(c, NIL, c.pred[l]);
    forall x ensures Link(c', NIL, x) {
      assert Link(c, NIL, x) && Consecutive(c, l, x);
    }
    assert c'.hi.Keys == c'.succ.Keys == c'.pred.Keys;
    assert Placed(c', size);
    forall x | x in c'.hi ensures Spans(c'.first, c'.hi[x], size) {
      assert Link(c', NIL, x);
    }
    forall x, y ensures Consecutive(c', x, y) {
      assert Consecutive(c, x, y) && Consecutive(c, l, y);
    }
  }

  lemma UnlinkStored(c: Chain, size: int, l: int, d1: seq<int>, d2: seq<int>, nx: seq<int>)
    requires size > 0 && Wellformed(c, size, NIL) && l in c.hi && Stored(c, size, d1, d2, nx)
    ensures
      var s, p := At(c, size, l), c.pred[l];
      Stored(Unlink(c, size, l), size, d1[s := -1], d2[s := -1],
             if p == NIL then nx else nx[At(c, size, p) := nx[s]])
  {
    hide Slot, Num;
    var s, p, c' := At(c, size, l), c.pred[l], Unlink(c, size, l);
    var e1, e2, ex := d1[s := -1], d2[s := -1], if p == NIL then nx else nx[At(c, size, p) := nx[s]];
    assert Link(c, NIL, l);
    assert Cell(c, size, s, d1[s], d2[s], nx[s]);
    forall k | 0 <= k < size ensures Cell(c', size, k, e1[k], e2[k], ex[k]) {
      assert Cell(c, size, k, d1[k], d2[k], nx[k]);
    }
  }

  /** Everything removing the run at l changes. */
  lemma UnlinkEffect(c: Chain, size: int, l: int, d1: seq<int>, d2: seq<int>, nx: seq<int>)
    requires size > 0 && Wellformed(c, size, NIL) && l in c.hi && Stored(c, size, d1, d2, nx)
    ensures l in c.succ && l in c.pred && 0 <= l <= c.hi[l]
    ensures
      var s, p, c' := At(c, size, l), c.pred[l], Unlink(c, size, l);
      && Wellformed(c', size, NIL) && (p == NIL <==> l == c.first)
      && Stored(c', size, d1[s := -1], d2[s := -1], if p == NIL then nx else nx[At(c, size, p) := nx[s]])
      && nx[s] == Loc(c, size, c.succ[l])
      && (d2[s] == -1 <==> c.hi[l] == l)
      && (d2[s] != -1 ==> SeqLen(d1[s], d2[s]) == c.hi[l] - l + 1)
      && d1[s] == Num(l)
      && c'.owner == c.owner - {s} && c'.origin == c.origin && (p == NIL ==> c'.first == c.succ[l])
      && (c.hi[l] == l ==> Range(l, c.hi[l]) == {l})
      && Members(c'.hi) == Members(c.hi) - Range(l, c.hi[l])
      && |Members(c'.hi)| == |Members(c.hi)| - (c.hi[l] - l + 1)
      && |c'.hi| < |c.hi|
  {
    hide Slot, Wire, Chained, Placed, Stored, Members, SeqLen, Spanned;
    RunAt(c, size, NIL, l);
    NodeAt(c, size, NIL, d1, d2, nx, l);
    PairFacts(l, c.hi[l], size);
    Disjoint(c, NIL, l);
    DropRun(c.hi, l);
    UnlinkWellformed(c, size, l);
    UnlinkStored(c, size, l, d1, d2, nx);
    assert (c.hi - {l}).Keys == c.hi.Keys - {l};
    assert |c.hi - {l}| == |(c.hi - {l}).Keys| && |c.hi| == |c.hi.Keys|;
  }

  lemma NearFromMembers(c: Chain, size: int, n: int)
    requires size > 0 && Wellformed(c, size, NIL) && 0 <= n && forall x | x in Members(c.hi) :: Near(x, n)
    ensures NearAll(c, n)
  {
    hide Placed;
    forall x | x in c.hi ensures Near(x, n) && Near(c.hi[x], n) {
      RunAt(c, size, NIL, x);
      assert Covered(c.hi, x) && Covered(c.hi, c.hi[x]);
      assert x in Members(c.hi) && c.hi[x] in Members(c.hi);
    }
  }

  /** Only the run starting at n stores n as its start, even when n is out of the arrays' reach. */
  lemma SlotHolds(c: Chain, size: int, n: int, d1: seq<int>, d2: seq<int>, nx: seq<int>)
    requires size > 0 && Wellformed(c, size, NIL) && NearAll(c, n) && Stored(c, size, d1, d2, nx)
    ensures |d1| == size && (d1[At(c, size, n)] == Num(n) <==> n in c.hi)
  {
    hide Slot, Wire, Chained, Spanned, NearAll;
    var s := At(c, size, n);
    if n in c.hi {
      NodeAt(c, size, NIL, d1, d2, nx, n);
    } else {
      assert Cell(c, size, s, d1[s], d2[s], nx[s]);
      if s in c.owner {
        NodeAt(c, size, NIL, d1, d2, nx, c.owner[s]);
        NearFacts(c, size, n, c.owner[s]);
      } else {
        NumOfNear(c, n);
      }
    }
  }

  lemma NumOfNear(c: Chain, n: int)
    requires NearAll(c, n)
    ensures Num(n) >= 0
  {
  }

  /** What a removal reads off the last run that starts at or before n. */
  lemma CutFacts(c: Chain, size: int, l: int, n: int, d1: seq<int>, d2: seq<int>, nx: seq<int>)
    requires size > 0 && Wellformed(c, size, NIL) && NearAll(c, n) && Stored(c, size, d1, d2, nx)
    requires l in c.hi && l <= n && (n in c.hi ==> l == n)
    requires l != n && l in c.succ && c.succ[l] != NIL ==> n <= c.succ[l]
    ensures |d2| == |nx| == size && l in c.succ && l <= c.hi[l] && Num(n) >= 0
    ensures
      var s := At(c, size, l);
      && (d2[s] == -1 <==> c.hi[l] == l) && (d2[s] != -1 ==> d2[s] == Num(c.hi[l]))
      && (SeqCmp(Num(c.hi[l]), Num(n)) > 0 <==> c.hi[l] > n)
      && nx[s] == Loc(c, size, c.succ[l])
    ensures c.hi[l] > n ==> (At(c, size, n) + 1) % size == At(c, size, n + 1)
    ensures c.hi[l] <= n ==>
      && (forall x | x in c.hi && (c.succ[l] == NIL || x < c.succ[l]) :: c.hi[x] <= n)
      && (c.succ[l] != NIL ==> c.succ[l] in c.hi && n < c.succ[l])
  {
    hide Slot, Wire, Placed, Stored, SeqCmp;
    RunAt(c, size, NIL, l);
    NodeAt(c, size, NIL, d1, d2, nx, l);
    NearFacts(c, size, n, l);
    SlotMove(n, n + 1, c.origin, size);
    forall x | x in c.hi && c.hi[l] <= n && (c.succ[l] == NIL || x < c.succ[l]) ensures c.hi[x] <= n {
      RunAt(c, size, NIL, x);
      Disjoint(c, NIL, l);
      assert Consecutive(c, l, x);
    }
  }

  lemma BeforeRun(c: Chain, size: int, stop: int)
    requires size > 0 && Wellformed(c, size, NIL) && stop in c.hi
    ensures stop != NIL
    ensures forall x | x in c.hi && x < stop :: c.hi[x] <= stop - 1
  {
    hide Placed;
    RunAt(c, size, NIL, stop);
    Disjoint(c, NIL, stop);
    forall x | x in c.hi && x < stop ensures c.hi[x] <= stop - 1 {
      RunAt(c, size, NIL, x);
    }
  }

  /** A walk along the chain recognises the run at stop by its slot. */
  lemma StopReached(c: Chain, size: int, stop: int)
    requires size > 0 && Wellformed(c, size, NIL) && (stop != NIL ==> stop in c.hi)
    ensures Loc(c, size, c.first) == Loc(c, size, stop) <==> c.first == stop
  {
    hide Slot;
  }

  lemma PrefixFirst(c: Chain, size: int, stop: int)
    requires size > 0 && Wellformed(c, size, NIL) && c.first != stop && (stop != NIL ==> stop in c.hi)
    ensures c.first in c.hi && Loc(c, size, c.first) == At(c, size, c.first) >= 0
    ensures stop != NIL ==> c.first < stop
    ensures c.first in c.pred && c.pred[c.first] == NIL
  {
    hide Placed, Slot;
    if stop != NIL {
      RunAt(c, size, NIL, stop);
    }
    RunAt(c, size, NIL, c.first);
  }

  /** Unlinking the first run, which ends by n, leaves the numbers past n. */
  lemma UnlinkBelow(c: Chain, size: int, l: int, stop: int, n: int)
    requires size > 0 && l in c.hi && l in c.succ && l in c.pred && l != stop && (stop != NIL ==> l < stop)
    requires forall x | x in c.hi && (stop == NIL || x < stop) :: c.hi[x] <= n
    requires Members(Unlink(c, size, l).hi) == Members(c.hi) - Range(l, c.hi[l])
    ensures
      var c' := Unlink(c, size, l);
      && (forall x | x in c'.hi && (stop == NIL || x < stop) :: c'.hi[x] <= n)
      && (stop in c.hi ==> stop in c'.hi)
      && (set x | x in Members(c'.hi) && x > n) == (set x | x in Members(c.hi) && x > n)
  {
    hide Members;
  }

  lemma NothingBelow(c: Chain, size: int, n: int)
    requires size > 0 && Wellformed(c, size, NIL) && (c.first != NIL ==> n < c.first)
    ensures forall x | x in Members(c.hi) :: x > n
  {
    hide Placed;
    forall x | x in Members(c.hi) ensures x > n {
      var y :| y in c.hi && y <= x <= c.hi[y];
      RunAt(c, size, NIL, y);
    }
  }

  // ----- dropping the first number of a longer run: the run moves to the next slot -----

  function Advance(c: Chain, size: int, l: int): Chain
    requires size > 0 && l in c.hi && l in c.succ && l in c.pred
  {
    var n, p := c.succ[l], c.pred[l];
    Chain(if p == NIL then l + 1 else c.first,
          (c.hi - {l})[l + 1 := c.hi[l]],
          ((if p == NIL then c.succ else c.succ[p := l + 1]) - {l})[l + 1 := n],
          ((if n == NIL then c.pred else c.pred[n := l + 1]) - {l})[l + 1 := p],
          c.origin, (c.owner - {At(c, size, l)})[At(c, size, l + 1) := l + 1])
  }

  lemma AdvanceConsecutive(c: Chain, size: int, l: int)
    requires size > 0 && Chained(c, NIL) && l in c.hi && l < c.hi[l]
    ensures forall x, y {:trigger Consecutive(Advance(c, size, l), x, y)} ::
              Consecutive(Advance(c, size, l), x, y)
  {
    hide At;
    forall x, y ensures Consecutive(Advance(c, size, l), x, y) {
      assert Link(c, NIL, x) && Link(c, NIL, l);
      assert Consecutive(c, x, y) && Consecutive(c, l, y) && Consecutive(c, x, l);
    }
  }

  lemma AdvanceLinks(c: Chain, size: int, l: int)
    requires size > 0 && Chained(c, NIL) && l in c.hi && l < c.hi[l] && l + 1 !in c.hi
    ensures forall x {:trigger Link(Advance(c, size, l), NIL, x)} :: Link(Advance(c, size, l), NIL, x)
  {
    hide At;
    var c' := Advance(c, size, l);
    assert Link(c, NIL, l);
    assert Link(c, NIL, c.succ[l]) && Link(c, NIL, c.pred[l]);
    forall x ensures Link(c', NIL, x) {
      assert Link(c, NIL, x) && Consecutive(c, l, x) && Consecutive(c, x, l);
    }
  }

  lemma AdvanceWellformed(c: Chain, size: int, l: int)
    requires size > 0 && Wellformed(c, size, NIL) && l in c.hi && l < c.hi[l]
    requires At(c, size, l + 1) !in c.owner
    ensures l + 1 !in c.hi
    ensures Wellformed(Advance(c, size, l), size, NIL)
  {
    hide Slot, Consecutive;
    assert Link(c, NIL, l);
    AdvanceLinks(c, size, l);
    AdvanceConsecutive(c, size, l);
  }

  lemma AdvanceStored(c: Chain, size: int, l: int, d1: seq<int>, d2: seq<int>, nx: seq<int>)
    requires size > 0 && Wellformed(c, size, NIL) && l in c.hi && l < c.hi[l]
    requires At(c, size, l + 1) !in c.owner
    requires Stored(c, size, d1, d2, nx)
    ensures
      var s, t, p := At(c, size, l), At(c, size, l + 1), c.pred[l];
      var nx' := nx[t := nx[s]];
      Stored(Advance(c, size, l), size, d1[t := Num(l + 1)][s := -1],
             d2[t := if c.hi[l] == l + 1 then -1 else Num(c.hi[l])][s := -1],
             if p == NIL then nx' else nx'[At(c, size, p) := t])
  {
    hide Slot, Num;
    var s, t, p, c' := At(c, size, l), At(c, size, l + 1), c.pred[l], Advance(c, size, l);
    var e1, e2 := d1[t := Num(l + 1)][s := -1], d2[t := if c.hi[l] == l + 1 then -1 else Num(c.hi[l])][s := -1];
    var ex := if p == NIL then nx[t := nx[s]] else nx[t := nx[s]][At(c, size, p) := t];
    assert Link(c, NIL, l);
    assert Cell(c, size, s, d1[s], d2[s], nx[s]);
    forall k | 0 <= k < size ensures Cell(c', size, k, e1[k], e2[k], ex[k]) {
      assert Cell(c, size, k, d1[k], d2[k], nx[k]);
    }
  }

  /** Everything dropping the first number of the run at l changes. */
  lemma AdvanceEffect(c: Chain, size: int, l: int, d1: seq<int>, d2: seq<int>, nx: seq<int>)
    requires size > 0 && Wellformed(c, size, NIL) && l in c.hi && l < c.hi[l] && Stored(c, size, d1, d2, nx)
    ensures l in c.succ && l in c.pred && 0 <= l
    ensures
      var s, t, p, c' := At(c, size, l), At(c, size, l + 1), c.pred[l], Advance(c, size, l);
      var nx' := nx[t := nx[s]];
      && Wellformed(c', size, NIL) && (p == NIL <==> l == c.first)
      && Stored(c', size, d1[t := Num(l + 1)][s := -1],
                d2[t := if c.hi[l] == l + 1 then -1 else Num(c.hi[l])][s := -1],
                if p == NIL then nx' else nx'[At(c, size, p) := t])
      && t == (s + 1) % size && s != t && d1[t] == -1 && d2[t] == -1
      && d1[s] == Num(l) && d2[s] == Num(c.hi[l]) && d2[s] != -1
      && nx[s] == Loc(c, size, c.succ[l])
      && IncSeq(Num(l)) == Num(l + 1)
      && (SeqCmp(Num(c.hi[l]), Num(l + 1)) > 0 <==> c.hi[l] != l + 1)
      && c'.owner == (c.owner - {s})[t := l + 1] && c'.origin == c.origin && (p == NIL ==> c'.first == l + 1)
      && Members(c'.hi) == Members(c.hi) - {l} && l in Members(c.hi)
  {
    hide Slot, Wire, Chained, Placed, Stored, Members, SeqCmp, IncSeq;
    RunAt(c, size, NIL, l);
    NodeAt(c, size, NIL, d1, d2, nx, l);
    InteriorSlot(c, size, l, l + 1, d1, d2, nx);
    IncIsSucc(l);
    OffAndCmp(c.hi[l], l + 1);
    SlotMove(l, l + 1, c.origin, size);
    Disjoint(c, NIL, l);
    AdvanceRun(c.hi, l);
    AdvanceWellformed(c, size, l);
    AdvanceStored(c, size, l, d1, d2, nx);
  }

  /** A number strictly inside a run has an empty slot of its own. */
  lemma InteriorSlot(c: Chain, size: int, l: int, x: int, d1: seq<int>, d2: seq<int>, nx: seq<int>)
    requires size > 0 && Wellformed(c, size, NIL) && Stored(c, size, d1, d2, nx) && l in c.hi && l < x <= c.hi[l]
    ensures x !in c.hi && At(c, size, x) !in c.owner
    ensures d1[At(c, size, x)] == -1 && d2[At(c, size, x)] == -1
    ensures At(c, size, x) != At(c, size, l)
  {
    hide Slot, Stored, Placed;
    RunAt(c, size, NIL, l);
    Disjoint(c, NIL, l);
    if x in c.hi {
      RunAt(c, size, NIL, x);
    }
    forall y | y in c.hi ensures -size < x - y < size {
      RunAt(c, size, NIL, y);
    }
    FreeSlot(c, size, x, d1, d2, nx);
  }

  // ----- cutting a run in two -----

  function Split(c: Chain, size: int, l: int, n: int): Chain
    requires size > 0 && l in c.hi && l in c.succ
  {
    InsertRun(SetEnd(c, l, n), size, l, n + 1, c.hi[l])
  }

  /** Everything cutting the run at l after n changes. */
  lemma SplitEffect(c: Chain, size: int, l: int, n: int, d1: seq<int>, d2: seq<int>, nx: seq<int>)
    requires size > 0 && Wellformed(c, size, NIL) && l in c.hi && l <= n < c.hi[l] && Stored(c, size, d1, d2, nx)
    ensures l in c.succ && 0 <= l
    ensures
      var s, t, c' := At(c, size, l), At(c, size, n + 1), Split(c, size, l, n);
      && Wellformed(c', size, NIL) && c'.first == c.first && c'.origin == c.origin && n + 1 in c'.hi
      && Stored(c', size, d1[t := Num(n + 1)],
                d2[s := if n == l then -1 else Num(n)][t := if c.hi[l] == n + 1 then -1 else Num(c.hi[l])],
                nx[t := nx[s]][s := t])
      && s != t && d1[t] == -1 && d2[t] == -1 && d2[s] == Num(c.hi[l]) && d2[s] != -1
      && IncSeq(Num(n)) == Num(n + 1)
      && (SeqCmp(Num(c.hi[l]), Num(n + 1)) > 0 <==> c.hi[l] != n + 1)
      && c'.owner == c.owner[t := n + 1]
      && Members(c'.hi) == Members(c.hi)
  {
    hide Slot, Wire, Placed, Stored, Members, SeqCmp, IncSeq, Chained;
    var b := SetEnd(c, l, n);
    RunAt(c, size, NIL, l);
    NodeAt(c, size, NIL, d1, d2, nx, l);
    InteriorSlot(c, size, l, n + 1, d1, d2, nx);
    IncIsSucc(n);
    OffAndCmp(c.hi[l], n + 1);
    Loosen(c, l);
    SetEndWellformed(c, size, l, n);
    SetEndStored(c, size, l, n, d1, d2, nx);
    Tighten(b, l);
    SplitWellformed(c, size, l, n);
    InsertStored(b, size, l, n + 1, c.hi[l], d1, d2[At(c, size, l) := if n == l then -1 else Num(n)], nx);
    SplitRun(c.hi, l, n);
  }

  lemma SplitWellformed(c: Chain, size: int, l: int, n: int)
    requires size > 0 && Wellformed(c, size, NIL) && l in c.hi && l <= n < c.hi[l]
    requires Wellformed(SetEnd(c, l, n), size, NIL)
    requires At(c, size, n + 1) !in c.owner
    ensures l in c.succ && Wellformed(Split(c, size, l, n), size, NIL)
    ensures Gap(SetEnd(c, l, n), l, n + 1)
  {
    hide Slot, Placed, Chained;
    var b := SetEnd(c, l, n);
    RunAt(c, size, NIL, l);
    RunAt(b, size, NIL, l);
    InsertWellformed(b, size, l, n + 1, c.hi[l]);
    Tighten(InsertRun(b, size, l, n + 1, c.hi[l]), n + 1);
  }

  // ----- back links, kept by the receiver's list only -----

  ghost predicate Back(c: Chain, size: int, s: int, v: int)
    requires size > 0
  {
    s in c.owner && c.owner[s] in c.pred ==> v == Loc(c, size, c.pred[c.owner[s]])
  }

  ghost predicate BackStored(c: Chain, size: int, pr: seq<int>)
    requires size > 0
  {
    |pr| == size && forall s {:trigger Back(c, size, s, pr[s])} | 0 <= s < size :: Back(c, size, s, pr[s])
  }

  lemma BackAt(c: Chain, size: int, pr: seq<int>, x: int)
    requires size > 0 && Wellformed(c, size, NIL) && BackStored(c, size, pr) && x in c.hi
    ensures x in c.pred && |pr| == size && pr[At(c, size, x)] == Loc(c, size, c.pred[x])
  {
    hide Slot;
    RunAt(c, size, NIL, x);
    assert Back(c, size, At(c, size, x), pr[At(c, size, x)]);
  }

  lemma BackAppend(c: Chain, size: int, p: int, a: int, b: int, pr: seq<int>)
    requires size > 0 && Wellformed(c, size, NIL) && BackStored(c, size, pr) && Gap(c, p, a)
    requires At(c, size, a) !in c.owner && 0 <= a
    requires if p == NIL then c.first == NIL else c.succ[p] == NIL
    ensures BackStored(InsertRun(c, size, p, a, b), size, pr[At(c, size, a) := Loc(c, size, p)])
  {
    hide Slot;
    var c', s := InsertRun(c, size, p, a, b), At(c, size, a);
    var q := pr[s := Loc(c, size, p)];
    forall k | 0 <= k < size ensures Back(c', size, k, q[k]) {
      assert Back(c, size, k, pr[k]);
    }
  }

  lemma BackSetEnd(c: Chain, size: int, l: int, h: int, pr: seq<int>)
    requires size > 0 && BackStored(c, size, pr)
    ensures BackStored(SetEnd(c, l, h), size, pr)
  {
    var c' := SetEnd(c, l, h);
    forall k | 0 <= k < size ensures Back(c', size, k, pr[k]) {
      assert Back(c, size, k, pr[k]);
    }
  }

  lemma BackUnlink(c: Chain, size: int, l: int, pr: seq<int>)
    requires size > 0 && Wellformed(c, size, NIL) && BackStored(c, size, pr) && l in c.hi
    ensures l in c.succ && l in c.pred && (c.succ[l] != NIL ==> At(c, size, l) != At(c, size, c.succ[l]))
    ensures
      var s, n := At(c, size, l), c.succ[l];
      BackStored(Unlink(c, size, l), size, if n == NIL then pr else pr[At(c, size, n) := pr[s]])
  {
    hide Slot;
    RunAt(c, size, NIL, l);
    var s, n, c' := At(c, size, l), c.succ[l], Unlink(c, size, l);
    var q := if n == NIL then pr else pr[At(c, size, n) := pr[s]];
    assert Back(c, size, s, pr[s]);
    forall k | 0 <= k < size ensures Back(c', size, k, q[k]) {
      assert Back(c, size, k, pr[k]);
    }
  }

  lemma BackAdvance(c: Chain, size: int, l: int, pr: seq<int>)
    requires size > 0 && Wellformed(c, size, NIL) && BackStored(c, size, pr) && l in c.hi && l < c.hi[l]
    requires At(c, size, l + 1) !in c.owner
    ensures l in c.succ && l in c.pred
    ensures
      var s, t, n := At(c, size, l), At(c, size, l + 1), c.succ[l];
      var q := pr[t := pr[s]];
      BackStored(Advance(c, size, l), size, if n == NIL then q else q[At(c, size, n) := t])
  {
    hide Slot;
    RunAt(c, size, NIL, l);
    var s, t, n, c' := At(c, size, l), At(c, size, l + 1), c.succ[l], Advance(c, size, l);
    var q := pr[t := pr[s]];
    var q' := if n == NIL then q else q[At(c, size, n) := t];
    assert Back(c, size, s, pr[s]);
    forall k | 0 <= k < size ensures Back(c', size, k, q'[k]) {
      assert Back(c, size, k, pr[k]);
    }
  }

  lemma BackSplit(c: Chain, size: int, l: int, n: int, pr: seq<int>)
    requires size > 0 && Wellformed(c, size, NIL) && BackStored(c, size, pr) && l in c.hi && l <= n < c.hi[l]
    requires At(c, size, n + 1) !in c.owner
    ensures l in c.succ
    ensures
      var t, m := At(c, size, n + 1), c.succ[l];
      var q := pr[t := At(c, size, l)];
      BackStored(Split(c, size, l, n), size, if m == NIL then q else q[At(c, size, m) := t])
  {
    hide Slot;
    RunAt(c, size, NIL, l);
    var t, m, c' := At(c, size, n + 1), c.succ[l], Split(c, size, l, n);
    var q := pr[t := At(c, size, l)];
    var q' := if m == NIL then q else q[At(c, size, m) := t];
    forall k | 0 <= k < size ensures Back(c', size, k, q'[k]) {
      assert Back(c, size, k, pr[k]);
    }
  }

  // ----- appending -----

  lemma AfterReaches(c: Chain, size: int, a: int, b: int)
    requires size > 0 && Wellformed(c, size, NIL) && 0 <= a <= b && Spans(a, b, size)
    requires forall x | x in Members(c.hi) :: x < a && Spans(x, b, size)
    ensures Reaches(c, size, a, b)
    ensures forall x | x in c.hi :: c.hi[x] < a
  {
    hide Placed;
    forall x | x in c.hi ensures Spans(a, c.hi[x], size) && Spans(x, b, size) && c.hi[x] < a {
      RunAt(c, size, NIL, x);
      assert Covered(c.hi, x) && Covered(c.hi, c.hi[x]);
      assert x in Members(c.hi) && c.hi[x] in Members(c.hi);
    }
  }

  /** What an append reads off the last run, in slot s. */
  lemma LastRun(c: Chain, size: int, s: int, a: int, b: int, d1: seq<int>, d2: seq<int>, nx: seq<int>)
    requires size > 0 && Wellformed(c, size, NIL) && Reaches(c, size, a, b) && Stored(c, size, d1, d2, nx)
    requires s in c.owner && c.owner[s] in c.succ && c.succ[c.owner[s]] == NIL
    requires forall x | x in c.hi :: c.hi[x] < a
    ensures |d2| == size && a !in c.hi
    ensures
      var l := c.owner[s];
      && 0 <= s < size && l in c.hi && Loc(c, size, l) == s && Gap(c, l, a)
      && (d2[s] != -1 && IncSeq(d2[s]) == Num(a) ==> c.hi[l] == a - 1)
      && (a - 1 == c.hi[l] && d2[s] != -1 ==> IncSeq(d2[s]) == Num(a))
    ensures (At(c, size, c.first) + (a - c.first)) % size == At(c, size, a)
  {
    hide Slot, Wire, Stored, IncSeq;
    var l := c.owner[s];
    RunAt(c, size, NIL, l);
    NodeAt(c, size, NIL, d1, d2, nx, l);
    ReachesRun(c, size, a, b, l);
    IncIsSucc(c.hi[l]);
    OffAndCmp(c.hi[l] + 1, a);
    SlotMove(c.first, a, c.origin, size);
    if a in c.hi {
      RunAt(c, size, NIL, a);
    }
  }

  /** Everything appending a run changes. */
  lemma AppendEffect(c: Chain, size: int, p: int, a: int, b: int,
                     d1: seq<int>, d2: seq<int>, nx: seq<int>, pr: seq<int>)
    requires size > 0 && Wellformed(c, size, NIL) && Reaches(c, size, a, b) && Stored(c, size, d1, d2, nx)
    requires BackStored(c, size, pr) && a !in c.hi && Gap(c, p, a)
    requires if p == NIL then c.first == NIL else c.succ[p] == NIL
    ensures
      var c', s, i := InsertRun(c, size, p, a, b), At(c, size, a), Loc(c, size, p);
      var nx' := nx[s := -1];
      && Wellformed(c', size, NIL) && c'.first != NIL
      && Stored(c', size, d1[s := Num(a)], d2[s := if Num(a) == Num(b) then -1 else Num(b)],
                if p == NIL then nx' else nx'[i := s])
      && BackStored(c', size, pr[s := i])
      && s in c'.owner && c'.owner[s] == a && a in c'.succ && c'.succ[a] == NIL
      && Members(c'.hi) == Members(c.hi) + Range(a, b)
      && |Members(c'.hi)| == |Members(c.hi)| + b - a + 1
      && Loc(c', size, c'.first) == (if p == NIL then s else Loc(c, size, c.first))
      && d2[s] == -1 && i != s && -1 <= i && (i == -1 <==> p == NIL)
    ensures SeqLen(Num(a), Num(b)) == b - a + 1
  {
    hide Slot, Wire, Chained, Placed, Stored, Members, SeqLen, Reaches, BackStored, Spanned;
    InsertEffect(c, size, p, a, b, d1, d2, nx);
    var c' := InsertRun(c, size, p, a, b);
    SlotOfNew(c, size, a, b, d1, d2, nx);
    ReachesNonneg(c, size, a, b);
    BackAppend(c, size, p, a, b, pr);
    Tighten(c', a);
    RunAt(c', size, NIL, a);
    Disjoint(c', NIL, a);
    DropRun(c'.hi, a);
  }

  lemma ReachesNonneg(c: Chain, size: int, a: int, b: int)
    requires Reaches(c, size, a, b)
    ensures 0 <= a <= b
  {
  }

  /** Everything continuing the last run, in slot s, changes. */
  lemma ExtendEffect(c: Chain, size: int, s: int, a: int, b: int,
                     d1: seq<int>, d2: seq<int>, nx: seq<int>, pr: seq<int>)
    requires size > 0 && Wellformed(c, size, NIL) && Reaches(c, size, a, b) && Stored(c, size, d1, d2, nx)
    requires BackStored(c, size, pr)
    requires s in c.owner && c.owner[s] in c.succ && c.succ[c.owner[s]] == NIL
    requires c.owner[s] in c.hi && c.hi[c.owner[s]] == a - 1
    ensures
      var l := c.owner[s];
      var c' := SetEnd(c, l, b);
      && 0 <= s < size && |d2| == size
      && Wellformed(c', size, NIL)
      && Stored(c', size, d1, d2[s := Num(b)], nx)
      && BackStored(c', size, pr)
      && Members(c'.hi) == Members(c.hi) + Range(a, b)
      && |Members(c'.hi)| == |Members(c.hi)| + b - a + 1
    ensures SeqLen(Num(a), Num(b)) == b - a + 1
  {
    hide Slot, Wire, Chained, Placed, Stored, Members, SeqLen, BackStored, Spanned;
    var l := c.owner[s];
    var c' := SetEnd(c, l, b);
    OwnedRun(c, size, s);
    RunAt(c, size, NIL, l);
    NodeAt(c, size, NIL, d1, d2, nx, l);
    PairFacts(a, b, size);
    ReachesFirst(c, size, a, b);
    Loosen(c, l);
    SetEndWellformed(c, size, l, b);
    SetEndStored(c, size, l, b, d1, d2, nx);
    Tighten(c', l);
    BackSetEnd(c, size, l, b, pr);
    ExtendMembers(c, l, a, b);
  }

  /** The numbers of a run at l that goes on from a to b. */
  lemma ExtendMembers(c: Chain, l: int, a: int, b: int)
    requires Chained(c, NIL) && l in c.hi && Chained(SetEnd(c, l, b), NIL)
    requires 0 <= l <= c.hi[l] == a - 1 && a <= b
    ensures Members(SetEnd(c, l, b).hi) == Members(c.hi) + Range(a, b)
    ensures |Members(SetEnd(c, l, b).hi)| == |Members(c.hi)| + b - a + 1
  {
    hide Members, Chained;
    var c' := SetEnd(c, l, b);
    GrowMembers(c, l, b);
    Disjoint(c', NIL, l);
    DropRun(c'.hi, l);
    Disjoint(c, NIL, l);
    DropRun(c.hi, l);
    assert c'.hi - {l} == c.hi - {l};
    assert Range(l, b) == Range(l, a - 1) + Range(a, b);
  }

  lemma OwnedRun(c: Chain, size: int, s: int)
    requires size > 0 && Placed(c, size) && s in c.owner
    ensures c.owner[s] in c.hi && At(c, size, c.owner[s]) == s && 0 <= s < size
  {
  }

  // ----- removing one number from a list linked both ways -----

  ghost predicate IsTail(c: Chain, s: int) {
    s in c.owner && c.owner[s] in c.succ && c.succ[c.owner[s]] == NIL
  }

  lemma TailUnique(c: Chain, size: int, s: int, l: int)
    requires size > 0 && Wellformed(c, size, NIL) && IsTail(c, s) && l in c.hi
    ensures l in c.succ && (s == At(c, size, l) <==> c.succ[l] == NIL)
  {
    hide Slot;
    RunAt(c, size, NIL, l);
    OwnedRun(c, size, s);
    assert Consecutive(c, l, c.owner[s]) && Consecutive(c, c.owner[s], l);
  }

  lemma HeadUnique(c: Chain, size: int, l: int)
    requires size > 0 && Wellformed(c, size, NIL) && l in c.hi
    ensures l in c.pred && (Loc(c, size, c.first) == At(c, size, l) <==> c.pred[l] == NIL)
  {
    hide Slot;
    RunAt(c, size, NIL, l);
    RunAt(c, size, NIL, c.first);
  }

  /** Unlink with the back links and the tail. */
  lemma UnlinkBothWays(c: Chain, size: int, l: int, tail: int,
                       d1: seq<int>, d2: seq<int>, nx: seq<int>, pr: seq<int>)
    requires size > 0 && Wellformed(c, size, NIL) && l in c.hi && c.hi[l] == l && Stored(c, size, d1, d2, nx)
    requires BackStored(c, size, pr) && IsTail(c, tail)
    ensures l in c.succ && l in c.pred && l in Members(c.hi)
    ensures
      var s, p, m, c' := At(c, size, l), c.pred[l], c.succ[l], Unlink(c, size, l);
      && Wellformed(c', size, NIL)
      && Stored(c', size, d1[s := -1], d2[s := -1], if p == NIL then nx else nx[At(c, size, p) := nx[s]])
      && BackStored(c', size, if m == NIL then pr else pr[At(c, size, m) := pr[s]])
      && nx[s] == Loc(c, size, m) && pr[s] == Loc(c, size, p) && d2[s] == -1
      && (Loc(c, size, c.first) == s <==> p == NIL) && (tail == s <==> m == NIL)
      && Loc(c', size, c'.first) == (if p == NIL then nx[s] else Loc(c, size, c.first))
      && (p != NIL ==> pr[s] != -1 && pr[s] != s && (m == NIL ==> IsTail(c', pr[s])))
      && (m != NIL ==> nx[s] != -1 && nx[s] != s && IsTail(c', tail))
      && (p == NIL && m == NIL ==> c'.first == NIL)
      && Members(c'.hi) == Members(c.hi) - {l}
      && |Members(c'.hi)| == |Members(c.hi)| - 1
  {
    hide Slot, Wire, Placed, Stored, Members, SeqLen, Spanned, BackStored;
    RunAt(c, size, NIL, l);
    UnlinkEffect(c, size, l, d1, d2, nx);
    BackAt(c, size, pr, l);
    BackUnlink(c, size, l, pr);
    TailUnique(c, size, tail, l);
    HeadUnique(c, size, l);
    if c.pred[l] != NIL {
      RunAt(c, size, NIL, c.pred[l]);
    }
    if c.succ[l] != NIL {
      RunAt(c, size, NIL, c.succ[l]);
    }
    OwnedRun(c, size, tail);
    assert Covered(c.hi, l);
  }

  /** Advance with the back links and the tail. */
  lemma AdvanceBothWays(c: Chain, size: int, l: int, tail: int,
                        d1: seq<int>, d2: seq<int>, nx: seq<int>, pr: seq<int>)
    requires size > 0 && Wellformed(c, size, NIL) && l in c.hi && l < c.hi[l] && Stored(c, size, d1, d2, nx)
    requires BackStored(c, size, pr) && IsTail(c, tail)
    ensures l in c.succ && l in c.pred
    ensures
      var s, t, p, m, c' := At(c, size, l), At(c, size, l + 1), c.pred[l], c.succ[l], Advance(c, size, l);
      var nx', pr' := nx[t := nx[s]], pr[t := pr[s]];
      && Wellformed(c', size, NIL) && c'.first != NIL
      && Stored(c', size, d1[t := Num(l + 1)][s := -1],
                d2[t := if c.hi[l] == l + 1 then -1 else Num(c.hi[l])][s := -1],
                if p == NIL then nx' else nx'[At(c, size, p) := t])
      && BackStored(c', size, if m == NIL then pr' else pr'[At(c, size, m) := t])
      && t == (s + 1) % size && s != t && d2[t] == -1
      && d1[s] == Num(l) && d2[s] == Num(c.hi[l])
      && nx[s] == Loc(c, size, m) && pr[s] == Loc(c, size, p)
      && (Loc(c, size, c.first) == s <==> p == NIL) && (tail == s <==> m == NIL)
      && Loc(c', size, c'.first) == (if p == NIL then t else Loc(c, size, c.first))
      && IsTail(c', if m == NIL then t else tail)
      && (p != NIL ==> At(c, size, p) != t)
      && IncSeq(Num(l)) == Num(l + 1)
      && (SeqCmp(Num(c.hi[l]), Num(l + 1)) > 0 <==> c.hi[l] != l + 1)
      && Members(c'.hi) == Members(c.hi) - {l} && l in Members(c.hi)
  {
    hide Slot, Wire, Placed, Stored, Members, SeqCmp, IncSeq, Spanned, BackStored, Chained;
    RunAt(c, size, NIL, l);
    AdvanceEffect(c, size, l, d1, d2, nx);
    InteriorSlot(c, size, l, l + 1, d1, d2, nx);
    BackAt(c, size, pr, l);
    BackAdvance(c, size, l, pr);
    TailUnique(c, size, tail, l);
    HeadUnique(c, size, l);
    if c.pred[l] != NIL {
      RunAt(c, size, NIL, c.pred[l]);
    }
    OwnedRun(c, size, tail);
    RunAt(c, size, NIL, c.owner[tail]);
  }

  lemma BackOne(c: Chain, size: int, x: int)
    requires size > 0
    ensures Before(At(c, size, x), size) == At(c, size, x - 1)
  {
    SlotMove(x, x - 1, c.origin, size);
  }

  lemma AheadSlot(c: Chain, size: int, n: int, x: int)
    requires size > 0
    ensures (At(c, size, x) + (n - x)) % size == At(c, size, n)
  {
    SlotMove(x, n, c.origin, size);
  }

  /** The first slot in use found walking back from n. Only when n lies within the arrays' reach of the first
      number is it the run before n; otherwise everything stored is smaller than n. */
  lemma FoundBefore(c: Chain, size: int, n: int, j: int, d1: seq<int>, d2: seq<int>, nx: seq<int>) returns (l: int)
    requires size > 0 && Wellformed(c, size, NIL) && NearAll(c, n) && Stored(c, size, d1, d2, nx)
    requires c.first <= j < n && n !in c.hi
    requires d1[At(c, size, j)] != -1 && forall k | j < k < n :: d1[At(c, size, k)] == -1
    ensures l in c.hi && At(c, size, l) == At(c, size, j) && |d2| == size
    ensures n in Members(c.hi) <==> l < n <= c.hi[l]
    ensures n <= c.hi[l] ==> l < n
    ensures
      var v := d2[At(c, size, l)];
      && (v == -1 <==> c.hi[l] == l) && (v != -1 ==> v == Num(c.hi[l]))
      && (SeqCmp(Num(n), Num(c.hi[l])) > 0 <==> n > c.hi[l])
      && (Num(n) == Num(c.hi[l]) <==> n == c.hi[l])
      && Num(n) != -1
  {
    hide Slot, Wire, SeqCmp;
    var s := At(c, size, j);
    assert Cell(c, size, s, d1[s], d2[s], nx[s]);
    l := c.owner[s];
    NodeAt(c, size, NIL, d1, d2, nx, l);
    RunAt(c, size, NIL, l);
    EndFacts(c, size, n, l);
    NumOfNear(c, n);
    NearestRun(c, size, n, j, l, d1, d2, nx);
  }

  lemma EndFacts(c: Chain, size: int, n: int, l: int)
    requires size > 0 && Wellformed(c, size, NIL) && NearAll(c, n) && l in c.hi
    ensures SeqCmp(Num(n), Num(c.hi[l])) > 0 <==> n > c.hi[l]
    ensures Num(n) == Num(c.hi[l]) <==> n == c.hi[l]
  {
    hide SeqCmp, Wire, Slot, Placed;
    RunAt(c, size, NIL, l);
    OffAndCmp(n, c.hi[l]);
  }

  lemma NearestRun(c: Chain, size: int, n: int, j: int, l: int, d1: seq<int>, d2: seq<int>, nx: seq<int>)
    requires size > 0 && Wellformed(c, size, NIL) && NearAll(c, n) && Stored(c, size, d1, d2, nx)
    requires c.first <= j < n && n !in c.hi && l in c.hi && At(c, size, l) == At(c, size, j)
    requires forall k | j < k < n :: d1[At(c, size, k)] == -1
    ensures n in Members(c.hi) <==> l < n <= c.hi[l]
    ensures n <= c.hi[l] ==> l < n
  {
    hide Slot, Num, Stored, Placed, Chained, NearAll;
    RunAt(c, size, NIL, l);
    if n in Members(c.hi) {
      var y :| y in c.hi && y <= n <= c.hi[y];
      RunAt(c, size, NIL, y);
      SlotInjective(l, j, c.origin, size);
      InUse(c, size, y, d1, d2, nx);
      assert y <= l;
      Disjoint(c, NIL, l);
    }
    if n <= c.hi[l] {
      SlotInjective(l, j, c.origin, size);
      assert Covered(c.hi, n);
    }
  }

  lemma InUse(c: Chain, size: int, y: int, d1: seq<int>, d2: seq<int>, nx: seq<int>)
    requires size > 0 && Wellformed(c, size, NIL) && Stored(c, size, d1, d2, nx) && y in c.hi
    ensures |d1| == size && d1[At(c, size, y)] != -1
  {
    hide Slot, Wire;
    NodeAt(c, size, NIL, d1, d2, nx, y);
    RunAt(c, size, NIL, y);
  }

  /** Everything taking the last number off the run at l changes. */
  lemma TrimEffect(c: Chain, size: int, l: int, tail: int, d1: seq<int>, d2: seq<int>, nx: seq<int>, pr: seq<int>)
    requires size > 0 && Wellformed(c, size, NIL) && l in c.hi && l < c.hi[l] && Stored(c, size, d1, d2, nx)
    requires BackStored(c, size, pr) && IsTail(c, tail)
    ensures
      var n, s := c.hi[l], At(c, size, l);
      var c' := SetEnd(c, l, n - 1);
      && Wellformed(c', size, NIL)
      && Stored(c', size, d1, d2[s := if n - 1 == l then -1 else Num(n - 1)], nx)
      && BackStored(c', size, pr) && IsTail(c', tail)
      && d1[s] == Num(l) && (Num(n) == IncSeq(Num(l)) <==> n == l + 1) && DecSeq(Num(n)) == Num(n - 1)
      && Members(c'.hi) == Members(c.hi) - {n} && n in Members(c.hi)
  {
    hide Slot, Wire, Placed, Stored, Members, IncSeq, DecSeq, Chained, BackStored;
    var n := c.hi[l];
    RunAt(c, size, NIL, l);
    NodeAt(c, size, NIL, d1, d2, nx, l);
    IncIsSucc(l);
    OffAndCmp(n, l + 1);
    DecIsPred(n);
    Loosen(c, l);
    SetEndWellformed(c, size, l, n - 1);
    SetEndStored(c, size, l, n - 1, d1, d2, nx);
    Tighten(SetEnd(c, l, n - 1), l);
    BackSetEnd(c, size, l, n - 1, pr);
    Disjoint(c, NIL, l);
    TrimRun(c.hi, l);
  }

  /** Split with the back links and the tail. */
  lemma SplitBothWays(c: Chain, size: int, l: int, n: int, tail: int,
                      d1: seq<int>, d2: seq<int>, nx: seq<int>, pr: seq<int>)
    requires size > 0 && Wellformed(c, size, NIL) && l in c.hi && l < n < c.hi[l] && Stored(c, size, d1, d2, nx)
    requires BackStored(c, size, pr) && IsTail(c, tail)
    ensures l in c.succ && 0 <= l
    ensures
      var s, t, m, c' := At(c, size, l), At(c, size, n + 1), c.succ[l], Split(c, size, l, n);
      var pr' := pr[t := s];
      && Wellformed(c', size, NIL) && c'.first == c.first && c'.origin == c.origin
      && Stored(c', size, d1[t := Num(n + 1)], d2[s := Num(n)][t := if c.hi[l] == n + 1 then -1 else Num(c.hi[l])],
                nx[t := nx[s]][s := t])
      && BackStored(c', size, if m == NIL then pr' else pr'[At(c, size, m) := t])
      && s != t && d2[t] == -1 && d2[s] == Num(c.hi[l]) && d1[s] == Num(l) && nx[s] == Loc(c, size, m)
      && (tail == s <==> m == NIL) && IsTail(c', if m == NIL then t else tail)
      && IncSeq(Num(n)) == Num(n + 1)
      && (SeqCmp(Num(c.hi[l]), Num(n + 1)) > 0 <==> c.hi[l] != n + 1)
      && l in c'.hi && c'.hi[l] == n
      && Members(c'.hi) == Members(c.hi)
  {
    hide Slot, Wire, Placed, Stored, Members, SeqCmp, IncSeq, Chained, BackStored;
    RunAt(c, size, NIL, l);
    NodeAt(c, size, NIL, d1, d2, nx, l);
    InteriorSlot(c, size, l, n + 1, d1, d2, nx);
    SplitEffect(c, size, l, n, d1, d2, nx);
    BackSplit(c, size, l, n, pr);
    TailUnique(c, size, tail, l);
    OwnedRun(c, size, tail);
    RunAt(c, size, NIL, c.owner[tail]);
  }

  // ----- reading the chain in order -----

  /** The runs from x on, in order. */
  ghost function RunsFrom(c: Chain, size: int, x: int): (rs: seq<Interval>)
    requires size > 0 && Wellformed(c, size, NIL) && (x != NIL ==> x in c.hi)
    ensures x == NIL <==> rs == []
    ensures x != NIL ==> rs[0] == Interval(x, c.hi[x])
    decreases if x == NIL then 0 else c.first + size - x + 1
  {
    if x == NIL then []
    else
      assert Link(c, NIL, x);
      assert c.succ[x] != NIL ==> Link(c, NIL, c.succ[x]) && Spans(c.first, c.hi[c.succ[x]], size);
      assert Spans(c.first, c.hi[x], size);
      [Interval(x, c.hi[x])] + RunsFrom(c, size, c.succ[x])
  }

  /** The numbers at or past x, for a run x, are exactly those in the runs from x on. */
  lemma {:induction false} RunsCover(c: Chain, size: int, x: int)
    requires size > 0 && Wellformed(c, size, NIL) && x in c.hi
    ensures x != NIL
    ensures Union(RunsFrom(c, size, x)) == set y | y in Members(c.hi) && x <= y
    decreases c.first + size - x
  {
    hide Members, Placed;
    RunAt(c, size, NIL, x);
    var n := c.succ[x];
    var rs := RunsFrom(c, size, x);
    assert rs[1..] == RunsFrom(c, size, n);
    if n != NIL {
      RunAt(c, size, NIL, n);
      RunsCover(c, size, n);
    }
    forall y ensures y in Union(rs) <==> y in Members(c.hi) && x <= y {
      if y in Members(c.hi) && x <= y {
        var l :| l in c.hi && l <= y <= c.hi[l];
        RunAt(c, size, NIL, l);
        Disjoint(c, NIL, x);
        assert Consecutive(c, x, l);
      }
      if x <= y <= c.hi[x] {
        assert Covered(c.hi, y);
      }
    }
  }

  lemma {:induction false} RunsIncrease(c: Chain, size: int, x: int)
    requires size > 0 && Wellformed(c, size, NIL) && x in c.hi
    ensures x != NIL
    ensures Increasing(RunsFrom(c, size, x))
    ensures forall i | 0 <= i < |RunsFrom(c, size, x)| :: x <= RunsFrom(c, size, x)[i].lo
    decreases c.first + size - x
  {
    hide Placed;
    RunAt(c, size, NIL, x);
    var n := c.succ[x];
    var rs := RunsFrom(c, size, x);
    assert rs[1..] == RunsFrom(c, size, n);
    if n != NIL {
      RunAt(c, size, NIL, n);
      RunsIncrease(c, size, n);
      assert forall i | 1 <= i < |rs| :: rs[i] == rs[1..][i - 1] && n <= rs[i].lo;
    }
  }

  lemma FirstIsNilOrRun(c: Chain, size: int)
    requires size > 0 && Wellformed(c, size, NIL)
    ensures c.first == NIL || c.first in c.hi
    ensures forall x | x in Members(c.hi) :: c.first != NIL && c.first <= x
  {
    hide Placed;
    forall x | x in Members(c.hi) ensures c.first != NIL && c.first <= x {
      var y :| y in c.hi && y <= x <= c.hi[y];
      RunAt(c, size, NIL, y);
    }
  }

  lemma FromFirst(c: Chain, size: int)
    requires size > 0 && Wellformed(c, size, NIL) && c.first != NIL
    ensures c.first in c.hi
    ensures (set y | y in Members(c.hi) && c.first <= y) == Members(c.hi)
  {
    FirstIsNilOrRun(c, size);
  }

  lemma FirstIsNil(c: Chain, size: int)
    requires size > 0 && Wellformed(c, size, NIL) && c.first == NIL
    ensures Members(c.hi) == {}
  {
    FirstIsNilOrRun(c, size);
  }

  lemma NumIsWire(c: Chain, size: int, l: int)
    requires size > 0 && Wellformed(c, size, NIL) && l in c.hi
    ensures 0 <= l <= c.hi[l] && Num(l) == Wire(l) && Num(c.hi[l]) == Wire(c.hi[l])
  {
    RunAt(c, size, NIL, l);
  }

  /** What the search for a lost number in a..b reads off the run at l. */
  lemma FindFacts(c: Chain, size: int, l: int, a: int, b: int)
    requires size > 0 && Wellformed(c, size, NIL) && NearAll(c, a) && NearAll(c, b) && l in c.hi
    ensures SeqCmp(Num(l), Num(a)) == 0 <==> l == a
    ensures SeqCmp(Num(l), Num(a)) > 0 <==> l > a
    ensures SeqCmp(Num(l), Num(a)) < 0 <==> l < a
    ensures SeqCmp(Num(l), Num(b)) <= 0 <==> l <= b
    ensures SeqCmp(Num(c.hi[l]), Num(a)) >= 0 <==> c.hi[l] >= a
    ensures l in Members(c.hi) && c.hi[l] in Members(c.hi)
    ensures l <= a <= c.hi[l] ==> a in Members(c.hi)
  {
    hide SeqCmp, Wire, Slot, Placed;
    RunAt(c, size, NIL, l);
    OffAndCmp(l, a);
    OffAndCmp(l, b);
    OffAndCmp(c.hi[l], a);
    assert Covered(c.hi, l) && Covered(c.hi, c.hi[l]);
    if l <= a <= c.hi[l] {
      assert Covered(c.hi, a);
    }
  }

  lemma FoundRun(c: Chain, l: int, a: int, b: int)
    requires l in c.hi && l <= c.hi[l] && a <= b && (a <= l <= b || (l < a <= c.hi[l]))
    ensures exists x :: x in Members(c.hi) && a <= x <= b
  {
    var x := if l < a then a else l;
    assert Covered(c.hi, x);
    assert x in Members(c.hi);
  }

  lemma PastRun(c: Chain, size: int, l: int, a: int, b: int)
    requires size > 0 && Wellformed(c, size, NIL) && l in c.hi && a <= b
    requires !(l <= a <= c.hi[l]) && !(a <= l <= b)
    requires forall x | x in Members(c.hi) && x < l :: !(a <= x <= b)
    ensures l in c.succ && (c.succ[l] == NIL || (c.succ[l] in c.hi && l < c.succ[l] <= c.first + size))
    ensures forall x | x in Members(c.hi) && (c.succ[l] == NIL || x < c.succ[l]) :: !(a <= x <= b)
  {
    hide Placed;
    RunAt(c, size, NIL, l);
    if c.succ[l] != NIL {
      RunAt(c, size, NIL, c.succ[l]);
    }
    forall x | x in Members(c.hi) && (c.succ[l] == NIL || x < c.succ[l]) ensures !(a <= x <= b) {
      var y :| y in c.hi && y <= x <= c.hi[y];
      RunAt(c, size, NIL, y);
      Disjoint(c, NIL, l);
      assert Consecutive(c, l, y);
    }
  }
}
