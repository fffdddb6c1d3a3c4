/** A finite set of numbers given by runs lo..hi, each keyed by its lo. */
module Runs {

  predicate Between(a: int, x: int, b: int) {
    a <= x <= b
  }

  ghost predicate Covered(hi: map<int, int>, x: int) {
    exists lo :: lo in hi && lo <= x <= hi[lo]
  }

  /** The numbers in some run. */
  ghost function Members(hi: map<int, int>): (s: set<int>)
    ensures forall x :: x in s <==> Covered(hi, x)
  {
    var s := set lo, x | lo in hi && lo <= x <= hi[lo] && Between(lo, x, hi[lo]) :: x;
    assert forall x | Covered(hi, x) :: x in s by {
      forall x | Covered(hi, x) ensures x in s {
        var lo :| lo in hi && lo <= x <= hi[lo];
        assert Between(lo, x, hi[lo]);
      }
    }
    s
  }

  ghost function Range(a: int, b: int): (s: set<int>)
    ensures forall x :: x in s <==> a <= x <= b
  {
    var s := set x | a <= x <= b && Between(a, x, b);
    assert forall x | a <= x <= b :: Between(a, x, b);
    s
  }

  lemma {:induction false} RangeSize(a: int, b: int)
    requires a <= b + 1
    ensures |Range(a, b)| == b - a + 1
    decreases b - a
  {
    if a <= b {
      RangeSize(a, b - 1);
      assert Range(a, b) == Range(a, b - 1) + {b};
    } else {
      assert Range(a, b) == {};
    }
  }

  lemma EmptyMembers(hi: map<int, int>)
    requires |Members(hi)| == 0 && forall x | x in hi :: x <= hi[x]
    ensures hi == map[]
  {
    forall x ensures x !in hi {
      assert x in hi ==> Covered(hi, x);
    }
  }

  lemma AddRun(hi: map<int, int>, a: int, b: int)
    requires a in hi ==> hi[a] <= b
    ensures Members(hi[a := b]) == Members(hi) + Range(a, b)
  {
    var hi' := hi[a := b];
    forall x | x in Members(hi) + Range(a, b) ensures x in Members(hi') {
      if a <= x <= b {
        assert a in hi' && a <= x <= hi'[a];
      } else {
        var lo :| lo in hi && lo <= x <= hi[lo];
        assert lo in hi' && lo <= x <= hi'[lo];
      }
    }
  }

  lemma DropRun(hi: map<int, int>, i: int)
    requires i in hi && i <= hi[i]
    requires forall x | x in hi && x != i :: hi[x] < i || hi[i] < x
    ensures Members(hi - {i}) == Members(hi) - Range(i, hi[i])
    ensures Range(i, hi[i]) <= Members(hi)
    ensures |Members(hi - {i})| == |Members(hi)| - (hi[i] - i + 1)
  {
    var m := hi - {i};
    forall x | x in Members(hi) && x !in Range(i, hi[i]) ensures x in Members(m) {
      var lo :| lo in hi && lo <= x <= hi[lo];
      assert lo in m;
    }
    forall x | x in Range(i, hi[i]) ensures x in Members(hi) {
      assert i in hi && i <= x <= hi[i];
    }
    RangeSize(i, hi[i]);
  }

  /** Absorbing the successor run into run l. */
  lemma MergeRun(hi: map<int, int>, l: int, i: int, h: int)
    requires l in hi && i in hi && l < i <= hi[l] + 1 && i <= hi[i] && l <= hi[l]
    requires h == if hi[l] < hi[i] then hi[i] else hi[l]
    ensures Members(hi[l := h] - {i}) == Members(hi)
  {
    var m := hi[l := h] - {i};
    forall x | x in Members(hi) ensures x in Members(m) {
      var lo :| lo in hi && lo <= x <= hi[lo];
      if lo == i || lo == l {
        assert l in m && l <= x <= m[l];
      } else {
        assert lo in m && m[lo] == hi[lo];
      }
    }
    forall x | x in Members(m) ensures x in Members(hi) {
      var lo :| lo in m && lo <= x <= m[lo];
      if lo == l {
        if x <= hi[l] { assert l in hi && l <= x <= hi[l]; } else { assert i in hi && i <= x <= hi[i]; }
      } else {
        assert lo in hi && hi[lo] == m[lo];
      }
    }
  }

  lemma RangeStep(a: int, b: int)
    requires a <= b
    ensures Range(a, b) == Range(a + 1, b) + {a}
  {
  }

  /** Dropping the first number of a longer run. */
  lemma AdvanceRun(hi: map<int, int>, l: int)
    requires l in hi && l < hi[l] && l + 1 !in hi
    requires forall x | x in hi && x != l :: hi[x] < l || hi[l] < x
    ensures Members((hi - {l})[l + 1 := hi[l]]) == Members(hi) - {l}
    ensures l in Members(hi)
  {
    hide Members;
    DropRun(hi, l);
    AddRun(hi - {l}, l + 1, hi[l]);
    RangeStep(l, hi[l]);
    assert Covered(hi, l);
    assert l !in Members(hi) - Range(l, hi[l]);
  }

  /** Cutting run l in two after n. */
  lemma SplitRun(hi: map<int, int>, l: int, n: int)
    requires l in hi && l <= n < hi[l] && n + 1 !in hi
    ensures Members(hi[l := n][n + 1 := hi[l]]) == Members(hi)
  {
    var m := hi[l := n][n + 1 := hi[l]];
    forall x | x in Members(hi) ensures x in Members(m) {
      var lo :| lo in hi && lo <= x <= hi[lo];
      if lo == l {
        if x <= n { assert l in m && l <= x <= m[l]; } else { assert n + 1 in m && n + 1 <= x <= m[n + 1]; }
      } else {
        assert lo in m && m[lo] == hi[lo];
      }
    }
    forall x | x in Members(m) ensures x in Members(hi) {
      var lo :| lo in m && lo <= x <= m[lo];
      if lo == l || lo == n + 1 {
        assert l in hi && l <= x <= hi[l];
      } else {
        assert lo in hi && hi[lo] == m[lo];
      }
    }
  }

  /** Dropping the last number of a longer run. */
  lemma TrimRun(hi: map<int, int>, l: int)
    requires l in hi && l < hi[l]
    requires forall x | x in hi && x != l :: hi[x] < l || hi[l] < x
    ensures Members(hi[l := hi[l] - 1]) == Members(hi) - {hi[l]}
    ensures hi[l] in Members(hi)
  {
    var m := hi[l := hi[l] - 1];
    forall x | x in Members(hi) && x != hi[l] ensures x in Members(m) {
      var lo :| lo in hi && lo <= x <= hi[lo];
      assert lo in m && lo <= x <= m[lo];
    }
    forall x | x in Members(m) ensures x in Members(hi) && x != hi[l] {
      var lo :| lo in m && lo <= x <= m[lo];
      assert lo in hi && lo <= x <= hi[lo];
    }
    assert l in hi && l <= hi[l] <= hi[l];
  }

  // ----- runs in order -----

  datatype Interval = Interval(lo: int, hi: int)

  /** The numbers in a sequence of intervals. */
  ghost function Union(rs: seq<Interval>): set<int> {
    if rs == [] then {} else Range(rs[0].lo, rs[0].hi) + Union(rs[1..])
  }

  ghost predicate Increasing(rs: seq<Interval>) {
    && (forall i | 0 <= i < |rs| :: 0 <= rs[i].lo <= rs[i].hi)
    && (forall i, j | 0 <= i < j < |rs| :: rs[i].hi < rs[j].lo)
  }

  lemma {:induction false} UnionHas(rs: seq<Interval>, x: int)
    ensures x in Union(rs) <==> exists i :: 0 <= i < |rs| && rs[i].lo <= x <= rs[i].hi
    decreases |rs|
  {
    if rs != [] {
      UnionHas(rs[1..], x);
      if i :| 0 <= i < |rs| && rs[i].lo <= x <= rs[i].hi {
        if i > 0 {
          assert rs[1..][i - 1] == rs[i];
        }
      }
      if i :| 0 <= i < |rs| - 1 && rs[1..][i].lo <= x <= rs[1..][i].hi {
        assert rs[i + 1] == rs[1..][i];
      }
    }
  }

  /** The leading runs of a report hold nothing but reported numbers, and all of them when none is left out. */
  lemma PrefixRuns(rs: seq<Interval>, k: int)
    requires Increasing(rs) && 0 <= k <= |rs|
    ensures Increasing(rs[..k]) && Union(rs[..k]) <= Union(rs)
    ensures forall i | 0 <= i < k :: 0 <= rs[i].lo <= rs[i].hi && rs[i].lo in Union(rs) && rs[i].hi in Union(rs)
    ensures k == |rs| ==> rs[..k] == rs
    ensures Union(rs[..k]) == Union(rs) <==> k == |rs|
  {
    hide Union;
    if k < |rs| {
      UnionHas(rs, rs[k].lo);
      UnionHas(rs[..k], rs[k].lo);
    }
    forall x | x in Union(rs[..k]) ensures x in Union(rs) {
      UnionHas(rs[..k], x);
      var i :| 0 <= i < k && rs[..k][i].lo <= x <= rs[..k][i].hi;
      UnionHas(rs, x);
    }
    forall i | 0 <= i < k ensures rs[i].lo in Union(rs) && rs[i].hi in Union(rs) {
      UnionHas(rs, rs[i].lo);
      UnionHas(rs, rs[i].hi);
    }
  }
}
