/** Byte strings and the packets an application buffer is cut into. */
module Bytes {
  import opened Ring

  newtype byte = x: int | 0 <= x < 256

  type Bytes = seq<byte>

  /** The concatenation of a sequence of payloads. */
  function Flatten(cs: seq<Bytes>): Bytes {
    if cs == [] then [] else cs[0] + Flatten(cs[1..])
  }

  /** data cut into pieces of mss bytes, the last one possibly shorter. */
  function Cut(data: Bytes, mss: int): (cs: seq<Bytes>)
    requires mss > 0
    ensures forall i | 0 <= i < |cs| :: 0 < |cs[i]| <= mss
  {
    if |data| == 0 then []
    else if |data| <= mss then [data]
    else [data[..mss]] + Cut(data[mss..], mss)
  }

  lemma {:induction false} FlattenCut(data: Bytes, mss: int)
    requires mss > 0
    ensures Flatten(Cut(data, mss)) == data
    decreases |data|
  {
    if |data| == 0 {
    } else if |data| <= mss {
      assert Flatten([data]) == data + Flatten([]);
    } else {
      FlattenCut(data[mss..], mss);
      var cs := Cut(data, mss);
      assert cs[1..] == Cut(data[mss..], mss);
      assert data == data[..mss] + data[mss..];
    }
  }

  lemma {:induction false} FlattenAppend(a: seq<Bytes>, b: seq<Bytes>)
    ensures Flatten(a + b) == Flatten(a) + Flatten(b)
  {
    if a == [] {
      assert a + b == b;
    } else {
      assert (a + b)[1..] == a[1..] + b;
      FlattenAppend(a[1..], b);
    }
  }

  lemma FlattenOne(c: Bytes)
    ensures Flatten([c]) == c
  {
    assert [c][1..] == [];
  }

  /** The payloads before k come first in the stream. */
  lemma FlattenPrefix(cs: seq<Bytes>, k: int)
    requires 0 <= k <= |cs|
    ensures Flatten(cs) == Flatten(cs[..k]) + Flatten(cs[k..])
    ensures Flatten(cs[..k]) <= Flatten(cs)
  {
    FlattenAppend(cs[..k], cs[k..]);
    assert cs[..k] + cs[k..] == cs;
  }

  lemma FlattenNext(cs: seq<Bytes>, k: int)
    requires 0 <= k < |cs|
    ensures Flatten(cs[..k + 1]) == Flatten(cs[..k]) + cs[k]
  {
    FlattenAppend(cs[..k], [cs[k]]);
    FlattenOne(cs[k]);
    assert cs[..k] + [cs[k]] == cs[..k + 1];
  }

  /** Piece i of a cut starts at i * mss. */
  lemma {:induction false} CutAt(data: Bytes, mss: int, i: int)
    requires mss > 0 && 0 <= i < |Cut(data, mss)|
    ensures 0 <= i * mss < |data|
    ensures Cut(data, mss)[i] ==
      data[i * mss..if |data| - i * mss > mss then i * mss + mss else |data|]
    decreases i
  {
    if i > 0 {
      var rest := data[mss..];
      CutRest(data, mss, i);
      CutAt(rest, mss, i - 1);
      TimesPrev(i, mss);
      RestSlice(data, mss, (i - 1) * mss, i * mss);
    }
  }

  lemma TimesPrev(i: int, mss: int)
    ensures i * mss == (i - 1) * mss + mss
  {
  }

  lemma CutRest(data: Bytes, mss: int, i: int)
    requires mss > 0 && 0 < i < |Cut(data, mss)|
    ensures |data| > mss && i - 1 < |Cut(data[mss..], mss)| && Cut(data, mss)[i] == Cut(data[mss..], mss)[i - 1]
  {
  }

  lemma RestSlice(data: Bytes, mss: int, k: int, at: int)
    requires 0 < mss < |data| && 0 <= k < |data| - mss && at == k + mss
    ensures 0 <= at < |data|
    ensures data[mss..][k..if |data| - mss - k > mss then k + mss else |data| - mss]
         == data[at..if |data| - at > mss then at + mss else |data|]
  {
  }

  /** The number of pieces is the length over mss, rounded up. */
  lemma {:induction false} CutSize(data: Bytes, mss: int)
    requires mss > 0
    ensures |Cut(data, mss)| == |data| / mss + (if |data| % mss != 0 then 1 else 0)
    decreases |data|
  {
    var n := |data|;
    if n < mss {
      DivIs(n, 0, mss, n);
    } else if n == mss {
      DivIs(n, 1, mss, 0);
    } else {
      CutSize(data[mss..], mss);
      DivStep(n - mss, mss);
    }
  }

  lemma DivIs(x: int, q: int, p: int, r: int)
    requires p > 0 && 0 <= r < p && x == q * p + r
    ensures x / p == q && x % p == r
  {
    var q', r' := x / p, x % p;
    assert x == q' * p + r';
    SameMultiple(q', q, p);
  }

  lemma DivStep(a: int, m: int)
    requires a >= 0 && m > 0
    ensures (a + m) / m == a / m + 1 && (a + m) % m == a % m
  {
    var q, r := a / m, a % m;
    assert a == q * m + r;
    assert (q + 1) * m == q * m + m;
    DivIs(a + m, q + 1, m, r);
  }

  lemma CutPieces(data: Bytes, mss: int)
    requires mss > 0
    ensures forall i | 0 <= i < |Cut(data, mss)| :: 0 < |Cut(data, mss)[i]| <= mss
  {
  }
}
