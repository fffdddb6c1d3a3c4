/** The loss report on the wire: one word for a single number, two words for a longer run, the first of them with
    its top bit set. Words are unsigned 32-bit values. */
module Nak {
  import opened SeqNo
  import opened Runs

  const FLAG: int := 0x8000_0000

  function EncodeOne(iv: Interval): (w: seq<int>)
    requires 0 <= iv.lo && 0 <= iv.hi
  {
    if iv.lo == iv.hi then [Wire(iv.lo)] else [Wire(iv.lo) + FLAG, Wire(iv.hi)]
  }

  function Encode(rs: seq<Interval>): (w: seq<int>)
    requires forall i | 0 <= i < |rs| :: 0 <= rs[i].lo && 0 <= rs[i].hi
  {
    if rs == [] then [] else EncodeOne(rs[0]) + Encode(rs[1..])
  }

  /** A single number is one word; of two words the first, and only that, has its top bit set. */
  lemma WordsAre(iv: Interval)
    requires 0 <= iv.lo && 0 <= iv.hi
    ensures iv.lo == iv.hi ==> EncodeOne(iv) == [iv.lo % 0x4000_0000]
    ensures iv.lo != iv.hi ==> EncodeOne(iv) == [0x8000_0000 + iv.lo % 0x4000_0000, iv.hi % 0x4000_0000]
  {
  }

  /** A pair of sequence numbers as they travel. */
  datatype Pair = Pair(seq1: int, seq2: int)

  /** Whether the word at the front announces a second one. */
  predicate Flagged(word: int) {
    word >= FLAG
  }

  /** The pairs the loss report handler sees; a report cut off after a flagged word has no meaning. */
  function Decode(w: seq<int>): (ps: seq<Pair>) {
    if w == [] then []
    else if !Flagged(w[0]) then [Pair(w[0], w[0])] + Decode(w[1..])
    else if |w| == 1 then []
    else [Pair(w[0] - FLAG, w[1])] + Decode(w[2..])
  }

  function WirePair(iv: Interval): Pair
    requires 0 <= iv.lo && 0 <= iv.hi
  {
    Pair(Wire(iv.lo), Wire(iv.hi))
  }

  function WirePairs(rs: seq<Interval>): (ps: seq<Pair>)
    requires forall i | 0 <= i < |rs| :: 0 <= rs[i].lo && 0 <= rs[i].hi
  {
    if rs == [] then [] else [WirePair(rs[0])] + WirePairs(rs[1..])
  }

  lemma DecodeOne(iv: Interval, w: seq<int>)
    requires 0 <= iv.lo && 0 <= iv.hi
    ensures Decode(EncodeOne(iv) + w) == [WirePair(iv)] + Decode(w)
  {
    if iv.lo == iv.hi {
      assert (EncodeOne(iv) + w)[1..] == w;
    } else {
      assert (EncodeOne(iv) + w)[2..] == w;
    }
  }

  /** Decoding a report gives back the runs, whatever follows them. */
  lemma {:induction false} RoundTrip(rs: seq<Interval>, rest: seq<int>)
    requires forall i | 0 <= i < |rs| :: 0 <= rs[i].lo && 0 <= rs[i].hi
    ensures Decode(Encode(rs) + rest) == WirePairs(rs) + Decode(rest)
  {
    hide Wire, EncodeOne, Decode;
    if rs == [] {
      assert Encode(rs) + rest == rest;
    } else {
      RoundTrip(rs[1..], rest);
      DecodeOne(rs[0], Encode(rs[1..]) + rest);
      assert Encode(rs) + rest == EncodeOne(rs[0]) + (Encode(rs[1..]) + rest);
    }
  }

  lemma {:induction false} EncodeAppend(rs: seq<Interval>, k: int)
    requires 0 <= k < |rs|
    requires forall i | 0 <= i < |rs| :: 0 <= rs[i].lo && 0 <= rs[i].hi
    ensures Encode(rs[..k + 1]) == Encode(rs[..k]) + EncodeOne(rs[k])
    decreases k
  {
    if k == 0 {
      assert rs[..1] == [rs[0]];
      assert rs[..0] == [];
      assert Encode([rs[0]]) == EncodeOne(rs[0]) + Encode([rs[0]][1..]);
    } else {
      assert rs[..k + 1][0] == rs[0] && rs[..k][0] == rs[0];
      assert rs[..k + 1][1..] == rs[1..][..k] && rs[..k][1..] == rs[1..][..k - 1];
      EncodeAppend(rs[1..], k - 1);
    }
  }

  lemma EncodeNone(rs: seq<Interval>)
    requires forall i | 0 <= i < |rs| :: 0 <= rs[i].lo && 0 <= rs[i].hi
    ensures Encode(rs[..0]) == []
  {
  }

  // ----- how much of the loss list fits -----

  /** With room for limit words the report of rs ends after k runs: a run is written only while two words are left. */
  predicate StopsAt(rs: seq<Interval>, k: int, limit: int)
    requires forall i | 0 <= i < |rs| :: 0 <= rs[i].lo && 0 <= rs[i].hi
  {
    && 0 <= k <= |rs|
    && (k > 0 ==> |Encode(rs[..k - 1])| < limit - 1)
    && (k < |rs| ==> limit - 1 <= |Encode(rs[..k])|)
  }

  lemma {:induction false} EncodeGrows(rs: seq<Interval>, i: int, j: int)
    requires 0 <= i <= j <= |rs|
    requires forall i | 0 <= i < |rs| :: 0 <= rs[i].lo && 0 <= rs[i].hi
    ensures |Encode(rs[..i])| <= |Encode(rs[..j])|
    decreases j
  {
    if i < j {
      EncodeGrows(rs, i, j - 1);
      EncodeAppend(rs, j - 1);
    }
  }

  /** That settles k. */
  lemma StopsOnce(rs: seq<Interval>, k: int, j: int, limit: int)
    requires forall i | 0 <= i < |rs| :: 0 <= rs[i].lo && 0 <= rs[i].hi
    requires StopsAt(rs, k, limit) && StopsAt(rs, j, limit)
    ensures k == j
  {
    hide Encode;
    if k < j {
      EncodeGrows(rs, k, j - 1);
    } else if j < k {
      EncodeGrows(rs, j, k - 1);
    }
  }

  /** Everything is reported exactly if two words are left for the last run. */
  lemma AllReported(rs: seq<Interval>, k: int, limit: int)
    requires forall i | 0 <= i < |rs| :: 0 <= rs[i].lo && 0 <= rs[i].hi
    requires StopsAt(rs, k, limit)
    ensures k == |rs| <==> rs == [] || |Encode(rs[..|rs| - 1])| < limit - 1
  {
    hide Encode;
    if k < |rs| {
      EncodeGrows(rs, k, |rs| - 1);
    }
  }

  /** So a report that would fit may be cut short: a single number in a single word. */
  lemma FitsButNotReported(n: int)
    requires 0 <= n
    ensures |Encode([Interval(n, n)])| == 1 && StopsAt([Interval(n, n)], 0, 1) && !StopsAt([Interval(n, n)], 1, 1)
  {
    var rs := [Interval(n, n)];
    assert rs[..0] == [] && rs[1..] == [];
    assert Encode(rs) == EncodeOne(rs[0]) + Encode(rs[1..]);
  }
}
