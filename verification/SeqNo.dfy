/** Circular 30-bit sequence numbers (CSeqNo) and the unbounded numbers they stand for. */
module SeqNo {

  const MAX_SEQ: int := 0x3FFF_FFFF
  const SEQ_TH: int := 0x1FFF_FFFF
  const SEQ_MOD: int := 0x4000_0000

  function Abs(x: int): nat { if x < 0 then -x else x }

  // The six operations of CSeqNo. Every argument the program passes lies in -1..MAX_SEQ
  // (-1 is ISN - 1 when ISN is 0), so no intermediate result leaves 32 bits: see FitsInt32.

  function SeqCmp(s1: int, s2: int): int {
    if Abs(s1 - s2) < SEQ_TH then s1 - s2 else s2 - s1
  }

  function SeqLen(s1: int, s2: int): int {
    if s1 <= s2 then s2 - s1 + 1 else s2 - s1 + MAX_SEQ + 2
  }

  function SeqOff(s1: int, s2: int): int {
    if Abs(s1 - s2) < SEQ_TH then s2 - s1
    else if s1 < s2 then s2 - s1 - MAX_SEQ - 1
    else s2 - s1 + MAX_SEQ + 1
  }

  function IncSeq(s: int): int {
    if s == MAX_SEQ then 0 else s + 1
  }

  function DecSeq(s: int): int {
    if s == 0 then MAX_SEQ else s - 1
  }

  function IncSeqBy(s: int, inc: int): int {
    if MAX_SEQ - s >= inc then s + inc else s - MAX_SEQ + inc - 1
  }

  /** The number that travels for the unbounded number x. Both "current" counters start at ISN - 1
      without wrapping, hence the exception for -1. */
  function Wire(x: int): (s: int)
    requires -1 <= x
    ensures -1 <= s <= MAX_SEQ
    ensures x >= 0 ==> s >= 0
  {
    if x < 0 then x else x % SEQ_MOD
  }

  /** Two unbounded numbers closer than the comparison threshold. */
  predicate Near(x: int, y: int) {
    Abs(x - y) < SEQ_TH
  }

  lemma FitsInt32(s1: int, s2: int, inc: int)
    requires -1 <= s1 <= MAX_SEQ && -1 <= s2 <= MAX_SEQ && 0 <= inc <= SEQ_MOD
    ensures -0x8000_0000 <= s1 - s2 < 0x8000_0000
    ensures -0x8000_0000 <= SeqCmp(s1, s2) < 0x8000_0000
    ensures 1 <= SeqLen(s1, s2) < 0x8000_0000
    ensures Abs(SeqOff(s1, s2)) <= SEQ_TH + 2
    ensures 0 <= IncSeq(s1) <= MAX_SEQ
    ensures -1 <= IncSeqBy(s1, inc) <= MAX_SEQ
  {
  }

  lemma WireClose(x: int, y: int)
    requires -1 <= x && -1 <= y && Abs(x - y) < SEQ_MOD
    ensures Wire(y) - Wire(x) == y - x
         || Wire(y) - Wire(x) == y - x - SEQ_MOD
         || Wire(y) - Wire(x) == y - x + SEQ_MOD
    ensures x < 0 ==> Wire(y) - Wire(x) == y - x || y == MAX_SEQ
    ensures Wire(x) == Wire(y) ==> x == y
  {
    if x >= 0 && y >= 0 {
      var qx, qy := x / SEQ_MOD, y / SEQ_MOD;
      assert x == qx * SEQ_MOD + Wire(x) && y == qy * SEQ_MOD + Wire(y);
      assert -1 <= qx - qy <= 1;
    }
  }

  /** seqoff on residues is the true distance, and seqcmp has the sign of the true difference. */
  lemma OffAndCmp(x: int, y: int)
    requires -1 <= x && -1 <= y && Near(x, y)
    ensures SeqOff(Wire(x), Wire(y)) == y - x
    ensures SeqCmp(Wire(x), Wire(y)) > 0 <==> x > y
    ensures SeqCmp(Wire(x), Wire(y)) < 0 <==> x < y
    ensures Wire(x) == Wire(y) <==> x == y
  {
    WireClose(x, y);
  }

  /** The threshold is exact: at distance SEQ_TH the sign seqcmp reports depends on where the wrap falls. */
  lemma ThresholdIsTight(x: int)
    requires 0 <= x < SEQ_MOD - SEQ_TH
    ensures SeqCmp(Wire(x), Wire(x + SEQ_TH)) > 0
  {
  }

  /** When seqcmp sees that x comes after y, for numbers up to a whole round apart. */
  lemma CmpExact(x: int, y: int)
    requires 0 <= y <= x <= y + MAX_SEQ
    ensures SeqCmp(Wire(x), Wire(y)) > 0 <==>
      0 < x - y && (if Wire(x) > Wire(y) then x - y < SEQ_TH else x - y <= SEQ_MOD - SEQ_TH)
  {
    WireClose(x, y);
  }

  // The counters the code compares without knowing how far apart they are.

  /** x and y look the same as they travel. */
  predicate Same(x: int, y: int) {
    x % SEQ_MOD == y % SEQ_MOD
  }

  /** x looks later than y as they travel. */
  predicate Later(x: int, y: int) {
    SeqCmp(x % SEQ_MOD, y % SEQ_MOD) > 0
  }

  /** For numbers closer than the threshold this is what it looks like. */
  lemma LaterIs(x: int, y: int)
    requires 0 <= x && 0 <= y && Near(x, y)
    ensures Same(x, y) <==> x == y
    ensures Later(x, y) <==> x > y
  {
    OffAndCmp(x, y);
  }

  lemma LenIsCount(x: int, y: int)
    requires 0 <= x <= y <= x + MAX_SEQ
    ensures SeqLen(Wire(x), Wire(y)) == y - x + 1
  {
    WireClose(x, y);
  }

  /** seqlen as the sender uses it, where the first number may be one past the second. */
  lemma LenFromMinusOne(x: int)
    requires 0 <= x < MAX_SEQ
    ensures SeqLen(-1, Wire(x)) == x + 2
  {
  }

  lemma IncIsSucc(x: int)
    requires -1 <= x
    ensures IncSeq(Wire(x)) == Wire(x + 1)
  {
    if x >= 0 {
      var q := x / SEQ_MOD;
      assert x == q * SEQ_MOD + Wire(x);
      if Wire(x) == MAX_SEQ {
        assert x + 1 == (q + 1) * SEQ_MOD;
      } else {
        assert x + 1 == q * SEQ_MOD + (Wire(x) + 1);
      }
    }
  }

  lemma DecIsPred(x: int)
    requires 1 <= x
    ensures DecSeq(Wire(x)) == Wire(x - 1)
  {
    IncIsSucc(x - 1);
  }

  lemma DecUndoesInc(s: int)
    requires 0 <= s <= MAX_SEQ
    ensures DecSeq(IncSeq(s)) == s && IncSeq(DecSeq(s)) == s
  {
  }

  function IncTimes(s: int, k: nat): int {
    if k == 0 then s else IncSeq(IncTimes(s, k - 1))
  }

  /** incseq(s, k) is k single increments. */
  lemma {:induction false} IncByIsIterated(x: int, k: nat)
    requires 0 <= x && k <= SEQ_MOD
    ensures IncTimes(Wire(x), k) == Wire(x + k) == IncSeqBy(Wire(x), k)
    decreases k
  {
    if k == 0 {
    } else {
      IncByIsIterated(x, k - 1);
      IncIsSucc(x + k - 1);
    }
  }

  /** Inside any window narrower than the threshold, seqcmp is a strict total order. */
  lemma OrdersWindow(base: int, a: int, b: int, c: int)
    requires 0 <= base && base <= a < base + SEQ_TH && base <= b < base + SEQ_TH && base <= c < base + SEQ_TH
    ensures SeqCmp(Wire(a), Wire(b)) < 0 && SeqCmp(Wire(b), Wire(c)) < 0 ==> SeqCmp(Wire(a), Wire(c)) < 0
    ensures SeqCmp(Wire(a), Wire(b)) < 0 || SeqCmp(Wire(b), Wire(a)) < 0 || Wire(a) == Wire(b)
    ensures !(SeqCmp(Wire(a), Wire(b)) < 0 && SeqCmp(Wire(b), Wire(a)) < 0)
  {
    OffAndCmp(a, b);
    OffAndCmp(b, a);
    OffAndCmp(b, c);
    OffAndCmp(a, c);
  }
}
