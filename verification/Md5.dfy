/** Streaming MD5 (md5.cpp): the running state over any split of a message, against the padding of RFC 1321. The
    compression function is a parameter. */
module Md5Module {
  import opened Bytes
  import opened Ring

  const WORD: int := 0x1_0000_0000

  datatype Abcd = Abcd(a: int, b: int, c: int, d: int)

  /** The compression function applied to the full blocks of m. */
  function Fold(process: (Abcd, Bytes) -> Abcd, s: Abcd, m: Bytes): Abcd
    decreases |m|
  {
    if |m| < 64 then s else Fold(process, process(s, m[..64]), m[64..])
  }

  /** One more block. */
  lemma {:induction false} FoldStep(process: (Abcd, Bytes) -> Abcd, s: Abcd, m: Bytes, block: Bytes)
    requires |m| % 64 == 0 && |block| == 64
    ensures Fold(process, s, m + block) == process(Fold(process, s, m), block)
    decreases |m|
  {
    if |m| == 0 {
      assert m + block == block && block[..64] == block;
      assert Fold(process, process(s, block), block[64..]) == process(s, block);
    } else {
      assert (m + block)[..64] == m[..64] && (m + block)[64..] == m[64..] + block;
      FoldStep(process, process(s, m[..64]), m[64..], block);
    }
  }

  /** With no block yet nothing is compressed. */
  lemma FoldNone(process: (Abcd, Bytes) -> Abcd, s: Abcd)
    ensures Fold(process, s, []) == s
  {
  }

  /** A last partial block changes nothing yet. */
  lemma {:induction false} FoldPartial(process: (Abcd, Bytes) -> Abcd, s: Abcd, m: Bytes, rest: Bytes)
    requires |m| % 64 == 0 && |rest| < 64
    ensures Fold(process, s, m + rest) == Fold(process, s, m)
    decreases |m|
  {
    if |m| == 0 {
      assert m + rest == rest;
    } else {
      assert (m + rest)[..64] == m[..64] && (m + rest)[64..] == m[64..] + rest;
      FoldPartial(process, process(s, m[..64]), m[64..], rest);
    }
  }

  // ----- padding, sections 3.1 and 3.2 of RFC 1321 -----

  function Zeros(n: nat): (z: Bytes)
    ensures |z| == n && forall i | 0 <= i < n :: z[i] == 0
  {
    seq(n, _ => 0)
  }

  function Power(i: int): (p: int)
    ensures p > 0
  {
    if i == 0 then 1 else if i == 1 then 0x100 else if i == 2 then 0x1_0000 else if i == 3 then 0x100_0000
    else if i == 4 then 0x1_0000_0000 else if i == 5 then 0x100_0000_0000 else if i == 6 then 0x1_0000_0000_0000
    else 0x100_0000_0000_0000
  }

  /** The n lowest bytes of x, least significant first. */
  function LittleEndian(x: int, n: nat): (b: Bytes)
    requires n <= 8
    ensures |b| == n
  {
    seq(n, i requires 0 <= i < n => (x / Power(i) % 256) as byte)
  }

  /** Zero bytes between the first padding byte and the length: the fewest that make the whole a multiple of 64. */
  function Gap(len: nat): nat {
    (55 - len) % 64
  }

  function Padded(m: Bytes): Bytes {
    m + [0x80] + Zeros(Gap(|m|)) + LittleEndian(8 * |m| % (WORD * WORD), 8)
  }

  /** The padded message is a whole number of blocks, with the least padding there is. */
  lemma PaddedIs(m: Bytes, k: nat)
    ensures m <= Padded(m) && |Padded(m)| == |m| + 9 + Gap(|m|) && |Padded(m)| % 64 == 0
    ensures (|m| + 9 + k) % 64 == 0 ==> Gap(|m|) <= k
  {
    hide LittleEndian, Gap;
    GapFills(|m|, k);
  }

  lemma GapFills(len: nat, k: nat)
    ensures (len + 9 + Gap(len)) % 64 == 0 && ((len + 9 + k) % 64 == 0 ==> Gap(len) <= k)
  {
  }

  function Digest(s: Abcd): (d: Bytes)
    ensures |d| == 16
  {
    LittleEndian(s.a, 4) + LittleEndian(s.b, 4) + LittleEndian(s.c, 4) + LittleEndian(s.d, 4)
  }

  function Init(): Abcd {
    Abcd(0x67452301, 0xefcdab89, 0x98badcfe, 0x10325476)
  }

  /** The number that four bytes from i on stand for, least significant first. */
  function WordAt(b: Bytes, i: int): int
    requires 0 <= i && i + 4 <= |b|
  {
    b[i] as int + 0x100 * b[i + 1] as int + 0x1_0000 * b[i + 2] as int + 0x100_0000 * b[i + 3] as int
  }

  lemma FourBytes(x: int)
    requires 0 <= x < WORD
    ensures x % 256 + 0x100 * (x / 0x100 % 256) + 0x1_0000 * (x / 0x1_0000 % 256) + 0x100_0000 * (x / 0x100_0000 % 256) == x
  {
  }

  lemma WordIs(b: Bytes, i: int, x: int)
    requires 0 <= x < WORD && 0 <= i && i + 4 <= |b| && b[i..i + 4] == LittleEndian(x, 4)
    ensures WordAt(b, i) == x
  {
    FourBytes(x);
    var w := b[i..i + 4];
    assert b[i] == w[0] && b[i + 1] == w[1] && b[i + 2] == w[2] && b[i + 3] == w[3];
  }

  /** Read back four bytes at a time, least significant first, the digest is the words a, b, c and d in this order. */
  lemma DigestReads(s: Abcd)
    requires 0 <= s.a < WORD && 0 <= s.b < WORD && 0 <= s.c < WORD && 0 <= s.d < WORD
    ensures
      var d := Digest(s);
      WordAt(d, 0) == s.a && WordAt(d, 4) == s.b && WordAt(d, 8) == s.c && WordAt(d, 12) == s.d
  {
    hide LittleEndian, WordAt;
    var d := Digest(s);
    assert d[0..4] == LittleEndian(s.a, 4) && d[4..8] == LittleEndian(s.b, 4);
    assert d[8..12] == LittleEndian(s.c, 4) && d[12..16] == LittleEndian(s.d, 4);
    WordIs(d, 0, s.a);
    WordIs(d, 4, s.b);
    WordIs(d, 8, s.c);
    WordIs(d, 12, s.d);
  }

  /** The starting state of section 3.3 of RFC 1321, in bytes. */
  lemma InitBytes()
    ensures Digest(Init()) == [0x01, 0x23, 0x45, 0x67, 0x89, 0xab, 0xcd, 0xef, 0xfe, 0xdc, 0xba, 0x98, 0x76, 0x54, 0x32, 0x10]
  {
    hide LittleEndian;
    BytesOf([0x01, 0x23, 0x45, 0x67]);
    BytesOf([0x89, 0xab, 0xcd, 0xef]);
    BytesOf([0xfe, 0xdc, 0xba, 0x98]);
    BytesOf([0x76, 0x54, 0x32, 0x10]);
  }

  lemma BytesOf(b: Bytes)
    requires |b| == 4
    ensures LittleEndian(WordAt(b, 0), 4) == b
  {
    Places(b[0] as int, b[1] as int, b[2] as int, b[3] as int);
    var c := LittleEndian(WordAt(b, 0), 4);
    assert c[0] == b[0] && c[1] == b[1] && c[2] == b[2] && c[3] == b[3];
  }

  lemma Places(b0: int, b1: int, b2: int, b3: int)
    requires 0 <= b0 < 256 && 0 <= b1 < 256 && 0 <= b2 < 256 && 0 <= b3 < 256
    ensures
      var x := b0 + 0x100 * b1 + 0x1_0000 * b2 + 0x100_0000 * b3;
      x % 256 == b0 && x / 0x100 % 256 == b1 && x / 0x1_0000 % 256 == b2 && x / 0x100_0000 % 256 == b3
  {
    var x := b0 + 0x100 * b1 + 0x1_0000 * b2 + 0x100_0000 * b3;
    assert x / 0x100 == b1 + 0x100 * b2 + 0x1_0000 * b3;
    assert x / 0x1_0000 == b2 + 0x100 * b3;
    assert x / 0x100_0000 == b3;
  }

  lemma EightBytes(x: int)
    requires 0 <= x < WORD * WORD
    ensures LittleEndian(x, 8) == LittleEndian(x % WORD, 4) + LittleEndian(x / WORD, 4)
  {
    var c0, c1 := x % WORD, x / WORD;
    assert x == c0 + WORD * c1;
    forall i | 0 <= i < 8
      ensures LittleEndian(x, 8)[i] == (LittleEndian(c0, 4) + LittleEndian(c1, 4))[i]
    {
      LengthBytes(c0, c1, i);
    }
  }

  /** What the padding consists of: a byte 0x80, zeros, and the length in bits modulo 2^64, least significant byte first. */
  lemma PaddedReads(m: Bytes)
    ensures
      var p := Padded(m);
      var n := |p| - 8;
      && |m| < n && p[..|m|] == m && p[|m|] == 0x80 && (forall i | |m| < i < n :: p[i] == 0)
      && WordAt(p, n) + WORD * WordAt(p, n + 4) == 8 * |m| % (WORD * WORD)
  {
    hide LittleEndian, WordAt, Gap;
    var p := Padded(m);
    var n := |p| - 8;
    var x := 8 * |m| % (WORD * WORD);
    EightBytes(x);
    assert p[n..n + 4] == LittleEndian(x % WORD, 4) && p[n + 4..n + 8] == LittleEndian(x / WORD, 4);
    WordIs(p, n, x % WORD);
    WordIs(p, n + 4, x / WORD);
  }

  // ----- the two-word bit counter -----

  /** The low word after adding nbits, and the carry the code reads off it. */
  lemma LowWord(c0: int, nbits: int)
    requires 0 <= c0 < WORD && 0 <= nbits < WORD
    ensures
      var d0 := (c0 + nbits) % WORD;
      && 0 <= d0 < WORD && c0 + nbits == d0 + (if d0 < nbits then WORD else 0)
  {
  }

  lemma HighWord(c1: int, high: int, carry: int)
    requires 0 <= c1 < WORD && 0 <= high < 4 && 0 <= carry <= 1
    ensures
      var e1 := (c1 + high) % WORD;
      var d1 := if carry == 1 then (e1 + 1) % WORD else e1;
      && 0 <= d1 < WORD && (d1 == c1 + high + carry || d1 == c1 + high + carry - WORD)
  {
  }

  /** Adding 8 * nbytes to the counter, word by word with the carry the code computes. */
  lemma CountStep(c0: int, c1: int, total: int, nbytes: int)
    requires 0 <= c0 < WORD && 0 <= c1 < WORD && 0 <= total && 0 <= nbytes < 0x8000_0000
    requires c0 + WORD * c1 == 8 * total % (WORD * WORD)
    ensures
      var nbits := nbytes * 8 % WORD;
      var d0 := (c0 + nbits) % WORD;
      var e1 := (c1 + nbytes / 0x2000_0000) % WORD;
      var d1 := if d0 < nbits then (e1 + 1) % WORD else e1;
      && 0 <= d0 < WORD && 0 <= d1 < WORD
      && d0 + WORD * d1 == 8 * (total + nbytes) % (WORD * WORD)
  {
    var nbits, high := nbytes * 8 % WORD, nbytes / 0x2000_0000;
    Split(nbytes);
    LowWord(c0, nbits);
    var d0 := (c0 + nbits) % WORD;
    var carry := if d0 < nbits then 1 else 0;
    HighWord(c1, high, carry);
    var d1 := if d0 < nbits then ((c1 + high) % WORD + 1) % WORD else (c1 + high) % WORD;
    Same64(8 * total, 8 * nbytes, c0 + WORD * c1, d0 + WORD * d1, if d1 == c1 + high + carry then 0 else 1);
  }

  lemma Split(nbytes: int)
    requires 0 <= nbytes < 0x8000_0000
    ensures 8 * nbytes == nbytes * 8 % WORD + WORD * (nbytes / 0x2000_0000) && 0 <= nbytes / 0x2000_0000 < 4
  {
  }

  lemma Same64(x: int, y: int, r: int, d: int, k: int)
    requires 0 <= x && 0 <= y && r == x % (WORD * WORD) && 0 <= d < WORD * WORD
    requires d == r + y - WORD * WORD * k
    ensures d == (x + y) % (WORD * WORD)
  {
  }

  /** The byte offset in the buffer is the message length modulo 64. */
  lemma OffsetIs(c0: int, c1: int, total: int)
    requires 0 <= c0 < WORD && 0 <= c1 < WORD && 0 <= total
    requires c0 + WORD * c1 == 8 * total % (WORD * WORD)
    ensures c0 / 8 % 64 == total % 64 && (55 - c0 / 8) % 64 == (55 - total) % 64
  {
    var q := 8 * total / (WORD * WORD);
    assert 8 * total == WORD * WORD * q + WORD * c1 + c0;
    var k := WORD * (WORD / 512) * q + WORD / 512 * c1;
    assert 8 * total == 512 * k + c0;
    Off(total, k, c0);
  }

  lemma Off(total: int, k: int, c0: int)
    requires 8 * total == 512 * k + c0
    ensures c0 / 8 % 64 == total % 64 && (55 - c0 / 8) % 64 == (55 - total) % 64
  {
    assert total == 64 * k + c0 / 8;
  }

  /** The eight length bytes are cut from the two words of the counter. */
  lemma LengthBytes(c0: int, c1: int, i: int)
    requires 0 <= c0 < WORD && 0 <= c1 < WORD && 0 <= i < 8
    ensures (if i < 4 then c0 / Power(i) else c1 / Power(i - 4)) % 256 == (c0 + WORD * c1) / Power(i) % 256
  {
    if i == 0 {
      Mod256(c0, 0x100_0000 * c1);
    } else if i == 1 {
      assert (c0 + WORD * c1) / 0x100 == c0 / 0x100 + 256 * (0x1_0000 * c1);
      Mod256(c0 / 0x100, 0x1_0000 * c1);
    } else if i == 2 {
      assert (c0 + WORD * c1) / 0x1_0000 == c0 / 0x1_0000 + 256 * (0x100 * c1);
      Mod256(c0 / 0x1_0000, 0x100 * c1);
    } else if i == 3 {
      assert (c0 + WORD * c1) / 0x100_0000 == c0 / 0x100_0000 + 256 * c1;
      Mod256(c0 / 0x100_0000, c1);
    } else {
      HighByte(c0, c1, Power(i - 4));
    }
  }

  lemma Mod256(q: int, m: int)
    ensures (q + 256 * m) % 256 == q % 256
  {
  }

  lemma HighByte(c0: int, c1: int, p: int)
    requires 0 <= c0 < WORD && 0 <= c1 && p > 0
    ensures c1 / p == (c0 + WORD * c1) / (WORD * p)
  {
    var q, r := c1 / p, c1 % p;
    assert c1 == q * p + r;
    var s := c0 + WORD * r;
    assert 0 <= s < WORD * p;
    assert c0 + WORD * c1 == q * (WORD * p) + s;
    DivIs(c0 + WORD * c1, q, WORD * p, s);
  }

  // ----- the running state -----

  /** After the bytes m: the counter holds their bits, the digest words their full blocks, the buffer the rest. */
  ghost predicate Tracks(process: (Abcd, Bytes) -> Abcd, init: Abcd, m: Bytes, c0: int, c1: int, s: Abcd, buf: Bytes) {
    && 0 <= c0 < WORD && 0 <= c1 < WORD && c0 + WORD * c1 == 8 * |m| % (WORD * WORD)
    && s == Fold(process, init, m)
    && |buf| == 64 && buf[..|m| % 64] == m[|m| - |m| % 64..]
  }

  /** The full blocks of m, and the bytes after them. */
  lemma FoldFull(process: (Abcd, Bytes) -> Abcd, s: Abcd, m: Bytes)
    ensures |m| - |m| % 64 >= 0 && Fold(process, s, m) == Fold(process, s, m[..|m| - |m| % 64])
  {
    var n := |m| - |m| % 64;
    FoldPartial(process, s, m[..n], m[n..]);
    assert m[..n] + m[n..] == m;
  }

  /** data fits into the current block and does not fill it. */
  lemma Short(process: (Abcd, Bytes) -> Abcd, s: Abcd, m: Bytes, data: Bytes, buf: Bytes)
    requires |m| % 64 + |data| < 64 == |buf|
    requires buf[..|m| % 64] == m[|m| - |m| % 64..] && buf[|m| % 64..|m| % 64 + |data|] == data
    ensures
      var x := m + data;
      Fold(process, s, x) == Fold(process, s, m) && |x| % 64 <= 64 && buf[..|x| % 64] == x[|x| - |x| % 64..]
  {
    hide Fold;
    var x, o := m + data, |m| % 64;
    FoldFull(process, s, m);
    FoldFull(process, s, x);
    assert |x| % 64 == o + |data|;
    assert x[..|x| - |x| % 64] == m[..|m| - o];
    assert buf[..|x| % 64] == buf[..o] + buf[o..o + |data|];
  }

  /** data fills the current block. */
  lemma Filled(process: (Abcd, Bytes) -> Abcd, s: Abcd, m: Bytes, data: Bytes, buf: Bytes)
    requires |m| % 64 + |data| >= 64 == |buf|
    requires buf[..|m| % 64] == m[|m| - |m| % 64..] && buf[|m| % 64..] == data[..64 - |m| % 64]
    ensures
      var n := |m| + (64 - |m| % 64);
      n % 64 == 0 && process(Fold(process, s, m), buf) == Fold(process, s, (m + data)[..n])
  {
    hide Fold;
    var o := |m| % 64;
    FoldFull(process, s, m);
    FoldStep(process, s, m[..|m| - o], buf);
    assert buf == buf[..o] + buf[o..];
    assert m[..|m| - o] + buf == (m + data)[..|m| + (64 - o)];
  }

  /** What is left after the last full block. */
  lemma Rest(process: (Abcd, Bytes) -> Abcd, s: Abcd, m: Bytes, data: Bytes, p: int)
    requires 0 <= p <= |data| < p + 64 && (|m| + p) % 64 == 0
    ensures
      var x := m + data;
      && Fold(process, s, x) == Fold(process, s, x[..|m| + p])
      && |x| % 64 == |data| - p && x[|x| - |x| % 64..] == data[p..]
  {
    hide Fold;
    var x := m + data;
    FoldPartial(process, s, x[..|m| + p], data[p..]);
    assert x[..|m| + p] + data[p..] == x;
  }

  /** The full block of data at p continues m and the bytes before it. */
  lemma BlockNext(process: (Abcd, Bytes) -> Abcd, s: Abcd, m: Bytes, data: Bytes, p: int)
    requires 0 <= p && p + 64 <= |data| && (|m| + p) % 64 == 0
    ensures process(Fold(process, s, (m + data)[..|m| + p]), data[p..p + 64]) == Fold(process, s, (m + data)[..|m| + p + 64])
    ensures (|m| + p + 64) % 64 == 0
  {
    hide Fold;
    FoldStep(process, s, (m + data)[..|m| + p], data[p..p + 64]);
    assert (m + data)[..|m| + p] + data[p..p + 64] == (m + data)[..|m| + p + 64];
  }

  class Md5 {
    const process: (Abcd, Bytes) -> Abcd
    var count0: int
    var count1: int
    var abcd: Abcd
    const buf: array<byte>
    // the state started from, and every byte since
    ghost var init: Abcd
    ghost var message: Bytes

    ghost predicate Valid()
      reads this, buf
    {
      buf.Length == 64 && Tracks(process, init, message, count0, count1, abcd, buf[..])
    }

    /** md5_init, or md5_init_key with the words of a key. */
    constructor (compress: (Abcd, Bytes) -> Abcd, start: Abcd)
      ensures Valid() && process == compress && init == start && message == [] && fresh(buf)
    {
      process := compress;
      count0, count1 := 0, 0;
      abcd := start;
      buf := new byte[64];
      init := start;
      message := [];
    }

    /** Adds 8 * nbytes to the counter. */
    method CountUp(nbytes: int, ghost total: int)
      requires 0 <= nbytes < 0x8000_0000 && 0 <= total && 0 <= count0 < WORD && 0 <= count1 < WORD
      requires count0 + WORD * count1 == 8 * total % (WORD * WORD)
      modifies this`count0, this`count1
      ensures 0 <= count0 < WORD && 0 <= count1 < WORD
      ensures count0 + WORD * count1 == 8 * (total + nbytes) % (WORD * WORD)
    {
      CountStep(count0, count1, total, nbytes);
      var nbits := nbytes * 8 % WORD;
      count1 := (count1 + nbytes / 0x2000_0000) % WORD;
      count0 := (count0 + nbits) % WORD;
      if count0 < nbits {
        count1 := (count1 + 1) % WORD;
      }
    }

    /** Adds data to the message. */
    method Append(data: Bytes)
      requires Valid() && |data| < 0x8000_0000 - 64
      modifies this`count0, this`count1, this`abcd, this`message, buf
      ensures Valid() && message == old(message) + data
    {
      hide Fold;
      if |data| <= 0 {
        assert message + data == message;
        return;
      }
      OffsetIs(count0, count1, |message|);
      var offset := count0 / 8 % 64;
      CountUp(|data|, |message|);
      ghost var m := message;
      message := message + data;
      var p := 0;
      if offset != 0 {
        var more;
        p, more := FirstBlock(offset, data, m);
        if !more {
          return;
        }
      } else {
        assert message[..|m|] == m;
      }
      FullBlocks(data, p, m);
    }

    /** Continues the partial block in the buffer; more tells whether data reaches past it. */
    method FirstBlock(offset: int, data: Bytes, ghost m: Bytes) returns (p: int, more: bool)
      requires buf.Length == 64 && data != [] && message == m + data && 0 < offset == |m| % 64
      requires abcd == Fold(process, init, m) && buf[..offset] == m[|m| - offset..]
      modifies this`abcd, buf
      ensures more <==> offset + |data| >= 64
      ensures !more ==> abcd == Fold(process, init, message) && buf[..|message| % 64] == message[|message| - |message| % 64..]
      ensures more ==> 0 <= p <= |data| && (|m| + p) % 64 == 0 && abcd == Fold(process, init, message[..|m| + p])
    {
      hide Fold;
      var copy := if offset + |data| > 64 then 64 - offset else |data|;
      forall i | 0 <= i < copy {
        buf[offset + i] := data[i];
      }
      assert buf[..offset] == m[|m| - offset..] && buf[offset..offset + copy] == data[..copy];
      if offset + copy < 64 {
        Short(process, init, m, data, buf[..]);
        return 0, false;
      }
      Filled(process, init, m, data, buf[..]);
      abcd := process(abcd, buf[..]);
      return copy, true;
    }

    /** The full blocks of data from p on; the rest waits in the buffer. */
    method FullBlocks(data: Bytes, p0: int, ghost m: Bytes)
      requires buf.Length == 64 && message == m + data && 0 <= p0 <= |data| && (|m| + p0) % 64 == 0
      requires abcd == Fold(process, init, message[..|m| + p0])
      modifies this`abcd, buf
      ensures abcd == Fold(process, init, message) && buf[..|message| % 64] == message[|message| - |message| % 64..]
    {
      hide Fold;
      var p := p0;
      while |data| - p >= 64
        invariant 0 <= p <= |data| && (|m| + p) % 64 == 0
        invariant abcd == Fold(process, init, message[..|m| + p])
      {
        BlockNext(process, init, m, data, p);
        abcd := process(abcd, data[p..p + 64]);
        p := p + 64;
      }
      Rest(process, init, m, data, p);
      forall i | 0 <= i < |data| - p {
        buf[i] := data[p + i];
      }
      assert buf[..|data| - p] == data[p..];
    }

    /** The length of the message so far, in bits. */
    method LengthData() returns (data: Bytes)
      requires Valid()
      ensures data == LittleEndian(8 * |message| % (WORD * WORD), 8)
    {
      hide Fold;
      data := [];
      var i := 0;
      while i < 8
        invariant 0 <= i <= 8 && |data| == i
        invariant forall j | 0 <= j < i :: data[j] as int == 8 * |message| % (WORD * WORD) / Power(j) % 256
      {
        LengthBytes(count0, count1, i);
        data := data + [(if i < 4 then count0 / Power(i) % 256 else count1 / Power(i - 4) % 256) as byte];
        i := i + 1;
      }
    }

    method ReadDigest() returns (digest: Bytes)
      ensures digest == Digest(abcd)
    {
      digest := [];
      var i := 0;
      while i < 16
        invariant 0 <= i <= 16 && digest == Digest(abcd)[..i]
      {
        var w := if i < 4 then abcd.a else if i < 8 then abcd.b else if i < 12 then abcd.c else abcd.d;
        digest := digest + [(w / Power(i % 4) % 256) as byte];
        i := i + 1;
      }
    }

    /** md5_finish: pads the message and reads off the digest. */
    method Finish() returns (digest: Bytes)
      requires Valid()
      modifies this`count0, this`count1, this`abcd, this`message, buf
      ensures digest == Digest(Fold(process, old(init), Padded(old(message))))
    {
      hide Fold, LittleEndian, Digest;
      ghost var m := message;
      OffsetIs(count0, count1, |m|);
      var data := LengthData();
      var n := (55 - count0 / 8) % 64 + 1;
      PadIs(n, |m|);
      Append(([0x80] + Zeros(63))[..n]);
      Append(data);
      PaddedParts(m, n, data);
      digest := ReadDigest();
    }
  }

  lemma PadIs(n: int, len: nat)
    requires n == (55 - len) % 64 + 1
    ensures 1 <= n <= 64 && ([0x80] + Zeros(63))[..n] == [0x80] + Zeros(Gap(len))
  {
  }

  lemma PaddedParts(m: Bytes, n: int, data: Bytes)
    requires n == (55 - |m|) % 64 + 1 && data == LittleEndian(8 * |m| % (WORD * WORD), 8)
    ensures m + ([0x80] + Zeros(63))[..n] + data == Padded(m)
  {
    hide LittleEndian;
    PadIs(n, |m|);
  }

  /** However the message is split, the digest is that of the whole message. */
  method Hash(process: (Abcd, Bytes) -> Abcd, start: Abcd, chunks: seq<Bytes>) returns (digest: Bytes)
    requires forall i | 0 <= i < |chunks| :: |chunks[i]| < 0x8000_0000 - 64
    ensures digest == Digest(Fold(process, start, Padded(Flatten(chunks))))
  {
    hide Fold, Flatten, Padded, Digest, Tracks;
    var md5 := new Md5(process, start);
    FlattenPrefix(chunks, 0);
    FlattenEmpty(chunks);
    for i := 0 to |chunks|
      invariant md5.Valid() && md5.init == start && md5.process == process && md5.message == Flatten(chunks[..i])
      invariant fresh(md5) && fresh(md5.buf)
    {
      FlattenNext(chunks, i);
      md5.Append(chunks[i]);
    }
    assert chunks[..|chunks|] == chunks;
    digest := md5.Finish();
  }

  lemma FlattenEmpty(chunks: seq<Bytes>)
    ensures Flatten(chunks[..0]) == []
  {
  }
}
