/** Positions in a ring of a fixed number of slots. */
module Ring {

  lemma {:induction false} MulGe(k: int, m: int)
    requires k >= 1 && m > 0
    ensures k * m >= m
    decreases k
  {
    if k > 1 {
      MulGe(k - 1, m);
      assert k * m == (k - 1) * m + m;
    }
  }

  /** Two multiples of m less than m apart are equal. */
  lemma SameMultiple(p: int, q: int, m: int)
    requires m > 0 && -m < p * m - q * m < m
    ensures p == q
  {
    assert (p - q) * m == p * m - q * m && (q - p) * m == q * m - p * m;
    if p > q {
      MulGe(p - q, m);
    } else if p < q {
      MulGe(q - p, m);
    }
  }

  lemma ModUnique(q: int, m: int, r: int)
    requires 0 <= r < m
    ensures (q * m + r) % m == r
  {
    var x := q * m + r;
    var q', r' := x / m, x % m;
    assert x == q' * m + r';
    SameMultiple(q', q, m);
  }

  lemma ModStep(a: int, m: int)
    requires m > 0
    ensures (a + m) % m == a % m
  {
    var q, r := a / m, a % m;
    var q', r' := (a + m) / m, (a + m) % m;
    assert a == q * m + r && a + m == q' * m + r';
    assert (q + 1) * m == q * m + m;
    SameMultiple(q', q + 1, m);
  }

  /** The slot of the unbounded number x, when number origin sits in slot 0. */
  function Slot(x: int, origin: int, size: int): (s: int)
    requires size > 0
    ensures 0 <= s < size
  {
    (x - origin) % size
  }

  function Before(s: int, size: int): (t: int)
    requires size > 0
    ensures 0 <= t < size
  {
    (s - 1 + size) % size
  }

  lemma SlotMove(x: int, y: int, origin: int, size: int)
    requires size > 0
    ensures (Slot(x, origin, size) + (y - x) + size) % size == Slot(y, origin, size)
    ensures (Slot(x, origin, size) + (y - x)) % size == Slot(y, origin, size)
  {
    var q, s := (x - origin) / size, Slot(x, origin, size);
    assert x - origin == q * size + s;
    var t := s + (y - x);
    var p, r := t / size, t % size;
    assert t == p * size + r;
    assert y - origin == (q + p) * size + r by {
      assert (q + p) * size == q * size + p * size;
    }
    ModUnique(q + p, size, r);
    ModStep(t, size);
  }

  lemma SlotInjective(x: int, y: int, origin: int, size: int)
    requires size > 0 && Slot(x, origin, size) == Slot(y, origin, size)
    requires -size < x - y < size
    ensures x == y
  {
    var p, q := (x - origin) / size, (y - origin) / size;
    assert x - origin == p * size + Slot(x, origin, size);
    assert y - origin == q * size + Slot(y, origin, size);
    SameMultiple(p, q, size);
  }

  function After(s: int, size: int): int {
    if s + 1 == size then 0 else s + 1
  }

  lemma NextSlot(x: int, origin: int, size: int)
    requires size > 0
    ensures After(Slot(x, origin, size), size) == Slot(x + 1, origin, size)
  {
    SlotMove(x, x + 1, origin, size);
    var s := Slot(x, origin, size);
    if s + 1 == size {
      ModUnique(1, size, 0);
    } else {
      ModUnique(0, size, s + 1);
    }
  }

  lemma SlotRound(x: int, origin: int, size: int)
    requires size > 0
    ensures Slot(x + size, origin, size) == Slot(x, origin, size)
  {
    ModStep(x - origin, size);
  }

  /** The distance between two numbers less than a round apart, from their slots. */
  lemma SlotDistance(x: int, y: int, origin: int, size: int)
    requires size > 0 && x <= y < x + size
    ensures
      var s, t := Slot(x, origin, size), Slot(y, origin, size);
      y - x == if t >= s then t - s else size + t - s
  {
    var s := Slot(x, origin, size);
    SlotMove(x, y, origin, size);
    if s + (y - x) >= size {
      ModUnique(1, size, s + (y - x) - size);
    } else {
      ModUnique(0, size, s + (y - x));
    }
  }
}
