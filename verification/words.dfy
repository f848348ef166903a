/** Unsigned 64-bit words, powers of two, and the mask that maps a position to a slot. */
module Words {

  datatype Option<+T> = None | Some(value: T)

  const TWO_63: nat := 0x8000_0000_0000_0000
  const TWO_64: nat := 0x1_0000_0000_0000_0000

  /** A value of `uint64_t`. */
  type Word = x: int | 0 <= x < TWO_64

  type Byte = x: int | 0 <= x < 256

  /** Unsigned subtraction: wraps below zero. */
  function Sub(a: Word, b: Word): Word {
    (a - b) % TWO_64
  }

  /** Unsigned increment: wraps at the top. */
  function Inc(a: Word): Word {
    (a + 1) % TWO_64
  }

  function Pow2(k: nat): (p: nat)
    ensures p > 0
  {
    if k == 0 then 1 else 2 * Pow2(k - 1)
  }

  /** The recursion of `LOG2`, with its accumulator. */
  function Log2(size: Word, p: nat): nat
    decreases size
  {
    if size <= 1 then p else Log2(size / 2, p + 1)
  }

  /** `1UL << shift`, which C++ leaves undefined from a shift of 64 on. */
  function ShiftOne(shift: nat): Option<Word> {
    if shift < 64 then
      Pow2Monotone(shift, 63);
      Pow2Values();
      Some(Pow2(shift))
    else None
  }

  /** `GetClosestExp`; `size - 1` wraps when `size` is 0. */
  function GetClosestExp(size: Word): Option<Word> {
    ShiftOne(Log2(Sub(size, 1), 0) + 1)
  }

  /** Bitwise and, bit by bit. */
  function And(a: nat, b: nat): nat
    decreases a
  {
    if a == 0 || b == 0 then 0
    else (if a % 2 == 1 && b % 2 == 1 then 1 else 0) + 2 * And(a / 2, b / 2)
  }

  predicate IsCapacity(n: nat) {
    exists k :: 1 <= k <= 63 && n == Pow2(k)
  }

  /** The sizes a ring can have: what `GetClosestExp` can return. */
  type Capacity = n: nat | IsCapacity(n) witness (assert Pow2(1) == 2; 2)

  /** The slot of the position counted `j` since the start: the counter is 64 bits wide and masked. */
  function Slot(j: nat, size: Capacity): (i: nat)
    ensures i < size
  {
    SlotIsMod(j, size);
    And(j % TWO_64, size - 1)
  }

  // ---------------------------------------------------------------- arithmetic

  lemma Pow2Values()
    ensures Pow2(63) == TWO_63 && Pow2(64) == TWO_64
  {
    assert Pow2(8) == 0x100;
    assert Pow2(64) == 2 * Pow2(63);
    hide Pow2;
    Pow2Add(8, 8);
    Pow2Add(16, 16);
    Pow2Add(32, 32);
  }

  lemma Pow2Add(i: nat, j: nat)
    ensures Pow2(i + j) == Pow2(i) * Pow2(j)
  {
    if i == 0 {
    } else {
      Pow2Add(i - 1, j);
      assert Pow2(i + j) == 2 * Pow2(i - 1 + j);
      assert 2 * (Pow2(i - 1) * Pow2(j)) == (2 * Pow2(i - 1)) * Pow2(j);
    }
  }

  lemma Pow2Monotone(i: nat, j: nat)
    ensures i <= j ==> Pow2(i) <= Pow2(j)
    ensures i < j ==> Pow2(i) < Pow2(j)
    decreases j
  {
  }

  lemma MulAtLeast(x: int, m: nat)
    ensures x >= 1 ==> x * m >= m
    ensures x <= -1 ==> x * m + m <= 0
    ensures x == 0 ==> x * m == 0
  {
  }

  lemma QuotientUnique(m: nat, d: int, r: nat, q: int, t: nat)
    requires r < m && t < m && d * m + r == q * m + t
    ensures d == q && r == t
  {
    assert (d - q) * m == d * m - q * m;
    MulAtLeast(d - q, m);
  }

  lemma DivModUnique(a: nat, m: nat, q: nat, t: nat)
    requires t < m && a == q * m + t
    ensures a / m == q && a % m == t
  {
    QuotientUnique(m, a / m, a % m, q, t);
  }

  lemma ModDouble(p: nat, m: nat)
    requires m > 0
    ensures p % (2 * m) == 2 * (p / 2 % m) + p % 2
  {
    var h := p / 2;
    var q, t := h / m, h % m;
    assert q * (2 * m) == 2 * (q * m);
    DivModUnique(p, 2 * m, q, 2 * t + p % 2);
  }

  lemma DivModOf(a: nat, m: nat)
    requires m > 0
    ensures a == a / m * m + a % m && 0 <= a % m < m
  {
  }

  lemma MulRegroup(q: int, m: int, c: int, d: int)
    ensures q * (m * c) + d * m == (q * c + d) * m
  {
    assert q * (m * c) == (q * c) * m;
  }

  /** A remainder by a multiple of `m` has the same remainder by `m`. */
  lemma NestedRemainder(j: nat, m: nat, c: nat, q: nat, t: nat, d: nat, u: nat)
    requires j == q * (m * c) + t && t == d * m + u && u < m
    ensures j % m == u
  {
    MulRegroup(q, m, c, d);
    DivModUnique(j, m, q * c + d, u);
  }

  lemma ModMod(j: nat, m: nat, c: nat, n: nat)
    requires m > 0 && n > 0 && n == m * c
    ensures j % n % m == j % m
  {
    DivModOf(j, n);
    DivModOf(j % n, m);
    NestedRemainder(j, m, c, j / n, j % n, j % n / m, j % n % m);
  }

  lemma AndOdd(p: nat, m: nat)
    requires m > 0
    ensures And(p, 2 * m - 1) == p % 2 + 2 * And(p / 2, m - 1)
  {
  }

  lemma {:induction false} MaskIsMod(p: nat, k: nat)
    ensures And(p, Pow2(k) - 1) == p % Pow2(k)
  {
    if k > 0 {
      var m := Pow2(k - 1);
      AndOdd(p, m);
      MaskIsMod(p / 2, k - 1);
      ModDouble(p, m);
    }
  }

  lemma ModDistinct(i: nat, j: nat, m: nat)
    requires i < j < i + m
    ensures i % m != j % m
  {
    if i % m == j % m {
      var d, e := j / m, i / m;
      assert d * m + j % m == j && e * m + i % m == i;
      assert (d - e) * m == d * m - e * m;
      MulAtLeast(d - e, m);
    }
  }

  lemma ModPeriodic(i: nat, m: nat)
    requires m > 0
    ensures (i + m) % m == i % m
  {
    var d, t := i / m, i % m;
    assert (d + 1) * m == d * m + m;
    DivModUnique(i + m, m, d + 1, t);
  }

  /** For every 64-bit position, masking is reduction modulo the size, wrapped or not. */
  lemma SlotIsMod(j: nat, size: nat)
    requires IsCapacity(size)
    ensures size >= 2
    ensures And(j % TWO_64, size - 1) == j % size
    ensures And(j % TWO_64, size - 1) < size
  {
    var k :| 1 <= k <= 63 && size == Pow2(k);
    Pow2Monotone(1, k);
    MaskIsMod(j % TWO_64, k);
    Pow2Values();
    Pow2Add(k, 64 - k);
    ModMod(j, size, Pow2(64 - k), TWO_64);
  }

  /** The code masks the counter itself. */
  lemma MaskedCounter(w: Word, size: Capacity, mask: nat)
    requires mask == size - 1
    ensures And(w, mask) == Slot(w, size)
  {
    hide And;
    assert w % TWO_64 == w;
  }

  /** Any window of at most `size` consecutive positions maps to distinct slots. */
  lemma SlotsDistinct(i: nat, j: nat, size: Capacity)
    requires i < j < i + size
    ensures Slot(i, size) != Slot(j, size)
  {
    SlotIsMod(i, size);
    SlotIsMod(j, size);
    ModDistinct(i, j, size);
  }

  /** A slot comes round again after exactly `size` positions. */
  lemma SlotPeriodic(i: nat, size: Capacity)
    ensures Slot(i + size, size) == Slot(i, size)
  {
    SlotIsMod(i, size);
    SlotIsMod(i + size, size);
    ModPeriodic(i, size);
  }

  lemma {:induction false} Log2Bounds(size: Word, p: nat)
    ensures Log2(size, p) >= p
    ensures size >= 1 ==> Pow2(Log2(size, p) - p) <= size < Pow2(Log2(size, p) - p + 1)
    ensures size == 0 ==> Log2(size, p) == p
    decreases size
  {
    if size <= 1 {
      assert Pow2(1) == 2;
    } else {
      Log2Bounds(size / 2, p + 1);
    }
  }

  /** The power the shift gives is the least one above `s`. */
  lemma LeastPowerAbove(s: Word, l: nat, k: nat)
    requires Pow2(l) <= s < Pow2(l + 1) && Pow2(k) > s
    ensures Pow2(l + 1) <= Pow2(k)
  {
    Pow2Monotone(k, l);
    Pow2Monotone(l + 1, k);
  }

  /** The shift stays below 64 exactly for arguments below 2^63. */
  lemma ShiftInRange(s: Word)
    ensures Log2(s, 0) + 1 <= 63 <==> s < TWO_63
    ensures s >= 1 ==> Pow2(Log2(s, 0)) <= s < Pow2(Log2(s, 0) + 1)
    ensures s == 0 ==> Log2(s, 0) == 0
  {
    Log2Bounds(s, 0);
    Pow2Values();
    var l := Log2(s, 0);
    hide Log2, Pow2;
    if l + 1 <= 63 {
      Pow2Monotone(l + 1, 63);
    } else {
      Pow2Monotone(63, l);
    }
  }

  lemma SubOne(size: Word)
    ensures Sub(size, 1) == if size == 0 then TWO_64 - 1 else size - 1
  {
  }

  lemma ClosestExpIsPower(size: Word)
    ensures 1 <= size <= TWO_63 <==> GetClosestExp(size).Some?
    ensures 1 <= size <= TWO_63 ==>
              Log2(size - 1, 0) + 1 <= 63 && GetClosestExp(size).value == Pow2(Log2(size - 1, 0) + 1)
  {
    ShiftInRange(Sub(size, 1));
    SubOne(size);
    hide Log2, Pow2, Sub;
  }

  lemma PowerIsCapacity(k: nat)
    requires 1 <= k <= 63
    ensures IsCapacity(Pow2(k)) && Pow2(k) >= 2
  {
    Pow2Monotone(1, k);
  }

  /** The shift is defined exactly for 1..2^63, and there the result is a usable ring size: the
      least power of two that is at least `size` and at least 2. */
  lemma ClosestExpIsLeastPower(size: Word)
    ensures GetClosestExp(size).Some? <==> 1 <= size <= TWO_63
    ensures 1 <= size <= TWO_63 ==>
              && IsCapacity(GetClosestExp(size).value)
              && GetClosestExp(size).value >= size
              && forall k: nat :: Pow2(k) >= size && Pow2(k) >= 2 ==> GetClosestExp(size).value <= Pow2(k)
  {
    ClosestExpIsPower(size);
    if 1 <= size <= TWO_63 {
      var s := size - 1;
      var l := Log2(s, 0);
      ShiftInRange(s);
      PowerIsCapacity(l + 1);
      assert s == 0 ==> Pow2(l + 1) == 2;
      hide Log2, Pow2, GetClosestExp, IsCapacity;
      forall k: nat | Pow2(k) >= size && Pow2(k) >= 2
        ensures Pow2(l + 1) <= Pow2(k)
      {
        if s > 0 {
          LeastPowerAbove(s, l, k);
        }
      }
    }
  }

  lemma IncWraps(n: nat)
    ensures Inc(n % TWO_64) == (n + 1) % TWO_64
  {
  }

  /** A counter that is `d` ahead of another one wraps at most once in between. */
  lemma AheadBy(taken: nat, d: nat)
    requires d < TWO_64
    ensures (taken + d) % TWO_64 ==
            if taken % TWO_64 + d < TWO_64 then taken % TWO_64 + d else taken % TWO_64 + d - TWO_64
  {
    var q, r := taken / TWO_64, taken % TWO_64;
    if r + d < TWO_64 {
      DivModUnique(taken + d, TWO_64, q, r + d);
    } else {
      DivModUnique(taken + d, TWO_64, q + 1, r + d - TWO_64);
    }
  }

  /** `mWritePos - mReadPos` is the true distance, however often either counter has wrapped. */
  lemma WrappedDistance(added: nat, taken: nat)
    requires taken <= added < taken + TWO_64
    ensures Sub(added % TWO_64, taken % TWO_64) == added - taken
  {
  }
}
