/** Bitwise operations of C on unsigned words, defined bit by bit on naturals,
    and the arithmetic meaning of the masks and XOR patterns the kernel uses. */
module Bits {

  const WORD: nat := 0x1_0000_0000 // 2^32, the range of unsigned int and u32

  function Pow2(k: nat): (r: nat)
    ensures r > 0
  {
    if k == 0 then 1 else 2 * Pow2(k - 1)
  }

  /** a ^ b */
  function Xor(a: nat, b: nat): nat
    decreases a + b
  {
    if a == 0 && b == 0 then 0 else (a % 2 + b % 2) % 2 + 2 * Xor(a / 2, b / 2)
  }

  /** a & b */
  function And(a: nat, b: nat): nat
    decreases a + b
  {
    if a == 0 && b == 0 then 0 else (if a % 2 == 1 && b % 2 == 1 then 1 else 0) + 2 * And(a / 2, b / 2)
  }

  /** a | b */
  function Or(a: nat, b: nat): nat
    decreases a + b
  {
    if a == 0 && b == 0 then 0
    else (if a % 2 + b % 2 > 0 then 1 else 0) + 2 * Or(a / 2, b / 2)
  }

  /** Bit k of a. */
  function Bit(a: nat, k: nat): nat
  {
    if k == 0 then a % 2 else Bit(a / 2, k - 1)
  }

  /** Bit k is clear exactly when the remainder modulo 2^(k+1) is below 2^k. */
  lemma {:induction false} BitMod(a: nat, k: nat)
    ensures a % Pow2(k + 1) == a % Pow2(k) + (if Bit(a, k) == 1 then Pow2(k) else 0)
    ensures Bit(a, k) < 2
  {
    if k > 0 {
      BitMod(a / 2, k - 1);
      ModDouble(a, Pow2(k));
      ModDouble(a, Pow2(k - 1));
    }
  }

  lemma {:induction false} XorZero(a: nat)
    ensures Xor(a, 0) == a
  {
    if a > 0 { XorZero(a / 2); }
  }

  lemma {:induction false} AndZero(a: nat)
    ensures And(a, 0) == 0
  {
    if a > 0 { AndZero(a / 2); }
  }

  lemma {:induction false} AndSelf(a: nat)
    ensures And(a, a) == a
  {
    if a > 0 { AndSelf(a / 2); }
  }

  lemma {:induction false} OrZero(a: nat)
    ensures Or(a, 0) == a
  {
    if a > 0 { OrZero(a / 2); }
  }

  /** a & b never exceeds b, whatever a is: any hash masked with size - 1 is below size. */
  lemma {:induction false} AndBound(a: nat, b: nat)
    ensures And(a, b) <= b
    decreases a + b
  {
    if a > 0 || b > 0 { AndBound(a / 2, b / 2); }
  }

  lemma AndStep(a: nat, b: nat)
    ensures And(a, b) == (if a % 2 == 1 && b % 2 == 1 then 1 else 0) + 2 * And(a / 2, b / 2)
  {
    if a == 0 && b == 0 { assert And(0, 0) == 0; }
  }

  lemma XorStep(a: nat, b: nat)
    ensures Xor(a, b) == (a % 2 + b % 2) % 2 + 2 * Xor(a / 2, b / 2)
  {
    if a == 0 && b == 0 { assert Xor(0, 0) == 0; }
  }

  lemma Halve(i: nat, p: nat)
    ensures (i + 2 * p) / 2 == i / 2 + p && (i + 2 * p) % 2 == i % 2
    ensures i >= 2 * p ==> (i - 2 * p) / 2 == i / 2 - p && (i - 2 * p) % 2 == i % 2
  {
  }

  lemma Pow2Step(k: nat)
    ensures Pow2(k + 1) == 2 * Pow2(k)
  {
  }

  /** Flipping bit k adds or subtracts 2^k, depending on the bit. */
  lemma {:induction false} FlipBit(i: nat, k: nat)
    ensures Xor(i, Pow2(k)) == if Bit(i, k) == 0 then i + Pow2(k) else i - Pow2(k)
  {
    hide Xor;
    XorStep(i, Pow2(k));
    if k == 0 {
      XorZero(i / 2);
    } else {
      FlipBit(i / 2, k - 1);
      assert Pow2(k) % 2 == 0 && Pow2(k) / 2 == Pow2(k - 1);
    }
  }

  lemma {:induction false} AndAbove(i: nat, k: nat)
    requires Bit(i, k) == 0
    ensures And(i + Pow2(k), i) == i
  {
    hide And;
    AndStep(i + Pow2(k), i);
    if k == 0 {
      AndSelf(i / 2);
    } else {
      Halve(i, Pow2(k - 1));
      AndAbove(i / 2, k - 1);
    }
  }

  lemma {:induction false} AndBelow(i: nat, k: nat)
    requires Bit(i, k) == 1
    ensures i >= Pow2(k) && And(i - Pow2(k), i) == i - Pow2(k)
  {
    hide And;
    if k == 0 {
      AndStep(i - 1, i);
      AndSelf(i / 2);
    } else {
      AndBelow(i / 2, k - 1);
      AndStep(i - Pow2(k), i);
      Halve(i, Pow2(k - 1));
    }
  }

  /** And-ing a word with its copy whose bit k is flipped clears the bit. Together with
      FlipBit this is the sibling arithmetic of a buddy system. */
  lemma ClearBit(i: nat, k: nat)
    ensures And(Xor(i, Pow2(k)), i) == if Bit(i, k) == 0 then i else i - Pow2(k)
  {
    FlipBit(i, k);
    BitMod(i, k);
    if Bit(i, k) == 0 { AndAbove(i, k); } else { AndBelow(i, k); }
  }

  lemma BitFits(i: nat, k: nat)
    ensures Bit(i, k) < 2 && (Bit(i, k) == 1 ==> i >= Pow2(k))
    ensures Bit(i, k) == 1 <==> i % Pow2(k + 1) >= Pow2(k)
  {
    BitMod(i, k);
    ModBound(i, Pow2(k + 1));
    ModBound(i, Pow2(k));
  }

  /** x & (2^k - 1) is the remainder modulo 2^k. */
  lemma {:induction false} AndLowMask(x: nat, k: nat)
    ensures And(x, Pow2(k) - 1) == x % Pow2(k)
  {
    hide And, Pow2;
    if k == 0 {
      MaskNone(x);
    } else {
      Pow2Step(k - 1);
      AndLowMask(x / 2, k - 1);
      MaskStep(x, Pow2(k - 1));
    }
  }

  lemma MaskNone(x: nat)
    ensures And(x, Pow2(0) - 1) == x % Pow2(0)
  {
    AndZero(x);
  }

  lemma MaskStep(x: nat, p: nat)
    requires p > 0 && And(x / 2, p - 1) == x / 2 % p
    ensures And(x, 2 * p - 1) == x % (2 * p)
  {
    hide And;
    assert (2 * p - 1) / 2 == p - 1 && (2 * p - 1) % 2 == 1;
    AndStep(x, 2 * p - 1);
    ModDouble(x, p);
  }

  lemma ModDouble(x: nat, p: nat)
    requires p > 0
    ensures x % (2 * p) == x % 2 + 2 * ((x / 2) % p)
  {
    var q, r := (x / 2) / p, (x / 2) % p;
    assert x == 2 * (q * p + r) + x % 2;
    assert x == q * (2 * p) + (2 * r + x % 2);
    ModUnique(x, 2 * p, q, 2 * r + x % 2);
  }

  lemma ModUnique(x: nat, m: nat, q: nat, r: nat)
    requires m > 0 && x == q * m + r && r < m
    ensures x % m == r && x / m == q
  {
    var e := q - x / m;
    assert e * m == x % m - r by { assert x == x / m * m + x % m; }
    if e > 0 { MulAtLeast(e, m); } else if e < 0 { MulAtLeast(-e, m); }
  }

  lemma ModBound(x: nat, m: nat)
    requires m > 0
    ensures x % m <= x && x % m < m && x == x / m * m + x % m
  {
    if x < m { ModUnique(x, m, 0, x); }
  }

  lemma {:induction false} MulAtLeast(d: int, m: int)
    requires m > 0 && d > 0
    ensures d * m >= m
  {
    if d > 1 { MulAtLeast(d - 1, m); }
  }

  /** A multiple of 2^k is a multiple of every smaller power of two. */
  lemma {:induction false} AlignedDown(x: nat, o: nat, k: nat)
    requires o <= k && x % Pow2(k) == 0
    ensures x % Pow2(o) == 0
    decreases k
  {
    if o < k {
      BitMod(x, k - 1);
      AlignedDown(x, o, k - 1);
    }
  }

  lemma {:induction false} Pow2Aligned(o: nat, k: nat)
    requires o <= k
    ensures Pow2(k) % Pow2(o) == 0
    decreases k
  {
    if o == k {
      ModUnique(Pow2(k), Pow2(k), 1, 0);
    } else {
      Pow2Aligned(o, k - 1);
      AlignedSum(Pow2(k - 1), Pow2(k - 1), Pow2(o));
    }
  }

  lemma AlignedSum(a: nat, b: nat, m: nat)
    requires m > 0 && a % m == 0 && b % m == 0
    ensures (a + b) % m == 0
  {
    ModBound(a, m);
    ModBound(b, m);
    assert (a / m + b / m) * m == a + b;
    ModUnique(a + b, m, a / m + b / m, 0);
  }

  /** Multiples of m that are less than m apart are ordered the way they look. */
  lemma AlignedOrder(a: nat, b: nat, m: nat)
    requires m > 0 && a % m == 0 && b % m == 0 && a < b + m
    ensures a <= b
  {
    ModBound(a, m);
    ModBound(b, m);
    var e := a / m - b / m;
    assert e * m == a - b;
    if e > 0 { MulAtLeast(e, m); }
    assert e <= 0 ==> e * m <= 0;
  }

  lemma OrEven(h: nat, lo: nat)
    ensures Or(2 * h, lo) == lo % 2 + 2 * Or(h, lo / 2)
  {
    assert 2 * h % 2 == 0 && 2 * h / 2 == h;
  }

  lemma AndEven(x: nat, h: nat)
    ensures And(x, 2 * h) == 2 * And(x / 2, h)
  {
    assert 2 * h % 2 == 0 && 2 * h / 2 == h;
  }

  /** Or-ing a value below 2^k into a word whose low k bits are clear is addition. */
  lemma {:induction false} OrDisjoint(hi: nat, lo: nat, k: nat)
    requires lo < Pow2(k)
    ensures Or(hi * Pow2(k), lo) == hi * Pow2(k) + lo
  {
    if k == 0 {
      OrZero(hi);
    } else {
      hide Or;
      var h := hi * Pow2(k - 1);
      assert hi * Pow2(k) == 2 * h;
      OrDisjoint(hi, lo / 2, k - 1);
      OrEven(h, lo);
    }
  }

  function Floor(x: nat, m: nat): int
    requires m > 0
  {
    x - x % m
  }

  /** x & ~(2^k - 1) on n-bit words rounds x down to a multiple of 2^k. */
  lemma AndHighMask(x: nat, k: nat, n: nat)
    requires k <= n && x < Pow2(n) && Pow2(k) <= Pow2(n)
    ensures And(x, Pow2(n) - Pow2(k)) == x - x % Pow2(k)
  {
    hide And, Pow2;
    HighMaskFloor(x, k, n);
  }

  lemma {:induction false} HighMaskFloor(x: nat, k: nat, n: nat)
    requires k <= n && x < Pow2(n) && Pow2(k) <= Pow2(n)
    ensures And(x, Pow2(n) - Pow2(k)) == Floor(x, Pow2(k))
    decreases k
  {
    hide And, Pow2, Floor;
    if k == 0 {
      AndWhole(x, n);
    } else {
      Pow2Monotone(k - 1, n - 1);
      Pow2Step(k - 1);
      Pow2Step(n - 1);
      HighMaskFloor(x / 2, k - 1, n - 1);
      HighMaskStep(x, Pow2(k - 1), Pow2(n - 1));
    }
  }

  lemma AndWhole(x: nat, n: nat)
    requires x < Pow2(n)
    ensures 1 <= Pow2(n) && And(x, Pow2(n) - Pow2(0)) == Floor(x, Pow2(0))
  {
    hide And;
    AndLowMask(x, n);
    ModBelow(x, Pow2(n));
  }

  lemma ModBelow(x: nat, m: nat)
    requires x < m
    ensures x % m == x
  {
  }

  lemma HighMaskStep(x: nat, p: nat, q: nat)
    requires 0 < p <= q && And(x / 2, q - p) == Floor(x / 2, p)
    ensures And(x, 2 * q - 2 * p) == Floor(x, 2 * p)
  {
    hide And;
    ModDouble(x, p);
    AndEven(x, q - p);
  }

  lemma {:induction false} Pow2Monotone(a: nat, b: nat)
    requires a <= b
    ensures Pow2(a) <= Pow2(b)
    decreases b
  {
    if a < b { Pow2Monotone(a, b - 1); }
  }

  /** The powers the model uses as literals. */
  lemma Pow2Values()
    ensures Pow2(0) == 1 && Pow2(1) == 2 && Pow2(2) == 4 && Pow2(3) == 8 && Pow2(4) == 16
    ensures Pow2(9) == 512 && Pow2(12) == 4096 && Pow2(28) == 0x1000_0000 && Pow2(32) == WORD
  {
    assert Pow2(4) == 16;
    assert Pow2(8) == 16 * Pow2(4);
    assert Pow2(12) == 16 * Pow2(8);
    assert Pow2(16) == 16 * Pow2(12);
    assert Pow2(20) == 16 * Pow2(16);
    assert Pow2(24) == 16 * Pow2(20);
    assert Pow2(28) == 16 * Pow2(24);
    assert Pow2(32) == 16 * Pow2(28);
  }

  // ----- single bits -----

  lemma {:induction false} XorBit(a: nat, b: nat, i: nat)
    ensures Bit(Xor(a, b), i) == (Bit(a, i) + Bit(b, i)) % 2
    decreases i
  {
    hide Xor;
    XorStep(a, b);
    if i > 0 { XorBit(a / 2, b / 2, i - 1); }
  }

  /** q == a >> k */
  lemma {:induction false} ShiftRightBit(a: nat, k: nat, q: nat, i: nat)
    requires q == a / Pow2(k)
    ensures Bit(q, i) == Bit(a, i + k)
    decreases k
  {
    if k > 0 {
      HalvedQuotient(a, Pow2(k - 1));
      ShiftRightBit(a / 2, k - 1, q, i);
    }
  }

  lemma HalvedQuotient(a: nat, p: nat)
    requires p > 0
    ensures a / (2 * p) == a / 2 / p
  {
    var q, r := a / 2 / p, a / 2 % p;
    assert a == q * (2 * p) + (2 * r + a % 2);
    ModUnique(a, 2 * p, q, 2 * r + a % 2);
  }

  /** a << k */
  lemma {:induction false} ShiftLeftBit(a: nat, k: nat, i: nat)
    ensures Bit(a * Pow2(k), i) == if i < k then 0 else Bit(a, i - k)
    decreases k
  {
    if k > 0 {
      var b := a * Pow2(k - 1);
      assert a * Pow2(k) == 2 * b;
      if i > 0 { ShiftLeftBit(a, k - 1, i - 1); }
    }
  }

  lemma {:induction false} ModBit(x: nat, k: nat, i: nat)
    requires i < k
    ensures Bit(x % Pow2(k), i) == Bit(x, i)
    decreases k
  {
    ModDouble(x, Pow2(k - 1));
    ModBound(x / 2, Pow2(k - 1));
    if i > 0 { ModBit(x / 2, k - 1, i - 1); }
  }
}
