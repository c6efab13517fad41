// 64-bit integers: wrap-around, congruence, division, and the bit operations of machine arithmetic.
module MachineIntegers {

  const MODULUS: int := 0x1_0000_0000_0000_0000
  const HALF: int := 0x8000_0000_0000_0000

  type Word = x: int | 0 <= x < 0x1_0000_0000_0000_0000

  /** As an unsigned 64-bit integer. */
  function Unsigned(x: int): Word {
    x % MODULUS
  }

  /** As a signed 64-bit integer. */
  function Signed(x: int): int {
    if x % MODULUS >= HALF then x % MODULUS - MODULUS else x % MODULUS
  }

  predicate IsSigned(x: int) {
    -HALF <= x < HALF
  }

  // ---------------------------------------------------------------- congruence

  ghost predicate Cong(m: int, a: int, b: int)
    requires m > 0
  {
    exists q :: a - b == m * q
  }

  lemma CongBy(m: int, a: int, b: int, q: int)
    requires m > 0 && a - b == m * q
    ensures Cong(m, a, b)
  {
  }

  lemma CongSame(m: int, a: int)
    requires m > 0
    ensures Cong(m, a, a)
  {
    CongBy(m, a, a, 0);
  }

  lemma CongAdd(m: int, a: int, b: int, c: int, d: int)
    requires m > 0 && Cong(m, a, b) && Cong(m, c, d)
    ensures Cong(m, a + c, b + d) && Cong(m, a - c, b - d)
  {
    var q :| a - b == m * q;
    var r :| c - d == m * r;
    CongBy(m, a + c, b + d, q + r);
    assert m * (q - r) == m * q - m * r;
    CongBy(m, a - c, b - d, q - r);
  }

  lemma CongMul(m: int, a: int, b: int, k: int)
    requires m > 0 && Cong(m, a, b)
    ensures Cong(m, a * k, b * k) && Cong(m, k * a, k * b)
  {
    var q :| a - b == m * q;
    assert a * k - b * k == (a - b) * k == m * q * k == m * (q * k);
    CongBy(m, a * k, b * k, q * k);
    assert k * a == a * k && k * b == b * k;
  }

  lemma CongTrans(m: int, a: int, b: int, c: int)
    requires m > 0 && Cong(m, a, b) && Cong(m, b, c)
    ensures Cong(m, a, c)
  {
    var q :| a - b == m * q;
    var r :| b - c == m * r;
    assert a - c == m * (q + r);
    CongBy(m, a, c, q + r);
  }

  lemma CongSym(m: int, a: int, b: int)
    requires m > 0 && Cong(m, a, b)
    ensures Cong(m, b, a)
  {
    var q :| a - b == m * q;
    assert b - a == m * (-q);
    CongBy(m, b, a, -q);
  }

  lemma CongMod(m: int, a: int)
    requires m > 0
    ensures Cong(m, a % m, a) && Cong(m, a, a % m)
  {
    assert a == m * (a / m) + a % m;
    assert a % m - a == m * (-(a / m));
    CongBy(m, a % m, a, -(a / m));
    CongBy(m, a, a % m, a / m);
  }

  /** Close numbers that are congruent are equal. */
  lemma CongClose(m: int, a: int, b: int)
    requires m > 0 && Cong(m, a, b) && -m < a - b < m
    ensures a == b
  {
    var q :| a - b == m * q;
    if q != 0 {
      Multiple(q, m);
    }
  }

  lemma Multiple(k: int, n: int)
    requires n > 0 && k != 0
    ensures n * k >= n || n * k <= -n
  {
    if k > 0 {
      assert n * (k - 1) >= 0;
    } else {
      assert n * (-k - 1) >= 0;
    }
  }

  lemma ModIs(x: int, n: int, q: int, r: int)
    requires n > 0 && x == q * n + r && 0 <= r < n
    ensures x % n == r
  {
    CongBy(n, x, r, q);
    CongMod(n, x);
    CongTrans(n, x % n, x, r);
    CongClose(n, x % n, r);
  }

  lemma CongDown(m: int, p: int, k: int, a: int, b: int)
    requires m > 0 && p > 0 && m == p * k && Cong(m, a, b)
    ensures Cong(p, a, b)
  {
    var q :| a - b == m * q;
    assert a - b == p * (k * q);
    CongBy(p, a, b, k * q);
  }

  lemma SignedCong(x: int)
    ensures Cong(MODULUS, Signed(x), x) && IsSigned(Signed(x)) && Cong(MODULUS, Unsigned(x), x)
  {
    CongMod(MODULUS, x);
    CongBy(MODULUS, x % MODULUS - MODULUS, x % MODULUS, -1);
    CongTrans(MODULUS, x % MODULUS - MODULUS, x % MODULUS, x);
  }

  // ---------------------------------------------------------------- products and quotients

  lemma MulMono(a: int, b: int, d: int)
    requires a <= b && d >= 0
    ensures a * d <= b * d && d * a <= d * b
  {
    assert (b - a) * d >= 0;
  }

  lemma DivAtLeast(x: int, d: int, k: int)
    requires d > 0 && k * d <= x
    ensures k <= x / d
  {
    var q := x / d;
    assert x == d * q + x % d;
    if q < k {
      MulMono(q + 1, k, d);
    }
  }

  lemma DivBelow(x: int, d: int, k: int)
    requires d > 0 && x < k * d
    ensures x / d < k
  {
    var q := x / d;
    assert x == d * q + x % d;
    if k <= q {
      MulMono(k, q, d);
    }
  }

  lemma DivIs(x: int, d: int, q: int, r: int)
    requires d > 0 && x == q * d + r && 0 <= r < d
    ensures x / d == q && x % d == r
  {
    ModIs(x, d, q, r);
    DivAtLeast(x, d, q);
    assert (q + 1) * d == q * d + d;
    DivBelow(x, d, q + 1);
  }

  lemma DivMod(x: int, d: int)
    requires d > 0
    ensures x == x / d * d + x % d && 0 <= x % d < d
  {
    assert x == d * (x / d) + x % d;
  }

  lemma Swap(a: int, b: int, c: int)
    ensures a * b * c == a * c * b
  {
  }

  lemma Dist(a: int, b: int, c: int)
    ensures (a + b) * c == a * c + b * c
  {
  }

  // ---------------------------------------------------------------- powers of two

  function Pow2(k: nat): (p: nat)
    ensures p >= 1
  {
    if k == 0 then 1 else 2 * Pow2(k - 1)
  }

  lemma {:induction false} Pow2Adds(a: nat, b: nat)
    ensures Pow2(a + b) == Pow2(a) * Pow2(b)
    decreases a
  {
    if a > 0 {
      Pow2Adds(a - 1, b);
      assert Pow2(a + b) == 2 * Pow2(a - 1 + b);
      assert 2 * (Pow2(a - 1) * Pow2(b)) == 2 * Pow2(a - 1) * Pow2(b);
    }
  }

  lemma Pow2Is64()
    ensures Pow2(64) == MODULUS && Pow2(63) == HALF
  {
    assert Pow2(8) == 256;
    assert Pow2(16) == 65536;
    Pow2Adds(16, 16);
    Pow2Adds(32, 31);
    assert Pow2(31) == 0x8000_0000 by { Pow2Adds(16, 15); assert Pow2(15) == 0x8000; }
  }

  lemma {:induction false} Pow2Grows(a: nat, b: nat)
    requires a <= b
    ensures Pow2(a) <= Pow2(b)
    decreases b
  {
    if a < b {
      Pow2Grows(a, b - 1);
    }
  }

  // ---------------------------------------------------------------- bits

  function BitOr(x: nat, y: nat): nat {
    if x == 0 && y == 0 then 0 else 2 * BitOr(x / 2, y / 2) + (if x % 2 == 1 || y % 2 == 1 then 1 else 0)
  }

  function BitAnd(x: nat, y: nat): nat {
    if x == 0 && y == 0 then 0 else 2 * BitAnd(x / 2, y / 2) + (if x % 2 == 1 && y % 2 == 1 then 1 else 0)
  }

  function BitXor(x: nat, y: nat): nat {
    if x == 0 && y == 0 then 0 else 2 * BitXor(x / 2, y / 2) + (if x % 2 != y % 2 then 1 else 0)
  }

  /** With no bit in common, or adds. */
  lemma {:induction false} OrAdds(x: nat, y: nat)
    requires BitAnd(x, y) == 0
    ensures BitOr(x, y) == x + y
    decreases x + y
  {
    if x != 0 || y != 0 {
      OrAdds(x / 2, y / 2);
    }
  }

  /** The lowest bit that is set. */
  function LowestBit(x: nat): (p: nat)
    requires x > 0
    ensures 1 <= p <= x
  {
    if x % 2 == 1 then 1 else 2 * LowestBit(x / 2)
  }

  lemma {:induction false} AndSelfIs(x: nat)
    ensures BitAnd(x, x) == x && BitXor(x, x) == 0
    decreases x
  {
    if x > 0 {
      AndSelfIs(x / 2);
    }
  }

  /** The trick x ^ (x & (x - 1)) isolates it. */
  lemma {:induction false} IsolatesLowestBit(x: nat)
    requires x > 0
    ensures BitXor(x, BitAnd(x, x - 1)) == LowestBit(x)
    decreases x
  {
    var a := BitAnd(x, x - 1);
    if x % 2 == 1 {
      assert (x - 1) / 2 == x / 2 && (x - 1) % 2 == 0;
      AndSelfIs(x / 2);
      assert a == 2 * (x / 2);
      assert a / 2 == x / 2 && a % 2 == 0;
      assert BitXor(x, a) == 2 * BitXor(x / 2, a / 2) + 1;
    } else {
      var h := x / 2;
      assert (x - 1) / 2 == h - 1;
      IsolatesLowestBit(h);
      assert a == 2 * BitAnd(h, h - 1);
      assert a / 2 == BitAnd(h, h - 1) && a % 2 == 0;
      assert BitXor(x, a) == 2 * BitXor(h, a / 2);
    }
  }

  /** It is a power of two that divides the number. */
  lemma {:induction false} LowestBitIsPower(x: nat) returns (k: nat)
    requires x > 0
    ensures LowestBit(x) == Pow2(k) && x % Pow2(k) == 0 && x % Pow2(k + 1) != 0
    decreases x
  {
    if x % 2 == 1 {
      k := 0;
      assert Pow2(1) == 2;
    } else {
      var j := LowestBitIsPower(x / 2);
      k := j + 1;
      RemainderHalves(x, Pow2(j));
      RemainderHalves(x, Pow2(j + 1));
    }
  }

  lemma {:induction false} OrIsPositive(x: nat, y: nat)
    ensures BitOr(x, y) == 0 <==> x == 0 && y == 0
    decreases x + y
  {
    if x != 0 || y != 0 {
      OrIsPositive(x / 2, y / 2);
    }
  }

  lemma {:induction false} OrBelow(x: nat, y: nat, k: nat)
    requires x < Pow2(k) && y < Pow2(k)
    ensures BitOr(x, y) < Pow2(k)
    decreases k
  {
    if k > 0 && (x != 0 || y != 0) {
      OrBelow(x / 2, y / 2, k - 1);
    }
  }

  /** A power of two divides x | y exactly if it divides both. */
  lemma {:induction false} OrRemainder(x: nat, y: nat, k: nat)
    ensures BitOr(x, y) % Pow2(k) == 0 <==> x % Pow2(k) == 0 && y % Pow2(k) == 0
    decreases k
  {
    if k > 0 && (x != 0 || y != 0) {
      OrRemainder(x / 2, y / 2, k - 1);
      OrHalves(x, y);
      RemainderHalves(x, Pow2(k - 1));
      RemainderHalves(y, Pow2(k - 1));
      RemainderHalves(BitOr(x, y), Pow2(k - 1));
    }
  }

  lemma OrHalves(x: nat, y: nat)
    requires x != 0 || y != 0
    ensures BitOr(x, y) / 2 == BitOr(x / 2, y / 2) && (BitOr(x, y) % 2 == 0 <==> x % 2 == 0 && y % 2 == 0)
  {
  }

  /** A mask of ones takes the remainder. */
  lemma {:induction false} MaskIsRemainder(x: nat, k: nat)
    ensures BitAnd(x, Pow2(k) - 1) == x % Pow2(k)
    decreases k
  {
    if k == 0 {
      AndZero(x);
    } else {
      MaskIsRemainder(x / 2, k - 1);
      MaskStep(x, Pow2(k - 1));
    }
  }

  lemma MaskStep(x: nat, h: nat)
    requires h > 0 && BitAnd(x / 2, h - 1) == x / 2 % h
    ensures BitAnd(x, 2 * h - 1) == x % (2 * h)
  {
    hide BitAnd;
    MaskHalves(x, h);
    RemainderHalves(x, h);
  }

  lemma MaskHalves(x: nat, h: nat)
    requires h > 0
    ensures BitAnd(x, 2 * h - 1) == 2 * BitAnd(x / 2, h - 1) + x % 2
  {
    assert (2 * h - 1) / 2 == h - 1 && (2 * h - 1) % 2 == 1;
  }

  lemma {:induction false} AndZero(x: nat)
    ensures BitAnd(x, 0) == 0
    decreases x
  {
    if x > 0 {
      AndZero(x / 2);
    }
  }

  lemma RemainderHalves(x: nat, h: nat)
    requires h > 0
    ensures x % (2 * h) == 2 * (x / 2 % h) + x % 2
  {
    var r := 2 * (x / 2 % h) + x % 2;
    var q := x / 2 / h;
    assert x / 2 == h * q + x / 2 % h;
    assert x == 2 * (x / 2) + x % 2 == q * (2 * h) + r;
    ModIs(x, 2 * h, q, r);
  }
}
