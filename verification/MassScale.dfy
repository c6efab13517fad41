// BranchProbability::scale: a 64-bit number times a fraction, in 32-bit digits.
module MassScale {
  import opened MachineIntegers

  const UINT32_MAX: int := 0xFFFF_FFFF
  const UINT64_MAX: int := 0xFFFF_FFFF_FFFF_FFFF
  const DIGIT: int := 0x1_0000_0000

  type U32 = x: int | 0 <= x <= 0xFFFF_FFFF

  /** The floor of num * n / d, or the largest number if that does not fit. */
  function Scaled(num: int, n: int, d: int): int
    requires d > 0
  {
    if num * n / d > UINT64_MAX then UINT64_MAX else num * n / d
  }

  /** Long division: the quotient of a two-digit number, digit by digit. */
  lemma LongDivision(high: int, low: int, d: int)
    requires d > 0 && high >= 0 && 0 <= low < DIGIT
    ensures (high * DIGIT + low) / d == high / d * DIGIT + (high % d * DIGIT + low) / d
    ensures 0 <= (high % d * DIGIT + low) / d < DIGIT
  {
    var q, r := high / d, high % d;
    var rem := r * DIGIT + low;
    var q2, r2 := rem / d, rem % d;
    DivMod(high, d);
    DivMod(rem, d);
    Regroup(q, d, r, q2, r2, low);
    DivIs(high * DIGIT + low, d, q * DIGIT + q2, r2);
    assert rem < DIGIT * d;
    DivBelow(rem, d, DIGIT);
    DivAtLeast(rem, d, 0);
  }

  lemma Regroup(q: int, d: int, r: int, q2: int, r2: int, low: int)
    requires r * DIGIT + low == q2 * d + r2
    ensures (q * d + r) * DIGIT + low == (q * DIGIT + q2) * d + r2
  {
    assert (q * DIGIT + q2) * d == q * DIGIT * d + q2 * d;
    assert q * DIGIT * d == q * d * DIGIT;
  }

  lemma Overflows(num: int, n: int, d: int)
    requires d > 0 && num * n >= MODULUS * d
    ensures Scaled(num, n, d) == UINT64_MAX
  {
    DivAtLeast(num * n, d, MODULUS);
  }

  /** The product in digits of 32 bits. */
  lemma ProductDigits(num: Word, n: U32)
    ensures num * n == num / DIGIT * n * DIGIT + num % DIGIT * n
    ensures 0 <= num / DIGIT * n <= UINT32_MAX * UINT32_MAX && 0 <= num % DIGIT * n <= UINT32_MAX * UINT32_MAX
  {
    var h, l := num / DIGIT, num % DIGIT;
    assert num == h * DIGIT + l;
    assert 0 <= h <= UINT32_MAX && 0 <= l <= UINT32_MAX;
    MulMono(h, UINT32_MAX, n);
    MulMono(l, UINT32_MAX, n);
    MulMono(n, UINT32_MAX, UINT32_MAX);
    MulMono(0, h, n);
    MulMono(0, l, n);
    assert (h * DIGIT + l) * n == h * n * DIGIT + l * n by {
      assert (h * DIGIT + l) * n == h * DIGIT * n + l * n;
    }
  }

  /** scale: exact, or the largest number on overflow; the later overflow tests never succeed. */
  method Scale(num: Word, n: U32, d: U32) returns (r: int)
    requires d > 0
    ensures r == Scaled(num, n, d)
  {
    hide Scaled;
    if num == 0 || d == n {
      ScaledByOne(num, n, d);
      return num;
    }
    ProductDigits(num, n);
    var productHigh := num / DIGIT * n;
    var productLow := num % DIGIT * n;
    var upper32 := productHigh / DIGIT;
    var lower32 := productLow % DIGIT;
    var mid32Partial := productHigh % DIGIT;
    var mid32 := (mid32Partial + productLow / DIGIT) % DIGIT;
    upper32 := upper32 + (if mid32 < mid32Partial then 1 else 0);
    Digits(num * n, productHigh, productLow, upper32, mid32, lower32);
    if upper32 >= d {
      Overflows(num, n, d);
      return UINT64_MAX;
    }
    TwoDivisions(num, n, d, upper32, mid32, lower32);
    var rem := upper32 * DIGIT + mid32;
    var upperQ := rem / d;
    if upperQ > UINT32_MAX {
      r := UINT64_MAX;
    } else {
      rem := rem % d * DIGIT + lower32;
      var lowerQ := rem / d;
      var q := (upperQ * DIGIT + lowerQ) % MODULUS;
      r := if q < lowerQ then UINT64_MAX else q;
    }
  }

  lemma ScaledByOne(num: Word, n: U32, d: U32)
    requires d > 0 && (num == 0 || d == n)
    ensures Scaled(num, n, d) == num
  {
    DivIs(num * n, d, num, 0);
  }

  /** The two digits of the quotient. */
  lemma TwoDivisions(num: Word, n: U32, d: U32, upper32: int, mid32: int, lower32: int)
    requires d > 0 && num * n == (upper32 * DIGIT + mid32) * DIGIT + lower32
    requires 0 <= upper32 < d && 0 <= mid32 < DIGIT && 0 <= lower32 < DIGIT
    ensures var rem := upper32 * DIGIT + mid32;
            var lowerQ := (rem % d * DIGIT + lower32) / d;
            && 0 <= rem / d < DIGIT && 0 <= lowerQ < DIGIT && Scaled(num, n, d) == rem / d * DIGIT + lowerQ
            && (rem / d * DIGIT + lowerQ) % MODULUS == rem / d * DIGIT + lowerQ
  {
    var rem := upper32 * DIGIT + mid32;
    LongDivision(upper32, mid32, d);
    DivIs(upper32, d, 0, upper32);
    LongDivision(rem, lower32, d);
  }

  lemma Digits(product: int, high: int, low: int, upper32: int, mid32: int, lower32: int)
    requires product == high * DIGIT + low && 0 <= high <= UINT32_MAX * UINT32_MAX
             && 0 <= low <= UINT32_MAX * UINT32_MAX
    requires lower32 == low % DIGIT && mid32 == (high % DIGIT + low / DIGIT) % DIGIT
    requires upper32 == high / DIGIT + (if mid32 < high % DIGIT then 1 else 0)
    ensures product == (upper32 * DIGIT + mid32) * DIGIT + lower32
            && product == upper32 * MODULUS + mid32 * DIGIT + lower32
    ensures 0 <= mid32 < DIGIT && 0 <= lower32 < DIGIT && 0 <= upper32
  {
    var a, b := high % DIGIT, low / DIGIT;
    assert b <= UINT32_MAX;
    if a + b >= DIGIT {
      DivIs(a + b, DIGIT, 1, a + b - DIGIT);
    } else {
      DivIs(a + b, DIGIT, 0, a + b);
    }
  }

  /** With a probability of at most one the result is the exact floor. */
  lemma ScaledIsFloor(num: Word, n: U32, d: U32)
    requires 0 < d && n <= d
    ensures Scaled(num, n, d) == num * n / d && num * n / d <= num
  {
    MulMono(n, d, num);
    assert num * n < (num + 1) * d;
    DivBelow(num * n, d, num + 1);
  }

  // ---------------------------------------------------------------- block masses

  /** Adding masses saturates. */
  function AddMass(a: Word, b: Word): Word {
    var sum := (a + b) % MODULUS;
    if sum < a then UINT64_MAX else sum
  }

  function SubMass(a: Word, b: Word): Word {
    var diff := (a - b) % MODULUS;
    if diff > a then 0 else diff
  }

  lemma MassArithmetic(a: Word, b: Word)
    ensures AddMass(a, b) == if a + b > UINT64_MAX then UINT64_MAX else a + b
    ensures SubMass(a, b) == if a < b then 0 else a - b
  {
  }
}
