// Range operations that meet what LazyValueInfo needs of them: complements, shifted ranges and the
// ranges of comparisons are exact.
module RangeRules {
  import opened MachineIntegers
  import opened LatticeValues

  function Clamp(x: int, n: int): int {
    if x < 0 then 0 else if x > n then n else x
  }

  /** The same range with bounds below the size. */
  function Normal(a: Range): Range {
    var n := Size(a.width);
    var lo, up := Clamp(a.lower, n), Clamp(a.upper, n);
    if a.IsFull() then Full(a.width)
    else if a.IsEmpty() then Empty(a.width)
    else if a.lower < a.upper then
      if lo == up then Empty(a.width) else if lo == 0
        && up == n then Full(a.width) else Range(a.width, lo, if up == n then 0 else up)
    else
      if lo == up then Full(a.width) else if lo == n
        && up == 0 then Empty(a.width) else Range(a.width, if lo == n then 0 else lo, up)
  }

  predicate IsNormal(a: Range) {
    a.IsEmpty() || a.IsFull() || (0 <= a.lower < Size(a.width) && 0 <= a.upper < Size(a.width) && a.lower != a.upper)
  }

  lemma NormalIsSame(a: Range, x: int)
    ensures IsNormal(Normal(a)) && Normal(a).width == a.width && (Normal(a).Has(x) <==> a.Has(x))
  {
    hide Pow2;
  }

  /** All x for which x + k is in the range. */
  function Subtract(a: Range, k: int): Range {
    var r := Normal(a);
    if r.lower == r.upper then r else Range(r.width, (r.lower - k) % Size(r.width), (r.upper - k) % Size(r.width))
  }

  /** Membership counted from the lower bound. */
  lemma HasFromLower(a: Range, x: int)
    requires 0 <= a.lower < Size(a.width) && 0 <= a.upper < Size(a.width) && a.lower != a.upper
    ensures a.Has(x) <==> (x - a.lower) % Size(a.width) < (a.upper - a.lower) % Size(a.width)
  {
    hide Pow2;
    var n := Size(a.width);
    Difference(x % n, a.lower, n);
    Difference(a.upper, a.lower, n);
    ModOfDifference(x, a.lower, n);
  }

  lemma Difference(y: int, lo: int, n: int)
    requires 0 <= y < n && 0 <= lo < n
    ensures (y - lo) % n == if lo <= y then y - lo else y - lo + n
  {
    if lo <= y {
      ModIs(y - lo, n, 0, y - lo);
    } else {
      ModIs(y - lo, n, -1, y - lo + n);
    }
  }

  lemma SameMod(a: int, b: int, n: int)
    requires n > 0 && Cong(n, a, b)
    ensures a % n == b % n
  {
    CongMod(n, a);
    CongMod(n, b);
    CongTrans(n, a % n, a, b);
    CongTrans(n, a % n, b, b % n);
    CongClose(n, a % n, b % n);
  }

  lemma ModOfDifference(x: int, lo: int, n: int)
    requires n > 0
    ensures (x - lo) % n == (x % n - lo) % n
  {
    CongMod(n, x);
    CongSame(n, lo);
    CongAdd(n, x, x % n, lo, lo);
    SameMod(x - lo, x % n - lo, n);
  }

  lemma ModOfShifted(x: int, lo: int, k: int, n: int)
    requires n > 0
    ensures (x - (lo - k) % n) % n == (x + k - lo) % n
  {
    CongMod(n, lo - k);
    CongSame(n, x);
    CongAdd(n, x, x, (lo - k) % n, lo - k);
    SameMod(x - (lo - k) % n, x - (lo - k), n);
  }

  lemma SubtractIsExact(a: Range, k: int, x: int)
    ensures Subtract(a, k).Has(x) <==> a.Has(x + k)
  {
    hide Pow2, Normal, Range.Has;
    var r, s := Normal(a), Subtract(a, k);
    var n := Size(r.width);
    NormalIsSame(a, x + k);
    if r.lower == r.upper {
      EmptyOrFull(r, x, x + k);
    } else {
      ModOfShifted(s.upper, r.lower, k, n);
      ModOfShifted(x, r.lower, k, n);
      ModOfDifference(r.upper - k, r.lower - k, n);
      ModRange(r.lower - k, n);
      ModRange(r.upper - k, n);
      ShiftedApart(r.lower, r.upper, k, n);
      ShiftBoth(r.lower, r.upper, k, n);
      HasFromLower(r, x + k);
      HasFromLower(s, x);
    }
  }

  lemma ModRange(x: int, n: int)
    requires n > 0
    ensures 0 <= x % n < n
  {
  }

  lemma EmptyOrFull(a: Range, x: int, y: int)
    requires a.lower == a.upper
    ensures a.Has(x) <==> a.Has(y)
  {
  }

  lemma ShiftBoth(lo: int, up: int, k: int, n: int)
    requires n > 0
    ensures ((up - k) % n - (lo - k) % n) % n == (up - lo) % n
  {
    CongMod(n, up - k);
    CongMod(n, lo - k);
    CongAdd(n, (up - k) % n, up - k, (lo - k) % n, lo - k);
    SameMod((up - k) % n - (lo - k) % n, up - lo, n);
  }

  lemma ShiftedApart(lo: int, up: int, k: int, n: int)
    requires 0 <= lo < n && 0 <= up < n && lo != up
    ensures (lo - k) % n != (up - k) % n
  {
    if (lo - k) % n == (up - k) % n {
      CongMod(n, lo - k);
      CongMod(n, up - k);
      CongTrans(n, lo - k, (lo - k) % n, up - k);
      CongSame(n, k);
      CongAdd(n, lo - k, up - k, k, k);
      CongClose(n, lo, up);
    }
  }

  function Inverse(a: Range): Range {
    if a.IsFull() then Empty(a.width) else if a.IsEmpty() then Full(a.width) else Range(a.width, a.upper, a.lower)
  }

  lemma InverseIsExact(a: Range, x: int)
    ensures Inverse(a).Has(x) <==> !a.Has(x)
  {
    hide Pow2;
  }

  /** The integers that compare like this with c. */
  function Region(p: Pred, width: Width, c: int): Range {
    var n := Size(width);
    var k := c % n;
    match p
    case EQ => Single(width, c)
    case NE => AllBut(width, c)
    case ULT => if k == 0 then Empty(width) else Range(width, 0, k)
    case ULE => if k == n - 1 then Full(width) else Range(width, 0, k + 1)
    case UGT => if k == n - 1 then Empty(width) else Range(width, k + 1, 0)
    case UGE => if k == 0 then Full(width) else Range(width, k, 0)
    case SLT => if k == n / 2 then Empty(width) else Range(width, n / 2, k)
    case SLE => if k == n / 2 - 1 then Full(width) else Range(width, n / 2, k + 1)
    case SGT => if k == n / 2 - 1 then Empty(width) else Range(width, if k == n - 1 then 0 else k + 1, n / 2)
    case SGE => if k == n / 2 then Full(width) else Range(width, k, n / 2)
  }

  lemma SizeIsEven(width: Width)
    ensures Size(width) == 2 * (Size(width) / 2)
  {
    assert Pow2(width) == 2 * Pow2(width - 1);
  }

  lemma RegionIsExact(p: Pred, width: Width, c: int, x: int)
    ensures Region(p, width, c).Has(x) <==> Compares(p, width, x, c)
  {
    hide Pow2;
    SizeIsEven(width);
    SingleHas(width, c, x);
  }

  /** Exact complements, shifts and regions; unions and results of operations are only bounded. */
  ghost function Standard(): Rules {
    Rules((a: Range, b) => Full(a.width), (a, b) => a, (a, b) => a, a => Inverse(a), (a, k) => Subtract(a, k),
          (p, w: Width, c) => Region(p, w, c), (op, w: Width, a, b) => Full(w), (op, w: Width, x, y) => x, id => id,
            (a, b) => a != b, 0)
  }

  lemma FullHas(width: Width, x: int)
    ensures Full(width).Has(x)
  {
    hide Pow2;
  }

  /** The rules that the other theorems assume can be met. */
  lemma StandardIsSound()
    ensures Standard().Sound()
  {
    hide Pow2, Range.Has, Compares, Full, Inverse, Subtract, Region;
    forall w: Width, x
      ensures Full(w).Has(x)
    {
      FullHas(w, x);
    }
    forall a: Range, x
      ensures Inverse(a).Has(x) <==> !a.Has(x)
    {
      InverseIsExact(a, x);
    }
    forall a: Range, k, x
      ensures Subtract(a, k).Has(x) <==> a.Has(x + k)
    {
      SubtractIsExact(a, k, x);
    }
    forall p, w: Width, c, x
      ensures Region(p, w, c).Has(x) <==> Compares(p, w, x, c)
    {
      RegionIsExact(p, w, c, x);
    }
  }
}
