// How weights are shifted so that their total fits 32 bits, and up to which sum this works.
module WeightScaling {
  import opened MachineIntegers
  import opened MassScale
  import opened Distribution

  // ---------------------------------------------------------------- shifting

  function BitLength(x: nat): nat {
    if x == 0 then 0 else 1 + BitLength(x / 2)
  }

  lemma {:induction false} BitLengthBounds(x: nat)
    ensures x < Pow2(BitLength(x)) && (x > 0 ==> BitLength(x) > 0 && Pow2(BitLength(x) - 1) <= x)
    decreases x
  {
    if x > 0 {
      BitLengthBounds(x / 2);
    }
  }

  /** By how much weights with this sum are shifted: one bit more than needed, if at all. */
  function ShiftFor(sum: nat): int {
    if sum >= MODULUS then 33 else if sum > UINT32_MAX then BitLength(sum) - 31 else 0
  }

  /** shiftRightAndRound. */
  function Rounded(n: nat, shift: nat): int {
    if shift == 0 then n else n / Pow2(shift) + n / Pow2(shift - 1) % 2
  }

  function Shifted(n: nat, shift: nat): nat {
    if shift == 0 then n else if Rounded(n, shift) < 1 then 1 else Rounded(n, shift)
  }

  function ShiftAll(ws: seq<Weight>, shift: nat): (r: seq<Weight>)
    ensures |r| == |ws| && forall i :: 0 <= i < |ws| ==> r[i] == ws[i].(amount := Shifted(ws[i].amount, shift))
  {
    seq(|ws|, i requires 0 <= i < |ws| => ws[i].(amount := Shifted(ws[i].amount, shift)))
  }

  lemma ShiftLimits(sum: nat)
    requires sum < 2 * MODULUS
    ensures 0 <= ShiftFor(sum) <= 33
    ensures ShiftFor(sum) == 0 <==> sum <= UINT32_MAX
    ensures 0 < ShiftFor(sum) && sum < MODULUS ==> sum / Pow2(ShiftFor(sum)) < 0x8000_0000
  {
    hide Pow2, BitLength;
    BitLengthBounds(sum);
    Pow2Is64();
    PowTwo31();
    var b := BitLength(sum);
    if UINT32_MAX < sum < MODULUS {
      if b <= 32 { Pow2Grows(b, 32); }
      if b > 64 { Pow2Grows(64, b - 1); }
      Pow2Adds(b - 31, 31);
      DivBelow(sum, Pow2(b - 31), 0x8000_0000);
    }
  }

  lemma SmallPowers()
    ensures Pow2(1) == 2 && Pow2(15) == 0x8000 && Pow2(16) == 0x10000
  {
    assert Pow2(8) == 256;
    Pow2Adds(8, 7);
    Pow2Adds(8, 8);
    assert Pow2(7) == 128;
  }

  lemma PowTwo31()
    ensures Pow2(31) == 0x8000_0000 && Pow2(32) == 0x1_0000_0000 && Pow2(33) == 0x2_0000_0000
  {
    SmallPowers();
    hide Pow2;
    Pow2Adds(16, 15);
    Pow2Adds(31, 1);
    Pow2Adds(32, 1);
  }

  /** Shifting rounds to the nearest multiple, a half up, but never down to nothing. */
  lemma RoundsToNearest(n: nat, shift: nat)
    requires shift > 0
    ensures var unit, half := Pow2(shift), Pow2(shift - 1);
            && (n < half ==> Shifted(n, shift) == 1)
            && (n >= half ==> n - half < Shifted(n, shift) * unit <= n + half)
  {
    var unit, half := Pow2(shift), Pow2(shift - 1);
    assert unit == 2 * half;
    hide Pow2;
    NearestHalf(n, half);
    var q := n / unit + n / half % 2;
    assert Rounded(n, shift) == q;
    if n < half {
      DivIs(n, half, 0, n);
      DivIs(n, unit, 0, n);
    } else {
      assert q >= 1 by { if q < 1 { MulMono(q, 0, unit); assert false; } }
    }
  }

  lemma NearestHalf(n: nat, half: nat)
    requires half > 0
    ensures var q := n / (2 * half) + n / half % 2; n - half < q * (2 * half) <= n + half
  {
    var h := n / half;
    DivMod(n, half);
    DivMod(h, 2);
    var low := n % half;
    assert n == (h / 2 * 2 + h % 2) * half + low;
    assert (h / 2 * 2 + h % 2) * half == h / 2 * (2 * half) + h % 2 * half;
    if h % 2 == 0 {
      DivIs(n, 2 * half, h / 2, low);
    } else {
      DivIs(n, 2 * half, h / 2, half + low);
      assert (h / 2 + 1) * (2 * half) == h / 2 * (2 * half) + 2 * half;
    }
  }

  /** A sum that is too large is shifted to exactly 31 bits, one fewer than would fit. */
  lemma ShiftIsOneExtra(sum: nat)
    requires UINT32_MAX < sum < MODULUS
    ensures ShiftFor(sum) > 0 && 0x4000_0000 <= sum / Pow2(ShiftFor(sum)) < 0x8000_0000
  {
    ShiftLimits(sum);
    assert 2 * Pow2(30) == Pow2(31);
    hide Pow2, BitLength;
    BitLengthBounds(sum);
    PowTwo31();
    var b := BitLength(sum);
    Pow2Adds(30, b - 31);
    DivAtLeast(sum, Pow2(b - 31), 0x4000_0000);
  }

  lemma DivSum(x: nat, y: nat, p: int)
    requires p > 0
    ensures x / p + y / p <= (x + y) / p
  {
    DivMod(x, p);
    DivMod(y, p);
    assert (x / p + y / p) * p == x / p * p + y / p * p;
    DivAtLeast(x + y, p, x / p + y / p);
  }

  /** Rounding and the lower limit of 1 add at most one for each weight. */
  lemma {:induction false} ShiftedSum(ws: seq<Weight>, shift: nat)
    requires shift > 0
    ensures Sum(ShiftAll(ws, shift)) <= Sum(ws) / Pow2(shift) + |ws|
    decreases |ws|
  {
    hide Pow2;
    var p := Pow2(shift);
    if ws == [] {
      DivAtLeast(0, p, 0);
    } else {
      var n := |ws| - 1;
      ShiftedSum(ws[..n], shift);
      assert ShiftAll(ws, shift)[..n] == ShiftAll(ws[..n], shift);
      DivAtLeast(ws[n].amount, p, 0);
      DivSum(Sum(ws[..n]), ws[n].amount, p);
    }
  }

  lemma {:induction false} MemberAtMostSum(ws: seq<Weight>, i: nat)
    requires i < |ws|
    ensures ws[i].amount <= Sum(ws)
    decreases |ws|
  {
    if i < |ws| - 1 {
      MemberAtMostSum(ws[..|ws| - 1], i);
    }
  }

  lemma AtLeastOne(n: nat, shift: nat)
    requires n > 0
    ensures Shifted(n, shift) >= 1
  {
  }

  lemma ShiftIs(sum: nat)
    ensures ShiftFor(sum) == if sum >= MODULUS then 33 else if sum > UINT32_MAX then BitLength(sum) - 31 else 0
  {
  }

  // ---------------------------------------------------------------- the limit

  const MAX_TARGETS := 0x4000_0000

  /** Different targets, one positive 64-bit weight each. */
  ghost predicate IsDistribution(ws: seq<Weight>, n: nat, sum: int) {
    DistinctTargets(ws) && Positive(ws) && |ws| == n && Sum(ws) == sum
  }

  /** The total after shifting fits 32 bits. */
  ghost predicate FitsShifted(ws: seq<Weight>) {
    ShiftFor(Sum(ws)) >= 0 && Sum(ShiftAll(ws, ShiftFor(Sum(ws)))) <= UINT32_MAX
  }

  /** From this sum of n weights on, the total may not fit. */
  function Limit(n: nat): int {
    if n < 2 then 2 * MODULUS else 2 * MODULUS - (n - 1) * 0x2_0000_0000 + (n - 2)
  }

  lemma LimitFalls(m: nat, n: nat)
    requires m <= n
    ensures Limit(n) <= Limit(m)
  {
  }

  /** What a weight contributes to the total when it is shifted by 33. */
  lemma Contribution(w: nat)
    requires 0 < w < MODULUS
    ensures 1 <= Shifted(w, 33) <= 0x8000_0000
    ensures Shifted(w, 33) >= 2 ==> w >= 0x2_0000_0000 * Shifted(w, 33) - 0x1_0000_0000
  {
    PowTwo31();
    hide Pow2;
    assert Rounded(w, 33) == w / 0x2_0000_0000 + w / 0x1_0000_0000 % 2;
    var q := w / 0x1_0000_0000;
    assert w / 0x2_0000_0000 == q / 2;
  }

  /** How many weights contribute two or more. */
  function Bigs(ws: seq<Weight>): nat {
    if ws == [] then 0 else Bigs(ws[..|ws| - 1]) + if Shifted(ws[|ws| - 1].amount, 33) >= 2 then 1 else 0
  }

  lemma {:induction false} SumFromBelow(ws: seq<Weight>)
    requires Positive(ws)
    ensures Bigs(ws) <= |ws| && Sum(ShiftAll(ws, 33)) <= Bigs(ws) * 0x8000_0000 + (|ws| - Bigs(ws))
    ensures Sum(ws) + Bigs(ws) * 0x1_0000_0000 + (|ws| - Bigs(ws)) * 0x1_FFFF_FFFF >= 0x2_0000_0000 * Sum(ShiftAll(ws,
              33))
    decreases |ws|
  {
    hide Shifted;
    if ws != [] {
      var n := |ws| - 1;
      SumFromBelow(ws[..n]);
      assert ShiftAll(ws, 33)[..n] == ShiftAll(ws[..n], 33);
      Contribution(ws[n].amount);
    }
  }

  /** Below the limit the total fits. */
  lemma BelowLimitFits(ws: seq<Weight>)
    requires Positive(ws) && 2 <= |ws| <= MAX_TARGETS && Sum(ws) < Limit(|ws|)
    ensures FitsShifted(ws)
  {
    hide Pow2, Shifted, Sum, BitLength, ShiftFor;
    var shift := ShiftFor(Sum(ws));
    ShiftLimits(Sum(ws));
    ShiftIs(Sum(ws));
    if Sum(ws) >= MODULUS {
      SumFromBelow(ws);
    } else if shift == 0 {
      ShiftNone(ws);
    } else {
      ShiftedSum(ws, shift);
    }
  }

  lemma ShiftNone(ws: seq<Weight>)
    ensures ShiftAll(ws, 0) == ws
  {
  }

  function Ones(n: nat): (ws: seq<Weight>)
    ensures |ws| == n && forall i :: 0 <= i < n ==> ws[i] == Weight(Local, i, 1)
  {
    seq(n, i requires 0 <= i < n => Weight(Local, i, 1))
  }

  lemma {:induction false} OnesSum(n: nat)
    ensures Sum(Ones(n)) == n && ShiftAll(Ones(n), 33) == Ones(n)
    decreases n
  {
    if n > 0 {
      OnesSum(n - 1);
      assert Ones(n)[..n - 1] == Ones(n - 1);
    }
    PowTwo31();
    hide Pow2;
    assert Shifted(1, 33) == 1;
  }

  /** Two weights that contribute much, and all others the least. */
  function Heavy(n: nat, a: nat, b: nat): (ws: seq<Weight>)
    requires n >= 2
    ensures |ws| == n
  {
    Ones(n - 2) + [Weight(Local, n - 2, a)] + [Weight(Local, n - 1, b)]
  }

  lemma HeavySum(n: nat, a: nat, b: nat)
    requires n >= 2
    ensures Sum(Heavy(n, a, b)) == n - 2 + a + b
    ensures Sum(ShiftAll(Heavy(n, a, b), 33)) == n - 2 + Shifted(a, 33) + Shifted(b, 33)
  {
    hide Shifted;
    OnesSum(n - 2);
    var x, y := Weight(Local, n - 2, a), Weight(Local, n - 1, b);
    SumAppend(Ones(n - 2), x);
    SumAppend(Ones(n - 2) + [x], y);
    var x', y' := x.(amount := Shifted(a, 33)), y.(amount := Shifted(b, 33));
    SumAppend(Ones(n - 2), x');
    SumAppend(Ones(n - 2) + [x'], y');
    assert ShiftAll(Heavy(n, a, b), 33) == ShiftAll(Ones(n - 2), 33) + [x'] + [y'];
  }

  lemma Heaviest(w: nat, c: nat)
    requires c >= 1 && w >= 0x2_0000_0000 * c - 0x1_0000_0000
    ensures Shifted(w, 33) >= c
  {
    PowTwo31();
    hide Pow2;
    assert Rounded(w, 33) == w / 0x2_0000_0000 + w / 0x1_0000_0000 % 2;
    var q := w / 0x1_0000_0000;
    assert w / 0x2_0000_0000 == q / 2;
    assert q >= 2 * c - 1;
  }

  /** From the limit on there are weights whose total does not fit. */
  lemma LimitIsReached(n: nat, sum: nat) returns (ws: seq<Weight>)
    requires 2 <= n <= MAX_TARGETS && Limit(n) <= sum <= 2 * UINT64_MAX
    ensures IsDistribution(ws, n, sum) && !FitsShifted(ws)
  {
    hide Shifted, Sum;
    var c := 0x8000_0000 - (n - 2);
    var least := 0x2_0000_0000 * c - 0x1_0000_0000;
    var b := if least + (sum - Limit(n)) <= UINT64_MAX then least + (sum - Limit(n)) else UINT64_MAX;
    var a := sum - b - (n - 2);
    assert a >= 0x2_0000_0000 * 0x8000_0000 - 0x1_0000_0000 && a <= UINT64_MAX;
    Heaviest(b, c);
    Heaviest(a, 0x8000_0000);
    ws := Heavy(n, a, b);
    HeavySum(n, a, b);
    ShiftIs(sum);
  }

  /** The limit is exact: with this sum every distribution fits if, and only if, the sum is below it. */
  lemma LimitIsExact(n: nat, sum: nat)
    requires 2 <= n <= MAX_TARGETS && n <= sum <= 2 * UINT64_MAX
    ensures (forall ws :: IsDistribution(ws, n, sum) ==> FitsShifted(ws)) <==> sum < Limit(n)
  {
    hide FitsShifted, Sum;
    if sum < Limit(n) {
      forall ws | IsDistribution(ws, n, sum)
        ensures FitsShifted(ws)
      {
        BelowLimitFits(ws);
      }
    } else {
      var ws := LimitIsReached(n, sum);
    }
  }
}
