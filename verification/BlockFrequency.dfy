// Normalising a distribution to 32 bits, and handing out a mass along it without losing any.
module BlockFrequency {
  import opened MachineIntegers
  import opened MassScale
  import opened Distribution
  import opened Sums
  import opened WeightScaling
  import opened Sets

  // ---------------------------------------------------------------- normalised distributions

  /** Different targets, weights from 1 to 2^32 - 1, and so is their total. */
  ghost predicate Normalized(ws: seq<Weight>, total: int) {
    && DistinctTargets(ws) && (forall i :: 0 <= i < |ws| ==> 1 <= ws[i].amount <= UINT32_MAX)
    && total == Sum(ws) <= UINT32_MAX
  }

  lemma ShiftedNormalized(ws: seq<Weight>)
    requires IsDistribution(ws, |ws|, Sum(ws)) && Sum(ws) < 2 * MODULUS && FitsShifted(ws)
    ensures 0 <= ShiftFor(Sum(ws)) && Normalized(ShiftAll(ws, ShiftFor(Sum(ws))), Sum(ShiftAll(ws, ShiftFor(Sum(ws)))))
  {
    hide Pow2, Rounded, Sum, ShiftFor, Shifted;
    var shift := ShiftFor(Sum(ws));
    ShiftLimits(Sum(ws));
    var ws' := ShiftAll(ws, shift);
    forall i | 0 <= i < |ws'|
      ensures 1 <= ws'[i].amount <= UINT32_MAX
    {
      AtLeastOne(ws[i].amount, shift);
      MemberAtMostSum(ws', i);
    }
  }

  /** What the assertions of normalize ask for: with more than one target the shifted total fits 32 bits. */
  ghost predicate Scalable(added: seq<Weight>) {
    forall combined {:trigger IsCombined(added, combined)} ::
        IsCombined(added, combined) && |combined| > 1 ==> FitsShifted(combined)
  }

  /** A sum below the limit is enough. */
  lemma BelowLimitScalable(added: seq<Weight>)
    requires Positive(added) && |Targets(added)| <= MAX_TARGETS && Sum(added) < Limit(|Targets(added)|)
    ensures Scalable(added)
  {
    hide Sum, Limit, FitsShifted, IsCombined, Targets;
    forall combined | IsCombined(added, combined) && |combined| > 1
      ensures FitsShifted(combined)
    {
      CombinedFacts(added, combined);
      LimitFalls(|combined|, |Targets(added)|);
      BelowLimitFits(combined);
    }
  }

  /** Combined weights as normalize leaves them: a single one becomes 1. */
  function ScaledBy(ws: seq<Weight>, shift: nat): seq<Weight> {
    if |ws| == 1 then [ws[0].(amount := 1)] else ShiftAll(ws, shift)
  }

  /** The weights are those that were added, combined per target and shifted as their sum demands. */
  ghost predicate NormalizedFrom(added: seq<Weight>, ws: seq<Weight>, total: int) {
    && Normalized(ws, total) && (added == [] ==> ws == [])
    && (added != [] ==> ws != [] && exists combined :: IsScaledFrom(added, combined, ws))
  }

  ghost predicate IsScaledFrom(added: seq<Weight>, combined: seq<Weight>, ws: seq<Weight>) {
    IsCombined(added, combined) && ShiftFor(Sum(added)) >= 0 && ws == ScaledBy(combined, ShiftFor(Sum(added)))
  }

  /** The combined weights are no more than the targets. */
  lemma CombinedSize(ws: seq<Weight>, ws': seq<Weight>)
    requires IsCombined(ws, ws')
    ensures |ws'| <= |Targets(ws)|
  {
    DistinctSize(ws');
    forall t | t in Targets(ws')
      ensures t in Targets(ws)
    {
      var i := TargetIndex(ws', t);
      assert HasTarget(ws', t, ws'[i].kind);
      var j :| 0 <= j < |ws| && ws[j].target == t && ws[j].kind == ws'[i].kind;
      TargetsHas(ws, j);
    }
    SubsetSize(Targets(ws'), Targets(ws));
  }

  lemma {:induction false} TargetIndex(ws: seq<Weight>, t: nat) returns (i: nat)
    requires t in Targets(ws)
    ensures i < |ws| && ws[i].target == t
    decreases |ws|
  {
    var n := |ws| - 1;
    if ws[n].target == t {
      i := n;
    } else {
      i := TargetIndex(ws[..n], t);
    }
  }

  lemma {:induction false} DistinctSize(ws: seq<Weight>)
    requires DistinctTargets(ws)
    ensures |Targets(ws)| == |ws|
    decreases |ws|
  {
    if ws != [] {
      var n := |ws| - 1;
      DistinctSize(ws[..n]);
      if ws[n].target in Targets(ws[..n]) {
        var i := TargetIndex(ws[..n], ws[n].target);
      }
    }
  }

  /** At most one overflow, and it shows. */
  lemma TotalAdds(sum: nat, total: Word, amount: nat)
    requires total == sum % MODULUS && 0 < amount < MODULUS && sum + amount < 2 * MODULUS
    ensures (total + amount) % MODULUS == (sum + amount) % MODULUS
    ensures sum + amount >= MODULUS <==> sum >= MODULUS || (total + amount) % MODULUS < total
  {
    if sum >= MODULUS {
      ModIs(sum, MODULUS, 1, sum - MODULUS);
    } else {
      ModIs(sum, MODULUS, 0, sum);
    }
    if sum + amount >= MODULUS {
      ModIs(sum + amount, MODULUS, 1, sum + amount - MODULUS);
    } else {
      ModIs(sum + amount, MODULUS, 0, sum + amount);
    }
    if total + amount >= MODULUS {
      ModIs(total + amount, MODULUS, 1, total + amount - MODULUS);
    } else {
      ModIs(total + amount, MODULUS, 0, total + amount);
    }
  }

  class DistributionOf {
    var weights: seq<Weight>
    var total: Word
    var didOverflow: bool

    /** While weights are being added. */
    ghost predicate Valid()
      reads this
    {
      && Positive(weights) && Sum(weights) < 2 * MODULUS
      && total == Sum(weights) % MODULUS && (didOverflow <==> Sum(weights) >= MODULUS)
    }

    constructor ()
      ensures Valid() && weights == []
    {
      weights, total, didOverflow := [], 0, false;
    }

    method Add(target: nat, amount: nat, kind: DistType)
      requires Valid() && 0 < amount < MODULUS && Sum(weights) + amount < 2 * MODULUS
      modifies this
      ensures Valid() && weights == old(weights) + [Weight(kind, target, amount)]
    {
      hide Sum;
      var newTotal := (total + amount) % MODULUS;
      var isOverflow := newTotal < total;
      TotalAdds(Sum(weights), total, amount);
      SumAppend(weights, Weight(kind, target, amount));
      didOverflow := didOverflow || isOverflow;
      total := newTotal;
      weights := weights + [Weight(kind, target, amount)];
    }

    /** Many weights are combined by hashing, few by sorting; `sorted` is what std::sort makes of them. */
    method CombineWeights(sorted: seq<Weight>)
      requires Combinable(weights) && SortedByTarget(sorted) && multiset(sorted) == multiset(weights)
      modifies this`weights
      ensures IsCombined(old(weights), weights)
    {
      if |weights| > 128 {
        weights := CombineWeightsByHashing(weights);
        return;
      }
      weights := CombineWeightsBySorting(weights, sorted);
    }

    /** Afterwards every target has one weight, in proportion to what was added for it, and all fit 32
        bits. */
    method Normalize(sorted: seq<Weight>)
      requires Valid() && Combinable(weights) && SortedByTarget(sorted) && multiset(sorted) == multiset(weights)
      requires Scalable(weights)
      modifies this
      ensures NormalizedFrom(old(weights), weights, total)
      ensures |weights| == 1 ==> weights[0].amount == total == 1
    {
      hide Combinable, IsCombined, Sum, SumFor, Targets, Normalized, ShiftFor, FitsShifted;
      if weights == [] {
        NothingNormalized();
        return;
      }
      if |weights| > 1 {
        CombineWeights(sorted);
      } else {
        OneCombined(weights);
      }
      ghost var combined := weights;
      CombinedFacts(old(weights), combined);
      ScaleDown();
      assert IsScaledFrom(old(weights), combined, weights);
      StillThere(combined, weights, ShiftFor(Sum(combined)));
    }

    /** The rest of normalize, once no two weights have the same target. */
    method ScaleDown()
      requires weights != [] && DistinctTargets(weights) && Positive(weights)
               && (|weights| > 1 ==> FitsShifted(weights))
      requires Sum(weights) < 2 * MODULUS && total == Sum(weights) % MODULUS
               && (didOverflow <==> Sum(weights) >= MODULUS)
      modifies this`weights, this`total
      ensures Normalized(weights, total) && 0 <= ShiftFor(Sum(old(weights)))
      ensures weights == ScaledBy(old(weights), ShiftFor(Sum(old(weights))))
      ensures |weights| == 1 ==> weights[0].amount == total == 1
    {
      hide Sum, Normalized, ShiftFor, DistinctTargets, Positive, BitLength, FitsShifted;
      ShiftLimits(Sum(weights));
      if |weights| == 1 {
        total := 1;
        weights := [weights[0].(amount := 1)];
        OneNormalized(weights);
        return;
      }
      ShiftedNormalized(weights);
      ShiftIs(Sum(weights));
      var shift := 0;
      if didOverflow {
        shift := 33;
      } else if total > UINT32_MAX {
        shift := 33 - (64 - BitLength(total));
      }
      if shift == 0 {
        ShiftNone(weights);
        return;
      }
      NormalizedTotal(ShiftAll(weights, shift), Sum(ShiftAll(weights, shift)));
      ShiftRest(weights, shift);
    }

    /** The loop that shifts all weights and adds them up again. */
    method ShiftRest(ghost combined: seq<Weight>, shift: nat)
      requires weights == combined && 0 < shift && Sum(ShiftAll(combined, shift)) <= UINT32_MAX
      modifies this`weights, this`total
      ensures weights == ShiftAll(combined, shift) && total == Sum(weights)
    {
      hide Sum, Shifted;
      total := 0;
      var i := 0;
      NoSum(ShiftAll(combined, shift));
      while i < |weights|
        invariant 0 <= i <= |weights| == |combined|
        invariant forall j ::
                    0 <= j < |weights| ==> weights[j] == if j < i then ShiftAll(combined, shift)[j] else combined[j]
        invariant total == Sum(ShiftAll(combined, shift)[..i]) <= UINT32_MAX
      {
        var amount := Shifted(weights[i].amount, shift);
        SumTake(ShiftAll(combined, shift), i);
        PartOfSum(ShiftAll(combined, shift), i + 1);
        weights := weights[i := weights[i].(amount := amount)];
        total := total + amount;
        i := i + 1;
      }
      assert weights == ShiftAll(combined, shift);
      assert ShiftAll(combined, shift)[..i] == ShiftAll(combined, shift);
    }
  }

  lemma StillThere(ws: seq<Weight>, ws': seq<Weight>, shift: nat)
    requires ws != [] && ws' == ScaledBy(ws, shift)
    ensures ws' != []
  {
  }

  lemma TotalFits(ws: seq<Weight>, total: int)
    requires Normalized(ws, total)
    ensures 0 <= total <= UINT32_MAX
  {
  }

  lemma NothingNormalized()
    ensures Normalized([], 0) && Sum([]) == 0
  {
  }

  lemma NormalizedTotal(ws: seq<Weight>, total: int)
    requires Normalized(ws, total)
    ensures total == Sum(ws) <= UINT32_MAX
  {
  }

  lemma NoSum(ws: seq<Weight>)
    ensures Sum(ws[..0]) == 0
  {
  }

  lemma {:induction false} PartOfSum(ws: seq<Weight>, i: nat)
    requires i <= |ws|
    ensures Sum(ws[..i]) <= Sum(ws)
    decreases |ws|
  {
    if i < |ws| {
      var n := |ws| - 1;
      assert ws[..n][..i] == ws[..i];
      PartOfSum(ws[..n], i);
    } else {
      assert ws[..i] == ws;
    }
  }

  lemma OneCombined(ws: seq<Weight>)
    requires |ws| == 1 && Positive(ws)
    ensures IsCombined(ws, ws)
  {
  }

  lemma OneNormalized(ws: seq<Weight>)
    requires |ws| == 1 && ws[0].amount == 1
    ensures Normalized(ws, 1)
  {
    assert ws[..0] == [];
  }

  lemma CombinedFacts(ws: seq<Weight>, ws': seq<Weight>)
    requires IsCombined(ws, ws')
    ensures DistinctTargets(ws') && Positive(ws') && Sum(ws') == Sum(ws) && |ws'| <= |Targets(ws)|
            && (ws != [] ==> ws' != [])
  {
    if ws != [] {
      assert HasTarget(ws, ws[0].target, ws[0].kind);
      assert HasTarget(ws', ws[0].target, ws[0].kind);
    }
    CombinedSize(ws, ws');
  }

  // ---------------------------------------------------------------- dithering

  class DitheringDistributer {
    var remWeight: U32
    var remMass: Word

    /** Normalises the distribution first; `sorted` is what std::sort makes of its weights. */
    constructor (dist: DistributionOf, mass: Word, sorted: seq<Weight>)
      requires dist.Valid() && Combinable(dist.weights) && SortedByTarget(sorted)
               && multiset(sorted) == multiset(dist.weights)
      requires Scalable(dist.weights)
      modifies dist
      ensures NormalizedFrom(old(dist.weights), dist.weights, dist.total)
      ensures remWeight == dist.total && remMass == mass
    {
      remWeight, remMass := 0, mass;
      new;
      dist.Normalize(sorted);
      TotalFits(dist.weights, dist.total);
      remWeight := dist.total;
    }

    /** The share of this weight in what is left, rounded down. */
    method TakeMass(weight: U32) returns (mass: Word)
      requires 0 < weight <= remWeight
      modifies this
      ensures mass == Portion(old(remMass), weight, old(remWeight)) <= old(remMass)
      ensures remWeight == old(remWeight) - weight && remMass == old(remMass) - mass
    {
      ScaledIsFloor(remMass, weight, remWeight);
      MassPositive(remMass, weight, remWeight);
      mass := Scale(remMass, weight, remWeight);
      remWeight := remWeight - weight;
      MassArithmetic(remMass, mass);
      remMass := SubMass(remMass, mass);
    }
  }

  function Portion(mass: int, weight: int, remWeight: int): int
    requires remWeight > 0
  {
    mass * weight / remWeight
  }

  lemma MassPositive(mass: Word, weight: U32, remWeight: U32)
    requires remWeight > 0
    ensures mass * weight / remWeight >= 0
  {
    MulMono(0, mass, weight);
    DivAtLeast(mass * weight, remWeight, 0);
  }

  ghost predicate Shares(ws: seq<Weight>, total: int) {
    total == Sum(ws) <= UINT32_MAX && forall i :: 0 <= i < |ws| ==> ws[i].amount > 0
  }

  /** What the weights get one after the other. */
  function Portions(ws: seq<Weight>, total: int, mass: Word): (ps: seq<int>)
    requires Shares(ws, total)
    ensures |ps| == |ws|
    decreases |ws|
  {
    if ws == [] then []
    else
      FirstShare(ws, total, mass);
      var p := Portion(mass, ws[0].amount, total);
      [p] + Portions(ws[1..], total - ws[0].amount, mass - p)
  }

  lemma {:induction false} SumFirst(ws: seq<Weight>)
    requires ws != []
    ensures Sum(ws) == ws[0].amount + Sum(ws[1..])
    decreases |ws|
  {
    assert [] + [ws[0]] + ws[1..] == ws && [] + ws[1..] == ws[1..];
    SumMiddle([], ws[0], ws[1..]);
  }

  lemma FirstShare(ws: seq<Weight>, total: int, mass: Word)
    requires Shares(ws, total) && ws != []
    ensures 0 < ws[0].amount <= total && Shares(ws[1..], total - ws[0].amount)
    ensures 0 <= Portion(mass, ws[0].amount, total) <= mass
  {
    SumFirst(ws);
    ScaledIsFloor(mass, ws[0].amount, total);
    MassPositive(mass, ws[0].amount, total);
  }

  function SumOf(ps: seq<int>): int {
    if ps == [] then 0 else ps[0] + SumOf(ps[1..])
  }

  /** Nothing is lost: the last weight takes all that is left. */
  lemma {:induction false} PortionsConserve(ws: seq<Weight>, total: int, mass: Word)
    requires Shares(ws, total) && ws != []
    ensures SumOf(Portions(ws, total, mass)) == mass
    decreases |ws|
  {
    hide Sum;
    FirstShare(ws, total, mass);
    SumFirst(ws);
    var p := Portion(mass, ws[0].amount, total);
    var rest := Portions(ws[1..], total - ws[0].amount, mass - p);
    assert Portions(ws, total, mass)[1..] == rest;
    if |ws| == 1 {
      assert ws[1..] == [] && rest == [];
      NoWeight();
      DivIs(mass * total, total, mass, 0);
    } else {
      PortionsConserve(ws[1..], total - ws[0].amount, mass - p);
    }
  }

  lemma NoWeight()
    ensures Sum([]) == 0
  {
  }

  /** How far what is left may be from its exact share, after k portions of `mass0` over `total0`. */
  ghost predicate NearShare(mass0: int, total0: int, mass: int, total: int, k: int) {
    mass0 * total <= mass * total0 <= mass0 * total + k * total0
  }

  lemma NextNear(mass0: int, total0: int, mass: int, total: int, k: int, w: int)
    requires NearShare(mass0, total0, mass, total, k) && 0 < w <= total <= total0 && k >= 0
    ensures NearShare(mass0, total0, mass - Portion(mass, w, total), total - w, k + 1)
  {
    var p := Portion(mass, w, total);
    var m, t := mass - p, total - w;
    DivMod(mass * w, total);
    assert p * total <= mass * w < p * total + total;
    assert m * total >= mass * t && m * total <= mass * t + total by {
      assert m * total == mass * total - p * total;
      assert mass * t == mass * total - mass * w;
    }
    Left(mass0, total0, mass, total, m, t);
    Right(mass0, total0, mass, total, m, t, k);
  }

  lemma Left(mass0: int, total0: int, mass: int, total: int, m: int, t: int)
    requires mass0 * total <= mass * total0 && m * total >= mass * t && 0 <= t && 0 < total && 0 < total0
    ensures mass0 * t <= m * total0
  {
    MulMono(mass0 * total, mass * total0, t);
    MulMono(mass * t, m * total, total0);
    assert mass0 * t * total == mass0 * total * t;
    assert mass * total0 * t == mass * t * total0;
    assert m * total * total0 == m * total0 * total;
    Cancel(mass0 * t, m * total0, total);
  }

  lemma Right(mass0: int, total0: int, mass: int, total: int, m: int, t: int, k: int)
    requires mass * total0 <= mass0 * total + k * total0 && m * total <= mass * t + total && 0 <= t <= total
             && 0 < total && 0 < total0 && k >= 0
    ensures m * total0 <= mass0 * t + (k + 1) * total0
  {
    MulMono(m * total, mass * t + total, total0);
    MulMono(mass * total0, mass0 * total + k * total0, t);
    MulMono(t, total, k * total0);
    Dist(mass * t, total, total0);
    Swap(mass, t, total0);
    Dist(mass0 * total, k * total0, t);
    Swap(mass0, total, t);
    Dist(k, 1, total0);
    Dist(mass0 * t, k * total0 + total0, total);
    Dist(k * total0, total0, total);
    Swap(m, total, total0);
    Cancel(m * total0, mass0 * t + (k + 1) * total0, total);
  }

  lemma Cancel(a: int, b: int, d: int)
    requires d > 0 && a * d <= b * d
    ensures a <= b
  {
    if a > b {
      MulMono(b + 1, a, d);
    }
  }

  /** A portion is less than one below its exact share, and at most k above. */
  lemma ShareBounds(mass0: int, total0: int, mass: int, total: int, k: int, w: int)
    requires NearShare(mass0, total0, mass, total, k) && 0 < w <= total <= total0 && k >= 0
    ensures var p := Portion(mass, w, total);
            mass0 * w - total0 < p * total0 <= mass0 * w + k * total0
  {
    var p := Portion(mass, w, total);
    DivMod(mass * w, total);
    Left(mass0, total0, mass, total, p + 1, w);
    LeftStrict(mass0, total0, mass, total, p + 1, w);
    Upper(mass0, total0, mass, total, p, w, k);
  }

  lemma LeftStrict(mass0: int, total0: int, mass: int, total: int, m: int, t: int)
    requires mass0 * total <= mass * total0 && m * total > mass * t && 0 <= t && 0 < total && 0 < total0
    ensures mass0 * t < m * total0
  {
    MulMono(mass0 * total, mass * total0, t);
    MulMono(mass * t + 1, m * total, total0);
    assert mass0 * t * total == mass0 * total * t;
    assert mass * total0 * t == mass * t * total0;
    assert (mass * t + 1) * total0 == mass * t * total0 + total0;
    assert m * total * total0 == m * total0 * total;
    if m * total0 <= mass0 * t {
      MulMono(m * total0, mass0 * t, total);
    }
  }

  lemma Upper(mass0: int, total0: int, mass: int, total: int, p: int, w: int, k: int)
    requires mass * total0 <= mass0 * total + k * total0 && p * total <= mass * w && 0 <= w <= total && 0 < total
             && 0 < total0 && k >= 0
    ensures p * total0 <= mass0 * w + k * total0
  {
    MulMono(p * total, mass * w, total0);
    MulMono(mass * total0, mass0 * total + k * total0, w);
    MulMono(w, total, k * total0);
    Swap(mass, w, total0);
    Dist(mass0 * total, k * total0, w);
    Swap(mass0, total, w);
    Dist(mass0 * w, k * total0, total);
    Swap(p, total, total0);
    Cancel(p * total0, mass0 * w + k * total0, total);
  }

  lemma {:induction false} PortionsNear(ws: seq<Weight>, total: int, mass: Word, mass0: int, total0: int, k: int,
                                        i: nat)
    requires Shares(ws, total) && i < |ws| && NearShare(mass0, total0, mass, total, k) && total <= total0 && k >= 0
    ensures mass0 * ws[i].amount - total0 < Portions(ws, total, mass)[i] * total0 <= mass0 * ws[i].amount
              + (k + i) * total0
    decreases |ws|
  {
    hide Sum, NearShare;
    FirstShare(ws, total, mass);
    var w := ws[0].amount;
    var p := Portion(mass, w, total);
    var rest := Portions(ws[1..], total - w, mass - p);
    assert Portions(ws, total, mass) == [p] + rest;
    if i == 0 {
      ShareBounds(mass0, total0, mass, total, k, w);
    } else {
      NextNear(mass0, total0, mass, total, k, w);
      PortionsNear(ws[1..], total - w, mass - p, mass0, total0, k + 1, i - 1);
    }
  }

  /** The i-th of the portions lies between its exact share minus one and its exact share plus i. */
  lemma PortionBounds(ws: seq<Weight>, total: int, mass: Word, i: nat)
    requires Shares(ws, total) && i < |ws|
    ensures mass * ws[i].amount - total < Portions(ws, total, mass)[i] * total <= mass * ws[i].amount + i * total
  {
    assert NearShare(mass, total, mass, total, 0);
    PortionsNear(ws, total, mass, mass, total, 0, i);
  }

  // ---------------------------------------------------------------- from what was added to what is handed out

  lemma HalfBit(n: nat, h: int)
    requires h > 0
    ensures n / h % 2 == if n % (2 * h) < h then 0 else 1
  {
    var q, r := n / (2 * h), n % (2 * h);
    DivMod(n, 2 * h);
    assert q * (2 * h) == 2 * q * h;
    if r < h {
      DivIs(n, h, 2 * q, r);
      ModIs(2 * q, 2, q, 0);
    } else {
      Dist(2 * q, 1, h);
      DivIs(n, h, 2 * q + 1, r - h);
      ModIs(2 * q + 1, 2, q, 1);
    }
  }

  lemma RoundedIs(n: nat, shift: nat)
    requires shift > 0
    ensures Rounded(n, shift) == n / Pow2(shift) + n / Pow2(shift - 1) % 2 && Pow2(shift) == 2 * Pow2(shift - 1)
  {
  }

  /** A shifted weight stands for the weight up to one unit of the shift. */
  lemma ShiftError(n: nat, shift: nat)
    requires n > 0 && shift > 0
    ensures n - Pow2(shift) < Shifted(n, shift) * Pow2(shift) <= n + Pow2(shift)
  {
    RoundedIs(n, shift);
    hide Pow2, Rounded;
    var h, u := Pow2(shift - 1), Pow2(shift);
    HalfBit(n, h);
    DivMod(n, u);
    DivAtLeast(n, u, 0);
    Dist(n / u, 1, u);
    var r := Rounded(n, shift);
    assert r == n / u || r == n / u + 1;
    if r < 1 {
      assert Shifted(n, shift) * u == u;
    } else {
      assert Shifted(n, shift) * u == r * u;
    }
  }

  lemma ShiftedFrom(added: seq<Weight>, combined: seq<Weight>, ws: seq<Weight>, i: nat)
    requires IsScaledFrom(added, combined, ws) && i < |ws| && |ws| > 1
    ensures i < |combined| && 0 <= ShiftFor(Sum(added)) && 0 < SumFor(added, ws[i].target)
    ensures ws[i].amount == Shifted(SumFor(added, ws[i].target), ShiftFor(Sum(added)))
    ensures ShiftFor(Sum(added)) == 0 ==> ws == combined
  {
    hide Shifted, Sum, SumFor, ShiftFor;
    SumForOnly(combined, i);
    if ShiftFor(Sum(added)) == 0 { ShiftNone(combined); }
  }

  /** The total of shifted weights stands for the sum up to one unit for each weight. */
  lemma {:induction false} ShiftedTotal(ws: seq<Weight>, shift: nat)
    requires Positive(ws) && shift > 0
    ensures var unit := Pow2(shift);
            Sum(ws) - |ws| * unit <= Sum(ShiftAll(ws, shift)) * unit <= Sum(ws) + |ws| * unit
    decreases |ws|
  {
    hide Pow2, Shifted;
    if ws != [] {
      var n := |ws| - 1;
      ShiftedTotal(ws[..n], shift);
      ShiftError(ws[n].amount, shift);
      assert ShiftAll(ws, shift)[..n] == ShiftAll(ws[..n], shift);
      Dist(Sum(ShiftAll(ws[..n], shift)), Shifted(ws[n].amount, shift), Pow2(shift));
      Dist(n, 1, Pow2(shift));
    }
  }

  /** From the share in shifted weights a of a total t to the share in the weights w of a sum. */
  lemma ShareOfSum(p: int, mass: int, a: int, t: int, w: int, sum: int, unit: int, n: int, i: int)
    requires 0 <= p <= mass && 0 < unit && 0 <= n && 0 <= i
    requires mass * a - t < p * t <= mass * a + i * t
    requires w - unit <= a * unit <= w + unit && sum - n * unit <= t * unit <= sum + n * unit
    ensures mass * w - mass * ((n + 1) * unit) - (sum + n * unit) <= p * sum
    ensures p * sum <= mass * w + mass * ((n + 1) * unit) + i * (sum + n * unit)
  {
    var tu, au, nu := t * unit, a * unit, n * unit;
    InUnits(p, mass, a, t, unit, i);
    ShareBelow(p, mass, tu, au, w, sum, unit, nu);
    ShareAbove(p, mass, tu, au, w, sum, unit, nu, i);
    Dist(n, 1, unit);
  }

  lemma ShareBelow(p: int, mass: int, tu: int, au: int, w: int, sum: int, unit: int, nu: int)
    requires 0 <= p <= mass && nu >= 0 && mass * au - tu <= p * tu && w - unit <= au && tu <= sum + nu
    ensures mass * w - mass * (nu + unit) - (sum + nu) <= p * sum
  {
    MulMono(tu, sum + nu, p);
    MulMono(w - unit, au, mass);
    MulMono(p, mass, nu);
    assert p * (sum + nu) == p * sum + p * nu;
    assert mass * (w - unit) == mass * w - mass * unit;
    assert mass * (nu + unit) == mass * nu + mass * unit;
  }

  lemma ShareAbove(p: int, mass: int, tu: int, au: int, w: int, sum: int, unit: int, nu: int, i: int)
    requires 0 <= p <= mass && nu >= 0 && i >= 0 && p * tu <= mass * au + i * tu && au <= w + unit
             && sum - nu <= tu <= sum + nu
    ensures p * sum <= mass * w + mass * (nu + unit) + i * (sum + nu)
  {
    MulMono(sum - nu, tu, p);
    MulMono(au, w + unit, mass);
    MulMono(tu, sum + nu, i);
    MulMono(p, mass, nu);
    assert p * (sum - nu) == p * sum - p * nu;
    assert mass * (w + unit) == mass * w + mass * unit;
    assert mass * (nu + unit) == mass * nu + mass * unit;
  }

  lemma InUnits(p: int, mass: int, a: int, t: int, unit: int, i: int)
    requires 0 < unit && mass * a - t < p * t <= mass * a + i * t
    ensures mass * (a * unit) - t * unit <= p * (t * unit) <= mass * (a * unit) + i * (t * unit)
  {
    MulMono(p * t, mass * a + i * t, unit);
    Dist(mass * a, i * t, unit);
    MulMono(mass * a - t, p * t, unit);
    Dist(mass * a - t, t, unit);
    Assoc(p, t, unit);
    Assoc(mass, a, unit);
    Assoc(i, t, unit);
  }

  lemma Assoc(a: int, b: int, c: int)
    ensures a * (b * c) == a * b * c
  {
  }

  /** The portion of a target compared with its exact share of what was added: a single target takes
      everything; a sum of 32 bits is shared exactly up to the dithering; otherwise every weight and the
      total are right up to units of the shift, and so is the portion. */
  lemma PortionOfAdded(added: seq<Weight>, ws: seq<Weight>, total: int, mass: Word, i: nat)
    requires NormalizedFrom(added, ws, total) && i < |ws| && Sum(added) < 2 * MODULUS
    ensures Shares(ws, total)
    ensures |ws| == 1 ==> Portions(ws, total, mass)[i] == mass
    ensures |ws| > 1 && Sum(added) <= UINT32_MAX ==>
              var share := mass * SumFor(added, ws[i].target);
              total == Sum(added) && share - total < Portions(ws, total, mass)[i] * total <= share + i * total
    ensures |ws| > 1 && Sum(added) > UINT32_MAX ==>
              && ShiftFor(Sum(added)) > 0
              && var share, sum, unit := mass * SumFor(added, ws[i].target), Sum(added), Pow2(ShiftFor(Sum(added)));
                 var off, slack := mass * ((|ws| + 1) * unit), sum + |ws| * unit;
                 share - off - slack <= Portions(ws, total, mass)[i] * sum <= share + off + i * slack
  {
    hide Sum, SumFor, Pow2, Shifted, ShiftFor, IsCombined, ScaledBy, Portions;
    NormalizedShares(ws, total);
    var combined: seq<Weight> :| IsScaledFrom(added, combined, ws);
    ShiftLimits(Sum(added));
    if |ws| == 1 {
      PortionsConserve(ws, total, mass);
      OnePortion(Portions(ws, total, mass));
    } else {
      ShiftedFrom(added, combined, ws, i);
      PortionBounds(ws, total, mass, i);
      if Sum(added) <= UINT32_MAX {
        UnshiftedIs(SumFor(added, ws[i].target));
        SameSum(added, combined);
      } else {
        var shift := ShiftFor(Sum(added));
        ShiftError(SumFor(added, ws[i].target), shift);
        ScaledTotal(added, combined, ws, total);
        PortionWithin(ws, total, mass, i);
        ShareOfSum(Portions(ws, total, mass)[i], mass, ws[i].amount, total, SumFor(added, ws[i].target), Sum(added),
          Pow2(shift), |ws|, i);
      }
    }
  }

  lemma ScaledTotal(added: seq<Weight>, combined: seq<Weight>, ws: seq<Weight>, total: int)
    requires IsScaledFrom(added, combined, ws) && |ws| > 1 && total == Sum(ws) && ShiftFor(Sum(added)) > 0
    ensures var unit := Pow2(ShiftFor(Sum(added)));
            Sum(added) - |ws| * unit <= total * unit <= Sum(added) + |ws| * unit
  {
    hide Sum, Pow2, ShiftFor, Shifted;
    SameSum(added, combined);
    CombinedFacts(added, combined);
    ShiftedTotal(combined, ShiftFor(Sum(added)));
  }

  /** A portion is part of the mass. */
  lemma {:induction false} PortionWithin(ws: seq<Weight>, total: int, mass: Word, i: nat)
    requires Shares(ws, total) && i < |ws|
    ensures 0 <= Portions(ws, total, mass)[i] <= mass
    decreases |ws|
  {
    hide Sum, Portion;
    FirstShare(ws, total, mass);
    var p := Portion(mass, ws[0].amount, total);
    assert Portions(ws, total, mass) == [p] + Portions(ws[1..], total - ws[0].amount, mass - p);
    if i > 0 {
      PortionWithin(ws[1..], total - ws[0].amount, mass - p, i - 1);
    }
  }

  lemma OnePortion(ps: seq<int>)
    requires |ps| == 1
    ensures SumOf(ps) == ps[0]
  {
    assert ps[1..] == [];
  }

  lemma UnshiftedIs(n: nat)
    ensures Shifted(n, 0) == n
  {
  }

  lemma SameSum(ws: seq<Weight>, ws': seq<Weight>)
    requires IsCombined(ws, ws')
    ensures Sum(ws') == Sum(ws)
  {
  }

  // ---------------------------------------------------------------- distributeMass

  type Exits = seq<(nat, Word)>

  /** The masses of the blocks, and of the loop that is being processed. */
  datatype Masses = Masses(working: map<nat, Word>, backedge: Word, exits: Exits)

  function ExitSum(exits: Exits): int {
    if exits == [] then 0 else ExitSum(exits[..|exits| - 1]) + exits[|exits| - 1].1
  }

  ghost function MassOf(m: Masses): nat -> nat {
    t => if t in m.working then m.working[t] else 0
  }

  /** All mass there is. */
  ghost function Held(m: Masses): int {
    Total(m.working.Keys, MassOf(m)) + m.backedge + ExitSum(m.exits)
  }

  /** One portion goes to its target. */
  function Give(m: Masses, w: Weight, taken: Word): Masses
    requires w.kind == Local ==> w.target in m.working
  {
    match w.kind
    case Local => m.(working := m.working[w.target := AddMass(m.working[w.target], taken)])
    case Backedge => m.(backedge := AddMass(m.backedge, taken))
    case Exit => m.(exits := m.exits + [(w.target, taken)])
  }

  ghost predicate TargetsKnown(m: Masses, ws: seq<Weight>) {
    forall i :: 0 <= i < |ws| && ws[i].kind == Local ==> ws[i].target in m.working
  }

  /** No sum can saturate while `mass` is handed out. */
  ghost predicate HasRoom(m: Masses, mass: int) {
    (forall t :: t in m.working ==> m.working[t] + mass <= UINT64_MAX) && m.backedge + mass <= UINT64_MAX
  }

  lemma GiveKeeps(m: Masses, w: Weight, taken: Word, mass: Word)
    requires (w.kind == Local ==> w.target in m.working) && HasRoom(m, mass) && taken <= mass
    ensures Held(Give(m, w, taken)) == Held(m) + taken && HasRoom(Give(m, w, taken), mass - taken)
  {
    match w.kind
    case Local =>
      MassArithmetic(m.working[w.target], taken);
      var m' := Give(m, w, taken);
      assert m'.working.Keys == m.working.Keys;
      TotalChanges(m.working.Keys, MassOf(m), MassOf(m'), w.target);
    case Backedge => MassArithmetic(m.backedge, taken);
    case Exit =>
      assert (m.exits + [(w.target, taken)])[..|m.exits|] == m.exits;
  }

  lemma GiveKnown(m: Masses, w: Weight, taken: Word, ws: seq<Weight>)
    requires (w.kind == Local ==> w.target in m.working) && TargetsKnown(m, ws)
    ensures TargetsKnown(Give(m, w, taken), ws)
  {
  }

  class BlockFrequencyInfo {
    var working: map<nat, Word>
    var backedge: Word
    var exits: Exits

    ghost function Now(): Masses
      reads this
    {
      Masses(working, backedge, exits)
    }

    /** Adds a portion where its weight says. */
    method Assign(w: Weight, taken: Word)
      requires w.kind == Local ==> w.target in working
      modifies this
      ensures Now() == Give(old(Now()), w, taken)
    {
      if w.kind == Local {
        working := working[w.target := AddMass(working[w.target], taken)];
        return;
      }
      if w.kind == Backedge {
        backedge := AddMass(backedge, taken);
        return;
      }
      exits := exits + [(w.target, taken)];
    }

    /** Hands out `mass` along what was added to a distribution: each target gets its portion, up to the
        largest mass there is, and nothing is lost if no sum has to be cut off there. */
    method DistributeMass(mass: Word, dist: DistributionOf, sorted: seq<Weight>) returns (ghost portions: seq<int>)
      requires dist.Valid() && Combinable(dist.weights) && SortedByTarget(sorted)
               && multiset(sorted) == multiset(dist.weights)
      requires Scalable(dist.weights) && TargetsKnown(Now(), dist.weights)
      modifies this, dist
      ensures NormalizedFrom(old(dist.weights), dist.weights, dist.total)
      ensures HasRoom(old(Now()), mass) ==>
                Held(Now()) == old(Held(Now())) + if old(dist.weights) == [] then 0 else mass
      ensures Shares(dist.weights, dist.total) && portions == Portions(dist.weights, dist.total, mass)
      ensures |portions| == |dist.weights| && Given(old(Now()), Now(), dist.weights, portions)
    {
      hide Held, Sum, HasRoom, Given, Normalized, Combinable, Scalable, DistributionOf.Valid, IsScaledFrom, Shares,
           TargetsKnown;
      var d := new DitheringDistributer(dist, mass, sorted);
      KnownStays(Now(), old(dist.weights), dist.weights, dist.total);
      NormalizedShares(dist.weights, dist.total);
      portions := HandOut(d, dist.weights, dist.total);
      if dist.weights == [] {
        NoPortions(dist.total, mass);
      } else {
        PortionsConserve(dist.weights, dist.total, mass);
      }
    }

    /** The loop over the weights. */
    method HandOut(d: DitheringDistributer, weights: seq<Weight>, ghost total: U32) returns (ghost portions: seq<int>)
      requires Shares(weights, total) && d.remWeight == total && TargetsKnown(Now(), weights)
      modifies this, d
      ensures portions == Portions(weights, total, old(d.remMass))
      ensures HasRoom(old(Now()), old(d.remMass)) ==> Held(Now()) == old(Held(Now())) + SumOf(portions)
      ensures |portions| == |weights| && Given(old(Now()), Now(), weights, portions)
    {
      hide Held, Sum, Give, Shares, HasRoom, Portion, Given, Normalized, TargetsKnown, SumOf;
      portions := [];
      var i := 0;
      assert weights[0..] == weights;
      GivenNothing(Now(), weights);
      NoneHandedOut();
      while i < |weights|
        invariant 0 <= i <= |weights| && |portions| == i && Shares(weights[i..], d.remWeight)
        invariant TargetsKnown(Now(), weights)
        invariant HasRoom(old(Now()), old(d.remMass)) ==>
                    HasRoom(Now(), d.remMass) && Held(Now()) == old(Held(Now())) + SumOf(portions)
        invariant portions + Portions(weights[i..], d.remWeight, d.remMass) == Portions(weights, total, old(d.remMass))
        invariant Given(old(Now()), Now(), weights[..i], portions)
      {
        ghost var before, left, remWeight := Now(), d.remMass, d.remWeight;
        assert weights[i..][0] == weights[i] && weights[i..][1..] == weights[i + 1..];
        var taken := HandOne(d, weights, i);
        GivenMore(old(Now()), before, Now(), weights[..i], portions, weights[i], taken);
        assert weights[..i + 1] == weights[..i] + [weights[i]];
        SumOfMore(portions, taken);
        assert Portions(weights[i..], remWeight, left) == [taken] + Portions(weights[i + 1..], d.remWeight, d.remMass);
        portions := portions + [taken];
        i := i + 1;
      }
      assert weights[i..] == [] && weights[..i] == weights;
      assert Portions(weights[i..], d.remWeight, d.remMass) == [];
    }

    /** One weight takes its portion. */
    method HandOne(d: DitheringDistributer, weights: seq<Weight>, i: nat) returns (taken: Word)
      requires i < |weights| && Shares(weights[i..], d.remWeight) && TargetsKnown(Now(), weights)
      modifies this, d
      ensures weights[i..] != [] && weights[i..][0] == weights[i] && weights[i..][1..] == weights[i + 1..]
      ensures Shares(weights[i + 1..], d.remWeight) && TargetsKnown(Now(), weights)
      ensures old(d.remWeight) > 0 && taken == Portion(old(d.remMass), weights[i].amount, old(d.remWeight))
      ensures d.remWeight == old(d.remWeight) - weights[i].amount && d.remMass == old(d.remMass) - taken
      ensures HasRoom(old(Now()), old(d.remMass)) ==>
                HasRoom(Now(), d.remMass) && Held(Now()) == old(Held(Now())) + taken
      ensures (weights[i].kind == Local ==> weights[i].target in old(working))
              && Now() == Give(old(Now()), weights[i], taken)
    {
      hide Held, Sum, Give, Shares, HasRoom, Portion;
      var w := weights[i];
      ghost var left := d.remMass;
      FirstShare(weights[i..], d.remWeight, d.remMass);
      SmallWeight(weights[i..], d.remWeight);
      taken := d.TakeMass(w.amount);
      if HasRoom(Now(), left) {
        GiveKeeps(Now(), w, taken, left);
      }
      GiveKnown(Now(), w, taken, weights);
      Assign(w, taken);
    }
  }

  /** Normalising adds no target and changes no kind. */
  lemma KnownStays(m: Masses, added: seq<Weight>, ws: seq<Weight>, total: int)
    requires TargetsKnown(m, added) && NormalizedFrom(added, ws, total)
    ensures TargetsKnown(m, ws)
  {
    if added != [] {
      var combined: seq<Weight> :| IsScaledFrom(added, combined, ws);
      forall i | 0 <= i < |ws| && ws[i].kind == Local
        ensures ws[i].target in m.working
      {
        assert combined[i].target == ws[i].target && combined[i].kind == Local;
        assert HasTarget(combined, ws[i].target, Local);
        assert HasTarget(added, ws[i].target, Local);
      }
    }
  }

  lemma NoPortions(total: int, mass: Word)
    requires Shares([], total)
    ensures Portions([], total, mass) == []
  {
  }

  lemma NoneHandedOut()
    ensures SumOf([]) == 0
  {
  }

  lemma {:induction false} SumOfMore(ps: seq<int>, p: int)
    ensures SumOf(ps + [p]) == SumOf(ps) + p
    decreases |ps|
  {
    if ps == [] {
      assert ps + [p] == [p] && [p][1..] == [];
    } else {
      assert (ps + [p])[1..] == ps[1..] + [p];
      SumOfMore(ps[1..], p);
    }
  }

  function Full(mass: int): int {
    if mass > UINT64_MAX then UINT64_MAX else mass
  }

  /** Where the portions have gone: a block has got the portions of its weight, the back edges together
      theirs, at most the largest mass there is, and the exits are listed in order. */
  ghost predicate Given(m0: Masses, m: Masses, ws: seq<Weight>, ps: seq<int>)
    requires |ps| == |ws|
  {
    && m.working.Keys == m0.working.Keys
    && (forall t :: t in m0.working ==> m.working[t] == Full(m0.working[t] + GivenTo(ws, ps, t)))
    && m.backedge == Full(m0.backedge + GivenBack(ws, ps))
    && m.exits == m0.exits + GivenOut(ws, ps)
  }

  function GivenTo(ws: seq<Weight>, ps: seq<int>, t: nat): int
    requires |ps| == |ws|
  {
    if ws == [] then 0
    else
      var n := |ws| - 1;
      GivenTo(ws[..n], ps[..n], t) + if ws[n].kind == Local && ws[n].target == t then ps[n] else 0
  }

  function GivenBack(ws: seq<Weight>, ps: seq<int>): int
    requires |ps| == |ws|
  {
    if ws == [] then 0
    else
      var n := |ws| - 1;
      GivenBack(ws[..n], ps[..n]) + if ws[n].kind == Backedge then ps[n] else 0
  }

  function GivenOut(ws: seq<Weight>, ps: seq<int>): seq<(nat, int)>
    requires |ps| == |ws|
  {
    if ws == [] then []
    else
      var n := |ws| - 1;
      GivenOut(ws[..n], ps[..n]) + if ws[n].kind == Exit then [(ws[n].target, ps[n])] else []
  }

  lemma GivenNothing(m: Masses, ws: seq<Weight>)
    ensures Given(m, m, ws[..0], [])
  {
  }

  lemma GivenMore(m0: Masses, m: Masses, m': Masses, ws: seq<Weight>, ps: seq<int>, w: Weight, taken: Word)
    requires |ps| == |ws| && Given(m0, m, ws, ps) && (w.kind == Local ==> w.target in m.working)
             && m' == Give(m, w, taken)
    ensures Given(m0, m', ws + [w], ps + [taken])
  {
    assert (ws + [w])[..|ws|] == ws && (ps + [taken])[..|ps|] == ps;
    match w.kind
    case Local => MassArithmetic(m.working[w.target], taken);
    case Backedge => MassArithmetic(m.backedge, taken);
    case Exit =>
  }

  lemma NormalizedShares(ws: seq<Weight>, total: int)
    requires Normalized(ws, total)
    ensures Shares(ws, total)
  {
  }

  lemma SmallWeight(ws: seq<Weight>, total: int)
    requires Shares(ws, total) && ws != []
    ensures 0 < ws[0].amount <= total <= UINT32_MAX
  {
    MemberAtMostSum(ws, 0);
  }
}
