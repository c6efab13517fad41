// CostModel.cpp: shuffles and additions that are recognised as a reduction do reduce the vector.
module CostModel {
  import opened MachineIntegers
  import opened Options

  type Opcode(==, 0, !new)

  /** A vector: anything, an operation on two vectors, or a shuffle; a mask entry of -1 is undef. */
  datatype Vector =
    | Opaque(id: int, width: nat)
    | BinOp(id: int, opcode: Opcode, left: Vector, right: Vector)
    | Shuffle(id: int, src: Vector, second: Vector, mask: seq<int>)

  function Width(v: Vector): nat {
    match v
    case Opaque(_, w) => w
    case BinOp(_, _, l, _) => Width(l)
    case Shuffle(_, _, _, mask) => |mask|
  }

  predicate WellTyped(v: Vector) {
    match v
    case Opaque(_, _) => true
    case BinOp(_, _, l, r) => WellTyped(l) && WellTyped(r) && Width(l) == Width(r)
    case Shuffle(_, s, t, _) => WellTyped(s) && WellTyped(t) && Width(s) == Width(t)
  }

  /** What the operations compute, and the lanes of the vectors that are given. */
  datatype Machine<!E> = Machine(op: (Opcode, E, E) -> E, given: (int, int) -> E)

  ghost predicate Abelian<E(!new)>(m: Machine<E>, o: Opcode) {
    && (forall x: E, y: E, z: E {:trigger m.op(o, m.op(o, x, y), z)} {:trigger m.op(o, x, m.op(o, y, z))} ::
          m.op(o, m.op(o, x, y), z) == m.op(o, x, m.op(o, y, z)))
    && (forall x: E, y: E {:trigger m.op(o, x, y)} :: m.op(o, x, y) == m.op(o, y, x))
  }

  function Apply<E>(m: Machine<E>, o: Opcode, a: Option<E>, b: Option<E>): Option<E> {
    if a.Some? && b.Some? then Some(m.op(o, a.value, b.value)) else None
  }

  /** The value in a lane; None is undef. */
  function Lane<E>(m: Machine<E>, v: Vector, i: int): Option<E> {
    match v
    case Opaque(id, w) => if 0 <= i < w then Some(m.given(id, i)) else None
    case BinOp(_, o, l, r) => Apply(m, o, Lane(m, l, i), Lane(m, r, i))
    case Shuffle(_, s, t, mask) =>
      if 0 <= i < |mask| && mask[i] >= 0 then
        if mask[i] < Width(s) then Lane(m, s, mask[i]) else Lane(m, t, mask[i] - Width(s))
      else None
  }

  // ---------------------------------------------------------------- folds

  /** The fold of n lanes. */
  function Fold<E>(m: Machine<E>, o: Opcode, v: Vector, start: int, n: nat): Option<E>
    requires n > 0
  {
    if n == 1 then Lane(m, v, start) else Apply(m, o, Fold(m, o, v, start, n - 1), Lane(m, v, start + n - 1))
  }

  /** The fold of all lanes. */
  function FoldAll<E>(m: Machine<E>, o: Opcode, v: Vector): Option<E>
    requires Width(v) > 0
  {
    Fold(m, o, v, 0, Width(v))
  }

  lemma ApplyAssoc<E(!new)>(m: Machine<E>, o: Opcode, a: Option<E>, b: Option<E>, c: Option<E>)
    requires Abelian(m, o)
    ensures Apply(m, o, Apply(m, o, a, b), c) == Apply(m, o, a, Apply(m, o, b, c))
    ensures Apply(m, o, a, b) == Apply(m, o, b, a)
  {
  }

  /** Two neighbouring stretches. */
  lemma {:induction false} FoldJoins<E(!new)>(m: Machine<E>, o: Opcode, v: Vector, start: int, a: nat, b: nat)
    requires Abelian(m, o) && a > 0 && b > 0
    ensures Fold(m, o, v, start, a + b) == Apply(m, o, Fold(m, o, v, start, a), Fold(m, o, v, start + a, b))
    decreases b
  {
    hide Lane, Apply, Abelian;
    if b > 1 {
      FoldJoins(m, o, v, start, a, b - 1);
      ApplyAssoc(m, o, Fold(m, o, v, start, a), Fold(m, o, v, start + a, b - 1), Lane(m, v, start + a + b - 1));
    }
  }

  lemma Rearrange<E(!new)>(m: Machine<E>, o: Opcode, e: Option<E>, d: Option<E>, x: Option<E>, y: Option<E>)
    requires Abelian(m, o)
    ensures Apply(m, o, Apply(m, o, Apply(m, o, e, d), x), y) == Apply(m, o, Apply(m, o, e, x), Apply(m, o, d, y))
  {
    hide Apply, Abelian;
    ApplyAssoc(m, o, e, d, x);
    ApplyAssoc(m, o, d, x, x);
    ApplyAssoc(m, o, e, x, d);
    ApplyAssoc(m, o, Apply(m, o, e, x), d, y);
  }

  /** None of the first n lanes is undef. */
  ghost predicate AllDefined<E>(m: Machine<E>, v: Vector, n: nat) {
    forall i :: 0 <= i < n ==> Lane(m, v, i).Some?
  }

  lemma {:induction false} FoldDefined<E>(m: Machine<E>, o: Opcode, v: Vector, n: nat)
    requires n > 0 && AllDefined(m, v, n)
    ensures Fold(m, o, v, 0, n).Some?
    decreases n
  {
    hide Lane;
    assert Lane(m, v, n - 1).Some?;
    if n > 1 {
      FoldDefined(m, o, v, n - 1);
    }
  }

  // ---------------------------------------------------------------- the pairwise matcher

  /** 0, 2, 4, ... on the left or 1, 3, 5, ... on the right, for 2^level lanes. */
  function PairMask(width: nat, isLeft: bool, level: nat): seq<int> {
    seq(width, i requires 0 <= i < width => if i < Pow2(level) then 2 * i + (if isLeft then 0 else 1) else -1)
  }

  /** The mask is filled in for 2^level lanes, so there must be as many. */
  predicate MatchPairwiseShuffleMask(s: Option<Vector>, isLeft: bool, level: nat)
    requires s.Some? ==> s.value.Shuffle?
  {
    if s.None? then level == 0 && isLeft
    else Pow2(level) <= |s.value.mask| && s.value.mask == PairMask(|s.value.mask|, isLeft, level)
  }

  function AsShuffle(v: Vector): (s: Option<Vector>)
    ensures s.Some? ==> s.value == v && v.Shuffle?
  {
    if v.Shuffle? then Some(v) else None
  }

  /** The vector that both operands are shuffled from, if they agree on one. */
  function NextLevelOp(b: Vector, level: nat): Option<Vector>
    requires b.BinOp?
  {
    if b.left.Shuffle? && b.right.Shuffle? then
      (if b.left.src == b.right.src then Some(b.left.src) else None)
    else if level != 0 then None
    else if b.left.Shuffle? then (if b.left.src == b.right then Some(b.right) else None)
    else if b.right.Shuffle? then (if b.right.src == b.left then Some(b.left) else None)
    else None
  }

  predicate MasksMatch(b: Vector, level: nat)
    requires b.BinOp?
  {
    var ls, rs := AsShuffle(b.left), AsShuffle(b.right);
    if MatchPairwiseShuffleMask(ls, true, level) then MatchPairwiseShuffleMask(rs, false, level)
    else MatchPairwiseShuffleMask(rs, true, level) && MatchPairwiseShuffleMask(ls, false, level)
  }

  predicate MatchPairwiseReductionAtLevel(b: Vector, level: nat, numLevels: nat)
    requires b.BinOp?
    decreases b
  {
    var next := NextLevelOp(b, level);
    && next.Some?
    && (level + 1 != numLevels ==> next.value.BinOp? && next.value.opcode == b.opcode)
    && MasksMatch(b, level)
    && (level + 1 == numLevels
       || (NextIsPart(b, level); next.value.BinOp? && MatchPairwiseReductionAtLevel(next.value, level + 1, numLevels)))
  }

  lemma NextIsPart(b: Vector, level: nat)
    requires b.BinOp? && NextLevelOp(b, level).Some?
    ensures NextLevelOp(b, level).value < b
  {
  }

  /** The vector at the bottom of the tree. */
  function Innermost(b: Vector, level: nat, numLevels: nat): Vector
    requires b.BinOp? && MatchPairwiseReductionAtLevel(b, level, numLevels)
    decreases b
  {
    var next := NextLevelOp(b, level).value;
    if level + 1 == numLevels then next else NextIsPart(b, level); Innermost(next, level + 1, numLevels)
  }

  /** One level: a lane is the sum of two neighbouring lanes of the next level. */
  lemma LevelAdds<E(!new)>(m: Machine<E>, b: Vector, level: nat, j: int)
    requires b.BinOp? && NextLevelOp(b, level).Some? && MasksMatch(b, level) && WellTyped(b) && Abelian(m, b.opcode)
    requires Width(NextLevelOp(b, level).value) >= 2 * Pow2(level) && 0 <= j < Pow2(level)
    ensures var next := NextLevelOp(b, level).value;
            Lane(m, b, j) == Apply(m, b.opcode, Lane(m, next, 2 * j), Lane(m, next, 2 * j + 1))
  {
    hide Abelian, Apply;
    var next := NextLevelOp(b, level).value;
    var x, y := Lane(m, next, 2 * j), Lane(m, next, 2 * j + 1);
    ApplyAssoc(m, b.opcode, x, y, y);
    if b.left.Shuffle? && b.right.Shuffle? {
      assert b.left.mask[j] == 2 * j || b.left.mask[j] == 2 * j + 1;
    } else {
      assert Pow2(0) == 1 && j == 0;
    }
  }

  /** One level of a match. */
  lemma LevelFacts(b: Vector, level: nat, numLevels: nat)
    requires b.BinOp? && MatchPairwiseReductionAtLevel(b, level, numLevels) && WellTyped(b)
    ensures NextLevelOp(b, level).Some? && MasksMatch(b, level) && WellTyped(NextLevelOp(b, level).value)
    ensures var next := NextLevelOp(b, level).value;
            if level + 1 == numLevels then Innermost(b, level, numLevels) == next
            else
              && next.BinOp? && next.opcode == b.opcode && MatchPairwiseReductionAtLevel(next, level + 1, numLevels)
              && Innermost(b, level, numLevels) == Innermost(next, level + 1, numLevels) && next < b
                 && Width(next) >= 2 * Pow2(level)
  {
    NextIsPart(b, level);
    NextTyped(b, level);
    if level + 1 != numLevels {
      MatchedWidth(NextLevelOp(b, level).value, level + 1);
    }
    hide MasksMatch, NextLevelOp, WellTyped, Width;
  }

  /** What matches at a level has room for the lanes of the level. */
  lemma MatchedWidth(b: Vector, level: nat)
    requires b.BinOp? && NextLevelOp(b, level).Some? && MasksMatch(b, level) && WellTyped(b) && level > 0
    ensures Width(b) >= Pow2(level)
  {
  }

  lemma NextTyped(b: Vector, level: nat)
    requires b.BinOp? && WellTyped(b) && NextLevelOp(b, level).Some?
    ensures WellTyped(NextLevelOp(b, level).value)
  {
  }

  lemma Stretches(j: int, n: int)
    ensures 2 * j * n == j * (2 * n) && (2 * j + 1) * n == j * (2 * n) + n
  {
  }

  /** A lane of a level is the fold of a stretch of the innermost vector. */
  lemma {:induction false} PairwiseFolds<E(!new)>(m: Machine<E>, b: Vector, level: nat, numLevels: nat, j: int)
    requires b.BinOp? && MatchPairwiseReductionAtLevel(b, level, numLevels) && level < numLevels && WellTyped(b)
    requires Width(Innermost(b, level, numLevels)) >= Pow2(numLevels) && Abelian(m, b.opcode) && 0 <= j < Pow2(level)
    ensures var n := Pow2(numLevels - level);
            Lane(m, b, j) == Fold(m, b.opcode, Innermost(b, level, numLevels), j * n, n)
    decreases b
  {
    hide Abelian, Apply, Lane, MatchPairwiseReductionAtLevel, Innermost, WellTyped, NextLevelOp, MasksMatch, Width,
         Fold;
    LevelFacts(b, level, numLevels);
    var next := NextLevelOp(b, level).value;
    var v := Innermost(b, level, numLevels);
    LevelAdds(m, b, level, j);
    if level + 1 == numLevels {
      assert Pow2(numLevels - level) == 2 by { assert Pow2(1) == 2; }
      FoldTwo(m, b.opcode, v, j * 2);
    } else {
      var n := Pow2(numLevels - level - 1);
      PairwiseFolds(m, next, level + 1, numLevels, 2 * j);
      PairwiseFolds(m, next, level + 1, numLevels, 2 * j + 1);
      Stretches(j, n);
      FoldJoins(m, b.opcode, v, j * (2 * n), n, n);
    }
  }

  lemma FoldTwo<E>(m: Machine<E>, o: Opcode, v: Vector, start: int)
    ensures Fold(m, o, v, start, 2) == Apply(m, o, Lane(m, v, start), Lane(m, v, start + 1))
  {
    hide Lane, Apply;
    assert Fold(m, o, v, start, 1) == Lane(m, v, start);
  }

  function Log2(n: nat): nat {
    if n <= 1 then 0 else 1 + Log2(n / 2)
  }

  predicate IsPowerOf2(n: nat) {
    n > 0 && Pow2(Log2(n)) == n
  }

  /** matchPairwiseReduction, for the extract of a lane of v. */
  predicate MatchPairwiseReduction(v: Vector, lane: Option<nat>) {
    lane == Some(0) && v.BinOp? && IsPowerOf2(Width(v)) && MatchPairwiseReductionAtLevel(v, 0, Log2(Width(v)))
  }

  function PairwiseInnermost(v: Vector): Vector
    requires MatchPairwiseReduction(v, Some(0))
  {
    Innermost(v, 0, Log2(Width(v)))
  }

  /** A match with an innermost vector of the same width reduces all its lanes, and reads no undef. */
  lemma PairwiseReduces<E(!new)>(m: Machine<E>, v: Vector)
    requires MatchPairwiseReduction(v, Some(0)) && Width(v) >= 2 && WellTyped(v) && Abelian(m, v.opcode)
    requires Width(PairwiseInnermost(v)) >= Width(v)
    ensures Lane(m, v, 0) == Fold(m, v.opcode, PairwiseInnermost(v), 0, Width(v))
    ensures Width(PairwiseInnermost(v)) == Width(v) ==> Lane(m, v, 0) == FoldAll(m, v.opcode, PairwiseInnermost(v))
    ensures AllDefined(m, PairwiseInnermost(v), Width(v)) ==> Lane(m, v, 0).Some?
  {
    hide Lane, Abelian;
    assert Pow2(0) == 1;
    PairwiseFolds(m, v, 0, Log2(Width(v)), 0);
    if AllDefined(m, PairwiseInnermost(v), Width(v)) {
      FoldDefined(m, v.opcode, PairwiseInnermost(v), Width(v));
    }
  }

  /** The tree that adds neighbouring lanes, level by level; the shuffles may be swapped. */
  function PairTree(u: Vector, o: Opcode, level: nat, numLevels: nat, swap: bool): Vector
    requires level < numLevels
    decreases numLevels - level
  {
    var next := if level + 1 == numLevels then u else PairTree(u, o, level + 1, numLevels, swap);
    var width := Pow2(numLevels);
    BinOp(0, o, Shuffle(0, next, next, PairMask(width, !swap, level)),
      Shuffle(0, next, next, PairMask(width, swap, level)))
  }

  lemma PairMasks(b: Vector, next: Vector, width: nat, level: nat, swap: bool)
    requires b.BinOp? && b.left == Shuffle(0, next, next, PairMask(width, !swap, level))
             && b.right == Shuffle(0, next, next, PairMask(width, swap, level)) && Pow2(level) <= width
    ensures MasksMatch(b, level) && NextLevelOp(b, level) == Some(next) && Width(b) == width
    ensures WellTyped(next) ==> WellTyped(b)
  {
    if swap {
      assert PairMask(width, false, level)[0] == 1 && PairMask(width, true, level)[0] == 0;
    }
  }

  lemma {:induction false} PairTreeMatches(u: Vector, o: Opcode, level: nat, numLevels: nat, swap: bool)
    requires level < numLevels && WellTyped(u)
    ensures var v := PairTree(u, o, level, numLevels, swap);
            && v.BinOp? && v.opcode == o && WellTyped(v) && Width(v) == Pow2(numLevels)
            && MatchPairwiseReductionAtLevel(v, level, numLevels) && Innermost(v, level, numLevels) == u
    decreases numLevels - level
  {
    hide Pow2, PairMask, MasksMatch, NextLevelOp, WellTyped, Width;
    var v := PairTree(u, o, level, numLevels, swap);
    var next := if level + 1 == numLevels then u else PairTree(u, o, level + 1, numLevels, swap);
    if level + 1 < numLevels {
      PairTreeMatches(u, o, level + 1, numLevels, swap);
    }
    Pow2Grows(level, numLevels);
    PairMasks(v, next, Pow2(numLevels), level, swap);
    NextIsPart(v, level);
  }

  /** Every vector of 2^k lanes has a tree that is accepted as its reduction. */
  lemma PairTreeAccepted(u: Vector, o: Opcode, k: nat, swap: bool)
    requires k > 0 && WellTyped(u) && Width(u) == Pow2(k)
    ensures var v := PairTree(u, o, 0, k, swap);
            MatchPairwiseReduction(v, Some(0)) && PairwiseInnermost(v) == u && Width(v) == Pow2(k)
  {
    hide Pow2;
    PairTreeMatches(u, o, 0, k, swap);
    Log2OfPow2(k);
  }

  /** On the last level one operand may be used as it is: its lane 0 is in place. */
  function HalfShuffled(u: Vector, o: Opcode, k: nat, shuffleFirst: bool): Vector
    requires k > 0
  {
    var next := if k == 1 then u else PairTree(u, o, 1, k, false);
    var shuffle := Shuffle(0, next, next, PairMask(Pow2(k), false, 0));
    if shuffleFirst then BinOp(0, o, shuffle, next) else BinOp(0, o, next, shuffle)
  }

  lemma HalfShuffledAccepted(u: Vector, o: Opcode, k: nat, shuffleFirst: bool)
    requires k > 0 && WellTyped(u) && Width(u) == Pow2(k) && (k == 1 ==> !u.Shuffle?)
    ensures var v := HalfShuffled(u, o, k, shuffleFirst);
            MatchPairwiseReduction(v, Some(0)) && PairwiseInnermost(v) == u && Width(v) == Pow2(k)
  {
    var v := HalfShuffled(u, o, k, shuffleFirst);
    var next := if k == 1 then u else PairTree(u, o, 1, k, false);
    if k > 1 { PairTreeMatches(u, o, 1, k, false); }
    Log2OfPow2(k);
    HalfMasks(v, next, Pow2(k), shuffleFirst);
    NextIsPart(v, 0);
  }

  lemma HalfMasks(b: Vector, next: Vector, width: nat, shuffleFirst: bool)
    requires b.BinOp? && width > 0 && !next.Shuffle?
    requires var shuffle := Shuffle(0, next, next, PairMask(width, false, 0));
             if shuffleFirst then b.left == shuffle && b.right == next else b.left == next && b.right == shuffle
    ensures MasksMatch(b, 0) && NextLevelOp(b, 0) == Some(next)
  {
    assert Pow2(0) == 1;
    assert PairMask(width, false, 0)[0] == 1 && PairMask(width, true, 0)[0] == 0;
  }

  /** Two additions of shuffled operands. */
  function FourPairs(u: Vector, o: Opcode, a: (seq<int>, seq<int>), b: (seq<int>, seq<int>)): Vector {
    var inner := BinOp(0, o, Shuffle(0, u, u, a.0), Shuffle(0, u, u, a.1));
    BinOp(0, o, Shuffle(0, inner, inner, b.0), Shuffle(0, inner, inner, b.1))
  }

  /** One way round or the other. */
  predicate Either(p: (seq<int>, seq<int>), x: seq<int>, y: seq<int>) {
    p == (x, y) || p == (y, x)
  }

  lemma FourMasks()
    ensures PairMask(4, true, 0) == [0, -1, -1, -1] && PairMask(4, false, 0) == [1, -1, -1, -1]
    ensures PairMask(4, true, 1) == [0, 2, -1, -1] && PairMask(4, false, 1) == [1, 3, -1, -1]
  {
    assert Pow2(0) == 1 && Pow2(1) == 2;
  }

  /** Which masks are accepted for four lanes. */
  lemma FourLanesPairwise(u: Vector, o: Opcode, a: (seq<int>, seq<int>), b: (seq<int>, seq<int>))
    requires |a.0| == |a.1| == |b.0| == |b.1| == 4
    ensures MatchPairwiseReduction(FourPairs(u, o, a, b), Some(0))
            <==> Either(a, [0, 2, -1, -1], [1, 3, -1, -1]) && Either(b, [0, -1, -1, -1], [1, -1, -1, -1])
  {
    FourMasks();
    assert Pow2(0) == 1 && Pow2(1) == 2 && Pow2(2) == 4 && Log2(4) == 2;
    var v := FourPairs(u, o, a, b);
    hide PairMask, Pow2;
    var inner := BinOp(0, o, Shuffle(0, u, u, a.0), Shuffle(0, u, u, a.1));
    assert Width(v) == 4 && IsPowerOf2(4);
    assert NextLevelOp(v, 0) == Some(inner) && NextLevelOp(inner, 1) == Some(u);
    assert MasksMatch(v, 0) <==> Either(b, [0, -1, -1, -1], [1, -1, -1, -1]);
    assert MasksMatch(inner, 1) <==> Either(a, [0, 2, -1, -1], [1, 3, -1, -1]);
    assert MatchPairwiseReductionAtLevel(inner, 1, 2) <==> MasksMatch(inner, 1);
    assert MatchPairwiseReductionAtLevel(v, 0, 2) <==> MasksMatch(v, 0) && MatchPairwiseReductionAtLevel(inner, 1, 2);
  }

  // ---------------------------------------------------------------- widths

  /** Every operation adds and every lane that is given is 1: lanes count what has been added up. */
  function Counting(): Machine<int> {
    Machine((o, x, y) => x + y, (id, i) => 1)
  }

  lemma CountingAdds(o: Opcode, a: Option<int>, b: Option<int>)
    ensures Abelian(Counting(), o)
    ensures Apply(Counting(), o, a, b) == if a.Some? && b.Some? then Some(a.value + b.value) else None
  {
  }

  ghost predicate AtLeast(a: Option<int>, n: int) {
    a.Some? ==> a.value >= n
  }

  lemma {:induction false} LanesCount(v: Vector, i: int)
    ensures AtLeast(Lane(Counting(), v, i), 1)
    decreases v
  {
    match v
    case Opaque(_, _) =>
    case BinOp(_, o, l, r) =>
      LanesCount(l, i);
      LanesCount(r, i);
      CountingAdds(o, Lane(Counting(), l, i), Lane(Counting(), r, i));
    case Shuffle(_, s, t, mask) =>
      if 0 <= i < |mask| && mask[i] >= 0 {
        if mask[i] < Width(s) { LanesCount(s, mask[i]); } else { LanesCount(t, mask[i] - Width(s)); }
      }
  }

  /** What a lane counts for; a lane that u does not have would come from elsewhere and counts at least 1. */
  function Count(u: Vector, k: int): int {
    if 0 <= k < Width(u) && Lane(Counting(), u, k).Some? then Lane(Counting(), u, k).value else 1
  }

  function CountSum(u: Vector, start: int, n: nat): int {
    if n == 0 then 0 else CountSum(u, start, n - 1) + Count(u, start + n - 1)
  }

  lemma {:induction false} CountSumJoins(u: Vector, start: int, a: nat, b: nat)
    ensures CountSum(u, start, a + b) == CountSum(u, start, a) + CountSum(u, start + a, b)
    decreases b
  {
    if b > 0 {
      CountSumJoins(u, start, a, b - 1);
    }
  }

  lemma {:induction false} CountSumGrows(u: Vector, n: nat, more: nat)
    ensures CountSum(u, 0, n + more) >= CountSum(u, 0, n) + more
    decreases more
  {
    hide Lane, Width;
    if more > 0 {
      CountSumGrows(u, n, more - 1);
      LanesCount(u, n + more - 1);
    }
  }

  lemma {:induction false} DefinedCounts(u: Vector, o: Opcode, n: nat)
    requires 0 < n <= Width(u) && AllDefined(Counting(), u, n)
    ensures Fold(Counting(), o, u, 0, n) == Some(CountSum(u, 0, n))
    decreases n
  {
    hide Lane, Width;
    assert Lane(Counting(), u, n - 1).Some?;
    if n > 1 {
      DefinedCounts(u, o, n - 1);
      CountingAdds(o, Some(CountSum(u, 0, n - 1)), Lane(Counting(), u, n - 1));
    } else {
      assert CountSum(u, 0, 0) == 0;
    }
  }

  lemma DirectCounts(u: Vector, k: int)
    ensures AtLeast(Lane(Counting(), u, k), Count(u, k))
  {
    hide Lane, Width;
    LanesCount(u, k);
  }

  lemma ShuffledCounts(s: Vector, j: int)
    requires s.Shuffle? && 0 <= j < |s.mask| && s.mask[j] >= 0
    ensures AtLeast(Lane(Counting(), s, j), Count(s.src, s.mask[j]))
  {
    if s.mask[j] < Width(s.src) {
      DirectCounts(s.src, s.mask[j]);
    } else {
      LanesCount(s.second, s.mask[j] - Width(s.src));
    }
  }

  /** Two shuffles take neighbouring lanes. */
  lemma PairEntries(b: Vector, level: nat, j: int)
    requires b.BinOp? && b.left.Shuffle? && b.right.Shuffle? && MasksMatch(b, level) && 0 <= j < Pow2(level)
    ensures j < |b.left.mask| && j < |b.right.mask|
    ensures (b.left.mask[j] == 2 * j && b.right.mask[j] == 2 * j + 1)
            || (b.left.mask[j] == 2 * j + 1 && b.right.mask[j] == 2 * j)
  {
  }

  /** One operand is the vector itself: at the first level, where the other takes lane 1. */
  lemma SingleEntry(b: Vector, level: nat)
    requires b.BinOp? && NextLevelOp(b, level).Some? && MasksMatch(b, level) && !(b.left.Shuffle? && b.right.Shuffle?)
    ensures Pow2(level) == 1
    ensures b.left.Shuffle? ==> b.right == b.left.src && |b.left.mask| > 0 && b.left.mask[0] == 1
    ensures b.right.Shuffle? ==> b.left == b.right.src && |b.right.mask| > 0 && b.right.mask[0] == 1
    ensures b.left.Shuffle? || b.right.Shuffle?
  {
    assert Pow2(0) == 1;
  }

  /** A lane of the last level. */
  lemma LastCounts(b: Vector, level: nat, j: int)
    requires b.BinOp? && NextLevelOp(b, level).Some? && MasksMatch(b, level) && 0 <= j < Pow2(level)
    ensures AtLeast(Lane(Counting(), b, j), Count(NextLevelOp(b, level).value, 2 * j)
              + Count(NextLevelOp(b, level).value, 2 * j + 1))
  {
    hide Count, AtLeast, MasksMatch, Abelian;
    var u := NextLevelOp(b, level).value;
    var x, y := Lane(Counting(), b.left, j), Lane(Counting(), b.right, j);
    CountingAdds(b.opcode, x, y);
    if b.left.Shuffle? && b.right.Shuffle? {
      PairEntries(b, level, j);
      ShuffledCounts(b.left, j);
      ShuffledCounts(b.right, j);
      BothAtLeast(x, y, Lane(Counting(), b, j), Count(u, b.left.mask[j]), Count(u, b.right.mask[j]));
    } else {
      SingleEntry(b, level);
      DirectCounts(u, 0);
      if b.left.Shuffle? { ShuffledCounts(b.left, j); } else { ShuffledCounts(b.right, j); }
      BothAtLeast(x, y, Lane(Counting(), b, j), Count(u, if b.left.Shuffle? then 1 else 0),
        Count(u, if b.left.Shuffle? then 0 else 1));
    }
  }

  /** A lane counts at least what its stretch of the innermost vector counts, as wide as that may be. */
  lemma {:induction false} PairwiseCounts(b: Vector, level: nat, numLevels: nat, j: int)
    requires b.BinOp? && MatchPairwiseReductionAtLevel(b, level, numLevels) && level < numLevels && WellTyped(b)
             && 0 <= j < Pow2(level)
    ensures var n := Pow2(numLevels - level);
            AtLeast(Lane(Counting(), b, j), CountSum(Innermost(b, level, numLevels), j * n, n))
    decreases b
  {
    hide MatchPairwiseReductionAtLevel, Innermost, NextLevelOp, MasksMatch, WellTyped, Width, Lane, AtLeast, Abelian,
         Count;
    LevelFacts(b, level, numLevels);
    var u := Innermost(b, level, numLevels);
    if level + 1 == numLevels {
      LastCounts(b, level, j);
      assert Pow2(numLevels - level) == 2 by { assert Pow2(1) == 2; }
      assert CountSum(u, j * 2, 1) == CountSum(u, j * 2, 0) + Count(u, j * 2);
    } else {
      var next := NextLevelOp(b, level).value;
      var n := Pow2(numLevels - level - 1);
      PairwiseCounts(next, level + 1, numLevels, 2 * j);
      PairwiseCounts(next, level + 1, numLevels, 2 * j + 1);
      Stretches(j, n);
      CountSumJoins(u, j * (2 * n), n, n);
      var x, y := Lane(Counting(), next, 2 * j), Lane(Counting(), next, 2 * j + 1);
      CountingAdds(b.opcode, x, y);
      LevelAdds(Counting(), b, level, j);
      BothAtLeast(x, y, Lane(Counting(), b, j), CountSum(u, 2 * j * n, n), CountSum(u, (2 * j + 1) * n, n));
    }
  }

  lemma BothAtLeast(x: Option<int>, y: Option<int>, z: Option<int>, a: int, b: int)
    requires AtLeast(x, a) && AtLeast(y, b) && z == if x.Some? && y.Some? then Some(x.value + y.value) else None
    ensures AtLeast(z, a + b)
  {
  }

  lemma {:induction false} OpaqueCounts(u: Vector, o: Opcode, n: nat)
    requires u.Opaque? && 0 < n <= u.width
    ensures Fold(Counting(), o, u, 0, n) == Some(n)
    decreases n
  {
    if n > 1 {
      OpaqueCounts(u, o, n - 1);
      CountingAdds(o, Some(n - 1), Some(1));
    }
  }

  /** If no lane of the innermost vector is undef: lane 0 is the fold of all its lanes, for every associative
      and commutative operation, exactly if that vector is as wide as the result. */
  lemma PairwiseReducesIff(v: Vector)
    requires MatchPairwiseReduction(v, Some(0)) && Width(v) >= 2 && WellTyped(v)
    requires Width(PairwiseInnermost(v)) > 0
             && AllDefined(Counting(), PairwiseInnermost(v), Width(PairwiseInnermost(v)))
    ensures var u := PairwiseInnermost(v);
            (forall m: Machine<int> {:trigger FoldAll(m, v.opcode, u)} ::
                Abelian(m, v.opcode) ==> Lane(m, v, 0) == FoldAll(m, v.opcode, u))
            <==> Width(u) == Width(v)
  {
    hide Lane, Fold, MatchPairwiseReductionAtLevel, Innermost, WellTyped, Width, CountSum;
    var u := PairwiseInnermost(v);
    if Width(u) == Width(v) {
      forall m: Machine<int> | Abelian(m, v.opcode)
        ensures Lane(m, v, 0) == FoldAll(m, v.opcode, u)
      {
        PairwiseReduces(m, v);
      }
    } else {
      CountingAdds(v.opcode, None, None);
      DefinedCounts(u, v.opcode, Width(u));
      if Width(u) > Width(v) {
        PairwiseReduces(Counting(), v);
        DefinedCounts(u, v.opcode, Width(v));
        CountSumGrows(u, Width(v), Width(u) - Width(v));
      } else {
        assert Pow2(0) == 1;
        PairwiseCounts(v, 0, Log2(Width(v)), 0);
        CountSumGrows(u, Width(u), Width(v) - Width(u));
      }
      assert Lane(Counting(), v, 0) != FoldAll(Counting(), v.opcode, u);
    }
  }

  /** The widths are not compared: a match on two lanes of a vector of four leaves two lanes out. */
  lemma WiderInnermost(o: Opcode)
    ensures var u := Opaque(1, 4);
            var v := BinOp(2, o, Shuffle(3, u, u, [0, -1]), Shuffle(4, u, u, [1, -1]));
            && WellTyped(v) && MatchPairwiseReduction(v, Some(0)) && PairwiseInnermost(v) == u && Width(v) == 2
            && Lane(Counting(), v, 0) == Some(2) && FoldAll(Counting(), o, u) == Some(4)
  {
    var u := Opaque(1, 4);
    var v := BinOp(2, o, Shuffle(3, u, u, [0, -1]), Shuffle(4, u, u, [1, -1]));
    assert Pow2(0) == 1 && Pow2(1) == 2 && Log2(2) == 1;
    assert PairMask(2, true, 0) == [0, -1] && PairMask(2, false, 0) == [1, -1];
    OpaqueCounts(u, o, 4);
    assert MatchPairwiseReductionAtLevel(v, 0, 1);
    assert Lane(Counting(), v.left, 0) == Some(1) && Lane(Counting(), v.right, 0) == Some(1);
  }

  /** A narrower one: two of the four lanes that are added up are undef. */
  lemma NarrowerInnermost(o: Opcode)
    ensures var u := Opaque(1, 2);
            var undef := Shuffle(5, u, u, [-1, -1]);
            var b := BinOp(2, o, Shuffle(3, u, undef, [0, 2, -1, -1]), Shuffle(4, u, undef, [1, 3, -1, -1]));
            var v := BinOp(6, o, Shuffle(7, b, b, [0, -1, -1, -1]), Shuffle(8, b, b, [1, -1, -1, -1]));
            && WellTyped(v) && MatchPairwiseReduction(v, Some(0)) && PairwiseInnermost(v) == u && Width(v) == 4
            && AllDefined(Counting(), u, 2) && Lane(Counting(), v, 0) == None && FoldAll(Counting(), o, u) == Some(2)
  {
    var u := Opaque(1, 2);
    var undef := Shuffle(5, u, u, [-1, -1]);
    var b := BinOp(2, o, Shuffle(3, u, undef, [0, 2, -1, -1]), Shuffle(4, u, undef, [1, 3, -1, -1]));
    var v := BinOp(6, o, Shuffle(7, b, b, [0, -1, -1, -1]), Shuffle(8, b, b, [1, -1, -1, -1]));
    assert Pow2(0) == 1 && Pow2(1) == 2 && Pow2(2) == 4 && Log2(4) == 2;
    assert PairMask(4, true, 0) == [0, -1, -1, -1] && PairMask(4, false, 0) == [1, -1, -1, -1];
    assert PairMask(4, true, 1) == [0, 2, -1, -1] && PairMask(4, false, 1) == [1, 3, -1, -1];
    OpaqueCounts(u, o, 2);
    assert WellTyped(undef) && Width(undef) == 2;
    assert WellTyped(b.left) && WellTyped(b.right) && Width(b.left) == Width(b.right) == 4;
    assert WellTyped(b) && Width(b) == 4;
    assert WellTyped(v.left) && WellTyped(v.right);
    assert MatchPairwiseReductionAtLevel(b, 1, 2);
    assert MatchPairwiseReductionAtLevel(v, 0, 2);
    var m := Counting();
    assert Lane(m, undef, 0) == None;
    assert Lane(m, b.left, 1) == None;
    assert Lane(m, b, 1) == None;
    assert Lane(m, v.right, 0) == Lane(m, b, 1);
    assert Lane(m, v, 0) == None;
    assert Innermost(b, 1, 2) == u;
    assert PairwiseInnermost(v) == u;
  }

  // ---------------------------------------------------------------- the splitting matcher

  /** m, m + 1, ..., 2m - 1 and then undef. */
  function SplitMask(width: nat, maskStart: nat): seq<int> {
    seq(width, j requires 0 <= j < width => if j < maskStart then maskStart + j else -1)
  }

  /** getShuffleAndOtherOprd. */
  function ShuffleAndOther(b: Vector): (Vector, Option<Vector>)
    requires b.BinOp?
  {
    if b.left.Shuffle? then (b.right, Some(b.left)) else (b.left, AsShuffle(b.right))
  }

  /** One step: the operation adds the upper half of what is left to the lower half. */
  predicate SplitsAt(b: Vector, o: Opcode, maskStart: nat, width: nat) {
    && b.BinOp? && b.opcode == o
    && var (next, s) := ShuffleAndOther(b);
       s.Some? && s.value.Shuffle? && s.value.src == next && s.value.mask == SplitMask(width, maskStart)
  }

  /** What the loop accepts: log(width) steps, each on the vector that the one before added to itself. */
  predicate SplitChain(b: Vector, o: Opcode, maskStart: nat, remain: nat, width: nat)
    decreases remain
  {
    remain <= 1
      || (SplitsAt(b, o, maskStart, width) && SplitChain(ShuffleAndOther(b).0, o, 2 * maskStart, remain / 2, width))
  }

  /** The vector at the end of the chain. */
  function SplitInnermost(b: Vector, o: Opcode, maskStart: nat, remain: nat, width: nat): Vector
    requires SplitChain(b, o, maskStart, remain, width)
    decreases remain
  {
    if remain <= 1 then b else SplitInnermost(ShuffleAndOther(b).0, o, 2 * maskStart, remain / 2, width)
  }

  predicate MatchVectorSplitting(v: Vector, lane: Option<nat>) {
    lane == Some(0) && v.BinOp? && IsPowerOf2(Width(v)) && SplitChain(v, v.opcode, 1, Width(v), Width(v))
  }

  /** A lane below maskStart is the sum of two lanes of the next vector. */
  lemma SplitAdds<E(!new)>(m: Machine<E>, b: Vector, o: Opcode, maskStart: nat, width: nat, j: int)
    requires SplitsAt(b, o, maskStart, width) && WellTyped(b) && Width(b) == width && 2 * maskStart <= width
             && 0 <= j < maskStart
    requires Abelian(m, o)
    ensures var next := ShuffleAndOther(b).0;
            Lane(m, b, j) == Apply(m, o, Lane(m, next, j), Lane(m, next, j + maskStart)) && WellTyped(next)
              && Width(next) == width
  {
    hide Abelian, Apply;
    var (next, s) := ShuffleAndOther(b);
    ApplyAssoc(m, o, Lane(m, next, j), Lane(m, next, j + maskStart), None);
    assert s.value.mask[j] == maskStart + j;
  }

  /** From lanes 0 .. n - 1 of a sum to what was added. */
  lemma {:induction false} SplitFold<E(!new)>(m: Machine<E>, b: Vector, o: Opcode, maskStart: nat, width: nat, n: nat)
    requires b.BinOp? && SplitsAt(b, o, maskStart, width) && WellTyped(b) && Width(b) == width && 2 * maskStart <= width
             && 0 < n <= maskStart
    requires Abelian(m, o)
    ensures var next := ShuffleAndOther(b).0;
            Fold(m, o, b, 0, n) == Apply(m, o, Fold(m, o, next, 0, n), Fold(m, o, next, maskStart, n))
    decreases n
  {
    hide Abelian, Apply, Lane, SplitsAt, WellTyped, Width, ShuffleAndOther;
    var next := ShuffleAndOther(b).0;
    SplitAdds(m, b, o, maskStart, width, n - 1);
    if n > 1 {
      SplitFold(m, b, o, maskStart, width, n - 1);
      Rearrange(m, o, Fold(m, o, next, 0, n - 1), Fold(m, o, next, maskStart, n - 1),
                Lane(m, next, n - 1), Lane(m, next, n - 1 + maskStart));
      assert Fold(m, o, b, 0, n) == Apply(m, o, Fold(m, o, b, 0, n - 1), Lane(m, b, n - 1));
      ApplyAssoc(m, o, Apply(m, o, Fold(m, o, next, 0, n - 1), Fold(m, o, next, maskStart, n - 1)),
                 Lane(m, next, n - 1), Lane(m, next, n - 1 + maskStart));
    }
  }

  /** The fold of the lanes that are left at a step is the fold of all lanes at the end of the chain. */
  lemma {:induction false} SplitFolds<E(!new)>(m: Machine<E>, b: Vector, o: Opcode, maskStart: nat, remain: nat,
                                        width: nat, k: nat)
    requires SplitChain(b, o, maskStart, remain, width) && WellTyped(b) && Width(b) == width && Abelian(m, o)
    requires remain == Pow2(k) && maskStart > 0 && maskStart * remain == width
    ensures var u := SplitInnermost(b, o, maskStart, remain, width);
            Width(u) == width && Fold(m, o, b, 0, maskStart) == FoldAll(m, o, u)
    decreases remain
  {
    hide Abelian, Apply, Lane, WellTyped, Width, ShuffleAndOther, Fold, SplitsAt, SplitMask;
    if remain > 1 {
      Halves(maskStart, remain, width, k);
      SplitIsBinOp(b, o, maskStart, width);
      var next := ShuffleAndOther(b).0;
      SplitAdds(m, b, o, maskStart, width, 0);
      SplitFolds(m, next, o, 2 * maskStart, remain / 2, width, k - 1);
      SplitFold(m, b, o, maskStart, width, maskStart);
      FoldJoins(m, o, next, 0, maskStart, maskStart);
    }
  }

  lemma SplitIsBinOp(b: Vector, o: Opcode, maskStart: nat, width: nat)
    requires SplitsAt(b, o, maskStart, width)
    ensures b.BinOp?
  {
  }

  /** If the matcher accepts, lane 0 is the fold of all lanes of the vector at the end of the chain, for every
      operation that is associative and commutative; no undef lane is read. */
  lemma SplittingReduces<E(!new)>(m: Machine<E>, v: Vector)
    requires MatchVectorSplitting(v, Some(0)) && WellTyped(v) && Abelian(m, v.opcode)
    ensures var u := SplitInnermost(v, v.opcode, 1, Width(v), Width(v));
            && Width(u) == Width(v) && Lane(m, v, 0) == FoldAll(m, v.opcode, u)
            && (AllDefined(m, u, Width(u)) ==> Lane(m, v, 0).Some?)
  {
    hide Abelian, Lane, SplitChain;
    SplitFolds(m, v, v.opcode, 1, Width(v), Width(v), Log2(Width(v)));
    var u := SplitInnermost(v, v.opcode, 1, Width(v), Width(v));
    if AllDefined(m, u, Width(u)) {
      FoldDefined(m, v.opcode, u, Width(u));
    }
  }

  /** The tree that adds the upper half of what is left to the lower half, k times; the shuffle may be either
      operand. */
  function SplitTree(u: Vector, o: Opcode, maskStart: nat, k: nat, width: nat, shuffleFirst: bool): Vector
    decreases k
  {
    if k == 0 then u
    else
      var next := SplitTree(u, o, 2 * maskStart, k - 1, width, shuffleFirst);
      var shuffle := Shuffle(0, next, next, SplitMask(width, maskStart));
      if shuffleFirst then BinOp(0, o, shuffle, next) else BinOp(0, o, next, shuffle)
  }

  lemma {:induction false} SplitTreeMatches(u: Vector, o: Opcode, maskStart: nat, k: nat, width: nat,
                                            shuffleFirst: bool)
    requires WellTyped(u) && Width(u) == width && (shuffleFirst || !u.Shuffle?)
    ensures var v := SplitTree(u, o, maskStart, k, width, shuffleFirst);
            && WellTyped(v) && Width(v) == width && (shuffleFirst || !v.Shuffle?)
            && SplitChain(v, o, maskStart, Pow2(k), width)
            && SplitInnermost(v, o, maskStart, Pow2(k), width) == u
    decreases k
  {
    if k > 0 {
      SplitTreeMatches(u, o, 2 * maskStart, k - 1, width, shuffleFirst);
      var v := SplitTree(u, o, maskStart, k, width, shuffleFirst);
      assert Pow2(k) == 2 * Pow2(k - 1) && Pow2(k) / 2 == Pow2(k - 1);
      hide SplitChain, SplitMask, Pow2;
      assert SplitsAt(v, o, maskStart, width);
      ChainGoesOn(v, o, maskStart, Pow2(k), width);
    }
  }

  lemma ChainGoesOn(b: Vector, o: Opcode, maskStart: nat, remain: nat, width: nat)
    requires b.BinOp? && remain > 1 && SplitsAt(b, o, maskStart, width)
             && SplitChain(ShuffleAndOther(b).0, o, 2 * maskStart, remain / 2, width)
    ensures SplitChain(b, o, maskStart, remain, width)
    ensures SplitInnermost(b, o, maskStart, remain, width)
            == SplitInnermost(ShuffleAndOther(b).0, o, 2 * maskStart, remain / 2, width)
  {
  }

  /** Every vector of 2^k lanes has a tree that is accepted as its reduction. */
  lemma SplitTreeAccepted(u: Vector, o: Opcode, k: nat, shuffleFirst: bool)
    requires k > 0 && WellTyped(u) && Width(u) == Pow2(k) && (shuffleFirst || !u.Shuffle?)
    ensures var v := SplitTree(u, o, 1, k, Pow2(k), shuffleFirst);
            MatchVectorSplitting(v, Some(0)) && SplitInnermost(v, v.opcode, 1, Width(v), Width(v)) == u
  {
    SplitTreeMatches(u, o, 1, k, Pow2(k), shuffleFirst);
    Log2OfPow2(k);
  }

  lemma {:induction false} Log2OfPow2(k: nat)
    ensures Log2(Pow2(k)) == k && IsPowerOf2(Pow2(k))
    decreases k
  {
    if k > 0 {
      Log2OfPow2(k - 1);
      assert Pow2(k) / 2 == Pow2(k - 1);
    }
  }

  function FourSplit(u: Vector, o: Opcode, first: seq<int>, second: seq<int>): Vector {
    var inner := BinOp(0, o, u, Shuffle(0, u, u, first));
    BinOp(0, o, inner, Shuffle(0, inner, inner, second))
  }

  /** Which masks are accepted for four lanes. */
  lemma FourLanesSplitting(u: Vector, o: Opcode, first: seq<int>, second: seq<int>)
    requires Width(u) == 4 && !u.Shuffle?
    ensures MatchVectorSplitting(FourSplit(u, o, first, second), Some(0))
            <==> first == [2, 3, -1, -1] && second == [1, -1, -1, -1]
  {
    assert Pow2(2) == 4 && Log2(4) == 2;
    assert SplitMask(4, 1) == [1, -1, -1, -1] && SplitMask(4, 2) == [2, 3, -1, -1];
    var v := FourSplit(u, o, first, second);
    hide SplitMask;
    var inner := BinOp(0, o, u, Shuffle(0, u, u, first));
    assert Width(inner) == 4 && Width(v) == 4 && IsPowerOf2(4);
    assert ShuffleAndOther(v).0 == inner && ShuffleAndOther(inner).0 == u;
    assert SplitsAt(v, o, 1, 4) <==> second == [1, -1, -1, -1];
    assert SplitsAt(inner, o, 2, 4) <==> first == [2, 3, -1, -1];
    assert SplitChain(u, o, 4, 1, 4);
    assert SplitChain(inner, o, 2, 2, 4) <==> SplitsAt(inner, o, 2, 4);
    assert SplitChain(v, o, 1, 4, 4) <==> SplitsAt(v, o, 1, 4) && SplitChain(inner, o, 2, 2, 4);
  }

  /** matchVectorSplittingReduction. */
  method MatchVectorSplittingReduction(v: Vector, lane: Option<nat>) returns (r: bool)
    requires WellTyped(v)
    ensures r <==> MatchVectorSplitting(v, lane)
  {
    if lane != Some(0) || !v.BinOp? {
      return false;
    }
    var opcode := v.opcode;
    var width := Width(v);
    if !IsPowerOf2(width) {
      return false;
    }
    var maskStart := 1;
    var rdxOp := v;
    var shuffleMask := seq(width, _ => 0);
    var remain := width;
    ghost var k := Log2(width);
    while remain - 1 != 0
      invariant maskStart > 0 && remain > 0 && maskStart * remain == width && remain == Pow2(k)
                && |shuffleMask| == width
      invariant SplitChain(rdxOp, opcode, maskStart, remain, width) <==> SplitChain(v, opcode, 1, width, width)
      decreases remain
    {
      if !rdxOp.BinOp? || rdxOp.opcode != opcode {
        return false;
      }
      var (next, shuffle) := ShuffleAndOther(rdxOp);
      if shuffle.None? || shuffle.value.src != next {
        return false;
      }
      Halves(maskStart, remain, width, k);
      var j := 0;
      while j != maskStart
        invariant 0 <= j <= maskStart && |shuffleMask| == width
        invariant forall i :: 0 <= i < j ==> shuffleMask[i] == maskStart + i
      {
        shuffleMask := shuffleMask[j := maskStart + j];
        j := j + 1;
      }
      shuffleMask := shuffleMask[..maskStart] + seq(width - maskStart, _ => -1);
      assert shuffleMask == SplitMask(width, maskStart);
      if shuffleMask != shuffle.value.mask {
        return false;
      }
      rdxOp := next;
      remain := remain / 2;
      maskStart := maskStart * 2;
      k := k - 1;
    }
    r := true;
  }

  lemma Halves(maskStart: nat, remain: nat, width: nat, k: nat)
    requires maskStart * remain == width && remain == Pow2(k) && remain > 1
    ensures k > 0 && remain / 2 == Pow2(k - 1) && maskStart * 2 * (remain / 2) == width && 2 * maskStart <= width
    ensures 2 * maskStart * (remain / 2) == width
  {
    assert remain == 2 * (remain / 2);
    assert maskStart * 2 * (remain / 2) == maskStart * (2 * (remain / 2));
    assert maskStart * remain >= maskStart * 2;
  }
}
