// What is found for an edge or a block is the best bound: if the range operations involved lose nothing,
// neither does the step.
module LazyValueBest {
  import opened MachineIntegers
  import opened LatticeValues
  import opened Options
  import opened LazyValueProgram
  import opened LazyValueSolve

  // ---------------------------------------------------------------- what a terminator tests

  /** A comparison of v with a constant, or of v plus a constant as in a range check. */
  predicate ComparesValue(c: Compare, v: Value) {
    || (c.operand == v && (c.pred == EQ || c.pred == NE || c.c.ConstInt?))
    || (c.pred == ULT && c.c.ConstInt? && c.plus.Some? && Variable(c.plus.value.0) == v)
  }

  /** Does the way that control takes from f depend on v? */
  predicate Tests(p: Program, v: Value, f: Block)
    requires f in p.term
  {
    match p.term[f]
    case Jump(_) => false
    case Branch(cond, cmp, yes, no) => yes != no && (cond == v || (cmp.Some? && ComparesValue(cmp.value, v)))
    case Switch(on, _, _, _) => on == v
  }

  /** The outcome of the comparison if v is x. */
  predicate Holds(p: Program, c: Compare, v: Value, x: int)
    requires ComparesValue(c, v)
  {
    match c.c
    case ConstInt(w, k) => Compares(c.pred, w, if c.operand == v then x else x + c.plus.value.1, k)
    case ConstOther(id) => (x == p.rules.address(id)) == (c.pred == EQ)
  }

  /** Does control go from f to t if v is x? */
  ghost predicate Sends(p: Program, v: Value, f: Block, t: Block, x: int)
    requires f in p.term && Tests(p, v, f)
  {
    match p.term[f]
    case Branch(cond, cmp, yes, no) =>
      t == if (if cond == v then x % 2 == 1 else Holds(p, cmp.value, v, x)) then yes else no
    case Switch(on, width, cases, default) => SwitchSends(cases, width, default, t, x)
  }

  ghost predicate SwitchSends(cases: seq<(int, Block)>, width: Width, default: Block, t: Block, x: int) {
    || (exists i :: IsCase(cases, width, x, i) && t == cases[i].1)
    || (t == default && forall i :: !IsCase(cases, width, x, i))
  }

  /** An instruction is not its own operand. */
  predicate PlainCompare(p: Program, f: Block)
    requires f in p.term
  {
    p.term[f].Branch? && p.term[f].cmp.Some? && p.term[f].cmp.value.plus.Some? ==>
      Variable(p.term[f].cmp.value.plus.value.0) != p.term[f].cmp.value.operand
  }

  /** In every run control goes where the value tested sends it. */
  lemma BranchesAsSent(p: Program, v: Value, at: Visit, t: Block)
    requires at.block in p.term && Tests(p, v, at.block) && Branches(p, at, t)
    ensures Sends(p, v, at.block, t, ValueOf(p, at, v))
  {
    match p.term[at.block]
    case Branch(cond, cmp, yes, no) =>
      if cond != v {
        ComparedHolds(p, at, cmp.value, v, ValueOf(p, at, cond) % 2 == 1);
      }
    case Switch(on, width, cases, default) =>
  }

  lemma ComparedHolds(p: Program, at: Visit, c: Compare, v: Value, outcome: bool)
    requires ComparesValue(c, v) && Compared(p, at, c, outcome)
    ensures Holds(p, c, v, ValueOf(p, at, v)) == outcome
  {
  }

  // ---------------------------------------------------------------- operations that lose nothing

  ghost predicate UnionExact(ru: Rules, a: Range, b: Range) {
    forall x {:trigger ru.union(a, b).Has(x)} :: ru.union(a, b).Has(x) <==> a.Has(x) || b.Has(x)
  }

  ghost predicate DifferenceExact(ru: Rules, a: Range, b: Range) {
    forall x {:trigger ru.difference(a, b).Has(x)} :: ru.difference(a, b).Has(x) <==> a.Has(x) && !b.Has(x)
  }

  ghost predicate IntersectExact(ru: Rules, a: Range, b: Range) {
    forall x {:trigger ru.intersect(a, b).Has(x)} :: ru.intersect(a, b).Has(x) <==> a.Has(x) && b.Has(x)
  }

  function NextRange(ru: Rules, case0: (int, Block), width: Width, isDefault: bool, to: Block, acc: Range): Range {
    if isDefault then (if case0.1 != to then ru.difference(acc, Single(width, case0.0)) else acc)
    else if case0.1 == to then ru.union(acc, Single(width, case0.0)) else acc
  }

  /** Every range that the loop over the cases builds is exact. */
  ghost predicate SwitchExact(ru: Rules, cases: seq<(int, Block)>, width: Width, isDefault: bool, to: Block, acc: Range)
    decreases |cases|
  {
    cases != [] ==>
      var one := Single(width, cases[0].0);
      && (isDefault && cases[0].1 != to ==> DifferenceExact(ru, acc, one))
      && (!isDefault && cases[0].1 == to ==> UnionExact(ru, acc, one))
      && SwitchExact(ru, cases[1..], width, isDefault, to, NextRange(ru, cases[0], width, isDefault, to, acc))
  }

  lemma {:induction false} SwitchRangeExact(ru: Rules, cases: seq<(int, Block)>, width: Width, isDefault: bool,
                                            to: Block, acc: Range, x: int)
    requires SwitchExact(ru, cases, width, isDefault, to, acc)
    ensures SwitchRange(ru, cases, width, isDefault, to, acc).Has(x)
            <==> if isDefault then acc.Has(x) && forall i :: IsCase(cases, width, x, i) ==> cases[i].1 == to
                 else acc.Has(x) || exists i :: IsCase(cases, width, x, i) && cases[i].1 == to
    decreases |cases|
  {
    hide Range.Has, Pow2, Single;
    if cases != [] {
      var one := Single(width, cases[0].0);
      SingleHas(width, cases[0].0, x);
      var acc' := NextRange(ru, cases[0], width, isDefault, to, acc);
      SwitchRangeExact(ru, cases[1..], width, isDefault, to, acc', x);
      assert IsCase(cases, width, x, 0) <==> one.Has(x);
      forall i
        ensures IsCase(cases[1..], width, x, i) <==> (i >= 0 && IsCase(cases, width, x, i + 1))
      {
      }
      CasesFrom(cases, width, to, x);
    }
  }

  lemma CasesFrom(cases: seq<(int, Block)>, width: Width, to: Block, x: int)
    requires cases != []
    ensures (exists i :: IsCase(cases, width, x, i) && cases[i].1 == to)
            <==> (IsCase(cases, width, x, 0) && cases[0].1 == to)
                 || exists i :: IsCase(cases[1..], width, x, i) && cases[1..][i].1 == to
    ensures (forall i :: IsCase(cases, width, x, i) ==> cases[i].1 == to)
            <==> (IsCase(cases, width, x, 0) ==> cases[0].1 == to)
                 && forall i :: IsCase(cases[1..], width, x, i) ==> cases[1..][i].1 == to
  {
    hide Pow2;
    forall i | IsCase(cases, width, x, i) && i > 0
      ensures IsCase(cases[1..], width, x, i - 1) && cases[1..][i - 1] == cases[i]
    {
    }
    forall i | IsCase(cases[1..], width, x, i)
      ensures IsCase(cases, width, x, i + 1) && cases[1..][i] == cases[i + 1]
    {
    }
  }

  // ---------------------------------------------------------------- the terminator alone

  /** Something is found exactly if the terminator tests the value. */
  lemma LocalIffTested(p: Program, v: Value, f: Block, t: Block)
    requires f in p.term
    ensures EdgeLocal(p, v, f, t).Some? <==> Tests(p, v, f)
  {
  }

  ghost predicate EdgeExact(p: Program, f: Block, t: Block)
    requires f in p.term
  {
    && PlainCompare(p, f)
    && (p.term[f].Switch? ==>
          var s := p.term[f];
          SwitchExact(p.rules, s.cases, s.width, s.default == t, t,
                      if s.default == t then Full(s.width) else Empty(s.width)))
  }

  /** Is there a value of v for which control goes from f to t? */
  ghost predicate CanSend(p: Program, v: Value, f: Block, t: Block)
    requires f in p.term && Tests(p, v, f)
  {
    exists x :: Sends(p, v, f, t, x)
  }

  lemma OfRangeIs(ru: Rules, r: Range, y: int)
    requires r.Has(y)
    ensures OfRange(r) == InRange(r) && forall x :: ru.Allows(OfRange(r), x) <==> r.Has(x)
  {
  }

  lemma CompareExact(p: Program, c: Compare, v: Value, isTrueDest: bool, y: int, x: int)
    requires p.rules.Sound() && ComparesValue(c, v) && (c.plus.Some? ==> Variable(c.plus.value.0) != c.operand)
    requires Holds(p, c, v, y) == isTrueDest
    ensures CompareLocal(p.rules, c, v, isTrueDest).Some?
    ensures p.rules.Allows(CompareLocal(p.rules, c, v, isTrueDest).value, x) <==> Holds(p, c, v, x) == isTrueDest
  {
    hide Range.Has, Pow2;
    var ru := p.rules;
    if c.pred == EQ || c.pred == NE {
      if c.c.ConstInt? {
        SingleHas(c.c.width, c.c.value, x);
        SingleHas(c.c.width, c.c.value, y);
        OfRangeIs(ru, if isTrueDest == (c.pred == EQ) then Single(c.c.width, c.c.value)
          else AllBut(c.c.width, c.c.value), y);
      }
    } else {
      RegionExact(ru, c, v, isTrueDest, y, x);
    }
  }

  lemma RegionExact(ru: Rules, c: Compare, v: Value, isTrueDest: bool, y: int, x: int)
    requires ru.Sound() && ComparesValue(c, v) && c.c.ConstInt? && c.pred != EQ && c.pred != NE
    requires c.plus.Some? ==> Variable(c.plus.value.0) != c.operand
    requires var k := if c.operand == v then 0 else c.plus.value.1;
             Compares(c.pred, c.c.width, y + k, c.c.value) == isTrueDest
    ensures CompareLocal(ru, c, v, isTrueDest).Some?
    ensures var k := if c.operand == v then 0 else c.plus.value.1;
            ru.Allows(CompareLocal(ru, c, v, isTrueDest).value, x)
            <==> Compares(c.pred, c.c.width, x + k, c.c.value) == isTrueDest
  {
    hide Range.Has, Pow2, Compares;
    var k := if c.operand == v then 0 else c.plus.value.1;
    var region := ru.region(c.pred, c.c.width, c.c.value);
    var values := if c.operand == v then region else ru.subtract(region, k);
    forall z
      ensures values.Has(z) <==> Compares(c.pred, c.c.width, z + k, c.c.value)
    {
      assert region.Has(z + k) <==> Compares(c.pred, c.c.width, z + k, c.c.value);
      assert c.operand != v ==> (ru.subtract(region, k).Has(z) <==> region.Has(z + k));
    }
    var r := if isTrueDest then values else ru.inverse(values);
    assert ru.inverse(values).Has(y) <==> !values.Has(y);
    assert ru.inverse(values).Has(x) <==> !values.Has(x);
    OfRangeIs(ru, r, y);
  }

  /** What the terminator alone says about an edge that can be taken: exactly the values that take it. */
  lemma LocalExact(p: Program, v: Value, f: Block, t: Block)
    requires WellFormed(p) && p.rules.Sound() && f in p.blocks && t in Successors(p.term[f]) && Tests(p, v, f)
    requires EdgeExact(p, f, t) && CanSend(p, v, f, t)
    ensures EdgeLocal(p, v, f, t).Some?
    ensures forall x :: p.rules.Allows(EdgeLocal(p, v, f, t).value, x) <==> Sends(p, v, f, t, x)
  {
    hide CompareLocal, SwitchRange, SwitchExact, Range.Has, Pow2, Holds, Rules.Sound;
    var ru := p.rules;
    LocalIffTested(p, v, f, t);
    var y :| Sends(p, v, f, t, y);
    forall x
      ensures ru.Allows(EdgeLocal(p, v, f, t).value, x) <==> Sends(p, v, f, t, x)
    {
      match p.term[f]
      case Branch(cond, cmp, yes, no) =>
        if cond == v {
          BitExact(ru, yes == t, x);
        } else {
          CompareExact(p, cmp.value, v, yes == t, y, x);
        }
      case Switch(on, width, cases, default) => SwitchEdgeExact(p, f, t, y, x);
    }
  }

  lemma BitExact(ru: Rules, b: bool, x: int)
    ensures ru.Allows(OfConstant(ConstInt(1, if b then 1 else 0)), x) <==> (x % 2 == 1) == b
  {
    assert Size(1) == 2;
    SingleHas(1, if b then 1 else 0, x);
    SingleIsSingle(1, if b then 1 else 0);
  }

  lemma SwitchEdgeExact(p: Program, f: Block, t: Block, y: int, x: int)
    requires f in p.term && p.term[f].Switch? && EdgeExact(p, f, t) && Sends(p, p.term[f].on, f, t, y)
    requires DistinctCases(p.term[f].cases, p.term[f].width)
    ensures p.rules.Allows(EdgeLocal(p, p.term[f].on, f, t).value, x) <==> Sends(p, p.term[f].on, f, t, x)
  {
    hide SwitchRange, SwitchExact, Range.Has, Pow2, Full, Empty;
    var s := p.term[f];
    var start := if s.default == t then Full(s.width) else Empty(s.width);
    var r := SwitchRange(p.rules, s.cases, s.width, s.default == t, t, start);
    forall z
      ensures r.Has(z) <==> SwitchSends(s.cases, s.width, s.default, t, z)
    {
      StartHas(s.width, z);
      SwitchRangeExact(p.rules, s.cases, s.width, s.default == t, t, start, z);
      if s.default == t {
        DefaultSends(s.cases, s.width, t, z);
      }
    }
    OfRangeIs(p.rules, r, y);
  }

  lemma StartHas(width: Width, x: int)
    ensures Full(width).Has(x) && !Empty(width).Has(x)
  {
  }

  lemma DefaultSends(cases: seq<(int, Block)>, width: Width, t: Block, x: int)
    requires DistinctCases(cases, width)
    ensures SwitchSends(cases, width, t, t, x) <==> forall i :: IsCase(cases, width, x, i) ==> cases[i].1 == t
  {
    hide Pow2;
    forall i, j | IsCase(cases, width, x, i) && IsCase(cases, width, x, j)
      ensures i == j
    {
    }
  }

  // ---------------------------------------------------------------- the value of an edge

  /** Does the value at the end of f count as well? */
  predicate BlockCounts(p: Program, cache: Cache, v: Value, f: Block, t: Block)
    requires f in p.term
  {
    && v.Variable? && Pair(f, v) in cache
    && match EdgeLocal(p, v, f, t)
       case None => true
       case Some(l) => l.InRange? && !l.range.IsSingle() && cache[Pair(f, v)].InRange?
  }

  /** Is x possible as far as the terminator and the block know? */
  ghost predicate Possible(p: Program, cache: Cache, v: Value, f: Block, t: Block, x: int)
    requires f in p.term
  {
    && (v.Const? ==> p.rules.Allows(OfConstant(v.c), x))
    && (v.Variable? && Tests(p, v, f) ==> Sends(p, v, f, t, x))
    && (BlockCounts(p, cache, v, f, t) ==> p.rules.Allows(cache[Pair(f, v)], x))
  }

  ghost predicate MeetExact(p: Program, cache: Cache, v: Value, f: Block, t: Block)
    requires f in p.term
  {
    BlockCounts(p, cache, v, f, t) && EdgeLocal(p, v, f, t).Some? ==>
      IntersectExact(p.rules, EdgeLocal(p, v, f, t).value.range, cache[Pair(f, v)].range)
  }

  /** The value of an edge allows exactly what the terminator and the block allow. */
  lemma EdgeValueExact(p: Program, cache: Cache, v: Value, f: Block, t: Block, y: int)
    requires WellFormed(p) && p.rules.Sound() && f in p.blocks && t in Successors(p.term[f]) && EdgeExact(p, f, t)
    requires EdgeValue(p, cache, v, f, t).Got? && MeetExact(p, cache, v, f, t) && Possible(p, cache, v, f, t, y)
    ensures forall x :: p.rules.Allows(EdgeValue(p, cache, v, f, t).value, x) <==> Possible(p, cache, v, f, t, x)
  {
    hide EdgeLocal, Sends, Range.Has, Rules.Sound, EdgeExact, Range.IsSingle;
    if v.Variable? {
      LocalIffTested(p, v, f, t);
      if Tests(p, v, f) {
        LocalExact(p, v, f, t);
        if BlockCounts(p, cache, v, f, t) {
          OfRangeIs(p.rules, p.rules.intersect(EdgeLocal(p, v, f, t).value.range, cache[Pair(f, v)].range), y);
        }
      }
    }
  }

  /** The block is asked for only if it can add something: the terminator leaves more than one value. */
  lemma EdgeWaitsIff(p: Program, cache: Cache, v: Value, f: Block, t: Block)
    requires f in p.term
    ensures EdgeValue(p, cache, v, f, t).Wait?
            <==> v.Variable? && Pair(f, v) !in cache
                 && (Tests(p, v, f) ==>
                       var l := EdgeLocal(p, v, f, t).value; l.InRange? && !l.range.IsSingle())
  {
    hide EdgeLocal;
    LocalIffTested(p, v, f, t);
  }

  /** Is case i the only way from the switch to t? */
  predicate OnlyCase(cases: seq<(int, Block)>, default: Block, t: Block, i: nat) {
    && i < |cases| && default != t && cases[i].1 == t
    && forall j :: 0 <= j < |cases| && j != i ==> cases[j].1 != t
  }

  lemma {:induction false} OnlyCaseRange(ru: Rules, cases: seq<(int, Block)>, width: Width, to: Block, acc: Range,
                                         i: nat)
    requires i <= |cases| && (i < |cases| ==> cases[i].1 == to)
    requires forall j :: 0 <= j < |cases| && j != i ==> cases[j].1 != to
    ensures SwitchRange(ru, cases, width, false, to, acc)
            == if i < |cases| then ru.union(acc, Single(width, cases[i].0)) else acc
    decreases |cases|
  {
    if cases != [] {
      if i == 0 {
        OnlyCaseRange(ru, cases[1..], width, to, ru.union(acc, Single(width, cases[0].0)), |cases| - 1);
      } else {
        OnlyCaseRange(ru, cases[1..], width, to, acc, i - 1);
      }
    }
  }

  /** The edge for one case of a switch: the constant, whatever is cached, at once. */
  lemma CaseEdgeKnown(p: Program, cache: Cache, u: Var, f: Block, t: Block, i: nat)
    requires f in p.term && p.term[f].Switch? && p.term[f].on == Variable(u)
    requires OnlyCase(p.term[f].cases, p.term[f].default, t, i)
    requires var one := Single(p.term[f].width, p.term[f].cases[i].0);
             p.rules.union(Empty(p.term[f].width), one) == one
    ensures EdgeValue(p, cache, Variable(u), f, t) == Got(InRange(Single(p.term[f].width, p.term[f].cases[i].0)))
  {
    hide Pow2, SwitchRange;
    var s := p.term[f];
    OnlyCaseRange(p.rules, s.cases, s.width, t, Empty(s.width), i);
    SingleIsSingle(s.width, s.cases[i].0);
  }

  /** For example switch (x) { case 3: t; default: d }: x is in [3, 4) on the way to t. */
  lemma CaseThree(p: Program, u: Var, f: Block, t: Block, d: Block)
    requires f in p.term && t != d && p.term[f] == Switch(Variable(u), 32, [(3, t)], d)
    requires p.rules.union(Empty(32), Range(32, 3, 4)) == Range(32, 3, 4)
    ensures EdgeValue(p, map[], Variable(u), f, t) == Got(InRange(Range(32, 3, 4)))
  {
    assert Single(32, 3) == Range(32, 3, 4) by {
      ThirtyTwoBits();
    }
    CaseEdgeKnown(p, map[], u, f, t, 0);
  }

  lemma ThirtyTwoBits()
    ensures 3 % Size(32) == 3 && 4 % Size(32) == 4
  {
    assert Pow2(3) == 8;
    Pow2Grows(3, 32);
    ModIs(3, Pow2(32), 0, 3);
    ModIs(4, Pow2(32), 0, 4);
  }

  // ---------------------------------------------------------------- merging

  /** Is there a lattice value for what either side allows? */
  ghost predicate MergesExactly(ru: Rules, l: Lattice, r: Lattice) {
    match (l, r)
    case (Known(c), Known(d)) => c == d
    case (NotKnown(c), NotKnown(d)) => c == d || ru.address(c) != ru.address(d)
    case (Known(c), NotKnown(d)) => c == d || ru.differ(c, d)
    case (NotKnown(c), Known(d)) => c == d || ru.differ(c, d)
    case (InRange(a), InRange(b)) => UnionExact(ru, a, b) && exists x :: a.Has(x) || b.Has(x)
    case _ => l.Undefined? || r.Undefined? || l.Overdefined? || r.Overdefined?
  }

  /** Then merging gives it: nothing is lost. */
  lemma MergeExact(ru: Rules, l: Lattice, r: Lattice, x: int)
    requires ru.Sound() && MergesExactly(ru, l, r)
    ensures ru.Allows(ru.Merge(l, r), x) <==> ru.Allows(l, x) || ru.Allows(r, x)
  {
    hide Pow2;
    if l.InRange? && r.InRange? {
      var y :| l.range.Has(y) || r.range.Has(y);
      assert ru.union(l.range, r.range).Has(y)
        && (ru.union(l.range, r.range).Has(x) <==> l.range.Has(x) || r.range.Has(x));
      OfRangeIs(ru, ru.union(l.range, r.range), y);
    }
  }

  ghost predicate AllMergeExactly(p: Program, cache: Cache, es: seq<(Value, Block)>, t: Block, acc: Lattice)
    requires EdgesOk(p, es)
    decreases |es|
  {
    es != [] && EdgeValue(p, cache, es[0].0, es[0].1, t).Got? ==>
      var l := EdgeValue(p, cache, es[0].0, es[0].1, t).value;
      MergesExactly(p.rules, acc, l) && AllMergeExactly(p, cache, es[1..], t, p.rules.Merge(acc, l))
  }

  /** Some edge allows x. */
  ghost predicate SomeEdgeAllows(p: Program, cache: Cache, es: seq<(Value, Block)>, t: Block, x: int)
    requires EdgesOk(p, es)
  {
    exists i :: 0 <= i < |es| && EdgeAllows(p, cache, es, t, i, x)
  }

  ghost predicate EdgeAllows(p: Program, cache: Cache, es: seq<(Value, Block)>, t: Block, i: nat, x: int)
    requires EdgesOk(p, es) && i < |es|
  {
    assert es[i] in es;
    var a := EdgeValue(p, cache, es[i].0, es[i].1, t);
    a.Got? && p.rules.Allows(a.value, x)
  }

  lemma SomeEdgeFirst(p: Program, cache: Cache, es: seq<(Value, Block)>, t: Block, x: int)
    requires EdgesOk(p, es) && es != []
    ensures EdgesOk(p, es[1..])
    ensures SomeEdgeAllows(p, cache, es, t, x)
            <==> EdgeAllows(p, cache, es, t, 0, x) || SomeEdgeAllows(p, cache, es[1..], t, x)
  {
    hide EdgeValue;
    assert EdgesOk(p, es[1..]);
    if SomeEdgeAllows(p, cache, es, t, x) {
      var i :| 0 <= i < |es| && EdgeAllows(p, cache, es, t, i, x);
      if i > 0 {
        assert es[1..][i - 1] == es[i] && EdgeAllows(p, cache, es[1..], t, i - 1, x);
      }
    }
    if SomeEdgeAllows(p, cache, es[1..], t, x) {
      var i :| 0 <= i < |es| - 1 && EdgeAllows(p, cache, es[1..], t, i, x);
      assert es[1..][i] == es[i + 1] && EdgeAllows(p, cache, es, t, i + 1, x);
    }
  }

  /** Merged edges allow exactly what one of them allows. */
  lemma {:induction false} MergedExact(p: Program, cache: Cache, es: seq<(Value, Block)>, t: Block, acc: Lattice,
                                       x: int)
    requires p.rules.Sound() && EdgesOk(p, es) && AllMergeExactly(p, cache, es, t, acc)
    requires MergeEdges(p, cache, es, t, acc).Got?
    ensures p.rules.Allows(MergeEdges(p, cache, es, t, acc).value, x)
            <==> p.rules.Allows(acc, x) || SomeEdgeAllows(p, cache, es, t, x)
    decreases |es|
  {
    hide EdgeValue, Rules.Merge, Rules.Sound, MergesExactly, SomeEdgeAllows;
    if es == [] {
      assert !SomeEdgeAllows(p, cache, es, t, x) by { NoEdgeAllows(p, cache, t, x); }
    } else {
      assert es[0] in es;
      var l := EdgeValue(p, cache, es[0].0, es[0].1, t).value;
      var m := p.rules.Merge(acc, l);
      MergeExact(p.rules, acc, l, x);
      SomeEdgeFirst(p, cache, es, t, x);
      if !m.Overdefined? {
        MergedExact(p, cache, es[1..], t, m, x);
      }
    }
  }

  lemma NoEdgeAllows(p: Program, cache: Cache, t: Block, x: int)
    ensures !SomeEdgeAllows(p, cache, [], t, x)
  {
  }

  // ---------------------------------------------------------------- one step

  ghost predicate StepOk(p: Program, v: Var, b: Block) {
    && v in p.def && b in p.preds && EdgesOk(p, PredEdges(Variable(v), p.preds[b]))
    && (p.def[v].Phi? ==> EdgesOk(p, p.def[v].incoming))
  }

  ghost predicate IsNull(p: Program, x: int) {
    x == p.rules.address(p.rules.nullId)
  }

  /** A value that the block does not define: what the edges allow, and if that is everything, not null if the
      block dereferences it. */
  lemma NonLocalExact(p: Program, cache: Cache, v: Var, b: Block, x: int)
    requires StepOk(p, v, b) && !DefinedIn(p, v, b) && b != p.entry && Transfer(p, cache, v, b).Got?
    requires p.rules.Sound() && AllMergeExactly(p, cache, PredEdges(Variable(v), p.preds[b]), b, Undefined)
    ensures var es := PredEdges(Variable(v), p.preds[b]);
            var keepsNull := (v, b) !in p.nonNull || MergeEdges(p, cache, es, b, Undefined) != Got(Overdefined);
            p.rules.Allows(Transfer(p, cache, v, b).value, x)
            <==> SomeEdgeAllows(p, cache, es, b, x) && (keepsNull || !IsNull(p, x))
  {
    hide MergeEdges, Rules.Sound, AllMergeExactly, SomeEdgeAllows;
    MergedExact(p, cache, PredEdges(Variable(v), p.preds[b]), b, Undefined, x);
  }

  /** A phi: what one of its entries allows. */
  lemma PhiExact(p: Program, cache: Cache, v: Var, b: Block, x: int)
    requires StepOk(p, v, b) && DefinedIn(p, v, b) && p.def[v].Phi? && Transfer(p, cache, v, b).Got?
    requires p.rules.Sound() && AllMergeExactly(p, cache, p.def[v].incoming, b, Undefined)
    ensures p.rules.Allows(Transfer(p, cache, v, b).value, x)
            <==> SomeEdgeAllows(p, cache, p.def[v].incoming, b, x)
  {
    hide MergeEdges, Rules.Sound, AllMergeExactly, SomeEdgeAllows;
    MergedExact(p, cache, p.def[v].incoming, b, Undefined, x);
  }

  /** What the block dereferences is never lost track of. */
  lemma NonNullKept(p: Program, cache: Cache, v: Var, b: Block)
    requires StepOk(p, v, b) && !DefinedIn(p, v, b) && (v, b) in p.nonNull
    ensures Transfer(p, cache, v, b) != Got(Overdefined)
    ensures b == p.entry ==> Transfer(p, cache, v, b) == Got(NotKnown(p.rules.nullId))
  {
    hide MergeEdges;
  }

  /** The results of the operation for the values of the range. */
  ghost predicate ApplyExact(ru: Rules, op: Opcode, w: Width, a: Range, b: Range, k: int) {
    forall y {:trigger ru.apply(op, w, a, b).Has(y)} :: ru.apply(op, w, a, b).Has(y) <==> ResultOf(ru, op, w, a, k, y)
  }

  ghost predicate ResultOf(ru: Rules, op: Opcode, w: Width, a: Range, k: int, y: int) {
    exists x {:trigger a.Has(x)} :: a.Has(x) && y % Size(w) == ru.eval(op, w, x, k) % Size(w)
  }

  /** An operation on a range with a constant, or a cast, keeps all that is known. */
  lemma ArithExact(p: Program, cache: Cache, v: Var, b: Block, x: int, y: int)
    requires StepOk(p, v, b) && DefinedIn(p, v, b) && p.def[v].Arith?
    requires var d := p.def[v];
             !d.rhs.VarRhs? && !d.op.Unhandled? && (d.operand.Variable? ==> Pair(b, d.operand) in cache)
    requires var d, l := p.def[v], BlockValue(cache, b, p.def[v].operand);
             var k := if d.rhs.ConstRhs? then d.rhs.k else 0;
             && l.InRange? && ResultOf(p.rules, d.op, d.width, l.range, k, x)
             && ApplyExact(p.rules, d.op, d.width, l.range,
                           if d.rhs.ConstRhs? then Single(d.rhs.width, k) else Full(1), k)
    ensures Transfer(p, cache, v, b).Got?
    ensures var d := p.def[v];
            p.rules.Allows(Transfer(p, cache, v, b).value, y)
            <==> ResultOf(p.rules, d.op, d.width, BlockValue(cache, b, d.operand).range,
                          if d.rhs.ConstRhs? then d.rhs.k else 0, y)
  {
    hide Range.Has, Pow2, ResultOf, Single, Full;
    var d, l := p.def[v], BlockValue(cache, b, p.def[v].operand);
    var k := if d.rhs.ConstRhs? then d.rhs.k else 0;
    var r := p.rules.apply(d.op, d.width, l.range, if d.rhs.ConstRhs? then Single(d.rhs.width, k) else Full(1));
    assert r.Has(x) && (r.Has(y) <==> ResultOf(p.rules, d.op, d.width, l.range, k, y));
    OfRangeIs(p.rules, r, x);
  }

  /** The address of a variable on the stack is anything but null. */
  lemma AllocaExact(p: Program, cache: Cache, v: Var, b: Block, x: int)
    requires StepOk(p, v, b) && DefinedIn(p, v, b) && p.def[v].Alloca?
    ensures Transfer(p, cache, v, b).Got?
    ensures p.rules.Allows(Transfer(p, cache, v, b).value, x) <==> !IsNull(p, x)
  {
  }

  /** Edges are only waited for if one of them has to wait. */
  lemma {:induction false} MergeWaitsFor(p: Program, cache: Cache, es: seq<(Value, Block)>, t: Block, acc: Lattice)
    returns (i: nat)
    requires EdgesOk(p, es) && MergeEdges(p, cache, es, t, acc).Wait?
    ensures i < |es| && es[i].1 in p.term && EdgeValue(p, cache, es[i].0, es[i].1, t).Wait?
    decreases |es|
  {
    hide EdgeValue, Rules.Merge;
    i := 0;
    assert es[0] in es;
    var a := EdgeValue(p, cache, es[0].0, es[0].1, t);
    if a.Got? {
      assert EdgesOk(p, es[1..]);
      var j := MergeWaitsFor(p, cache, es[1..], t, p.rules.Merge(acc, a.value));
      i := j + 1;
      assert es[i] in es;
    }
  }
}
