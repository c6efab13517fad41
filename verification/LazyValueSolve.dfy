// One step of the solver: what is found for a value in a block from what is cached, and that it
// bounds the value in every run.
module LazyValueSolve {
  import opened LatticeValues
  import opened Options
  import opened LazyValueProgram

  datatype Pair = Pair(block: Block, value: Value)

  type Cache = map<Pair, Lattice>

  /** Either pairs that have to be solved first, or a lattice value. */
  datatype Answer = Wait(first: seq<Pair>) | Got(value: Lattice)

  // ---------------------------------------------------------------- edges

  function SwitchRange(ru: Rules, cases: seq<(int, Block)>, width: Width, isDefault: bool, to: Block, acc: Range): Range
    decreases |cases|
  {
    if cases == [] then acc
    else
      var one := Single(width, cases[0].0);
      var acc' := if isDefault then (if cases[0].1 != to then ru.difference(acc, one) else acc)
                  else if cases[0].1 == to then ru.union(acc, one) else acc;
      SwitchRange(ru, cases[1..], width, isDefault, to, acc')
  }

  /** What the terminator of f alone says about v on the way to t. */
  function EdgeLocal(p: Program, v: Value, f: Block, t: Block): Option<Lattice>
    requires f in p.term
  {
    match p.term[f]
    case Jump(_) => None
    case Branch(cond, cmp, yes, no) =>
      if yes == no then None
      else
        var isTrueDest := yes == t;
        if cond == v then Some(OfConstant(ConstInt(1, if isTrueDest then 1 else 0)))
        else if cmp.None? then None
        else CompareLocal(p.rules, cmp.value, v, isTrueDest)
    case Switch(on, width, cases, default) =>
      if on != v then None
      else
        var start := if default == t then Full(width) else Empty(width);
        Some(OfRange(SwitchRange(p.rules, cases, width, default == t, t, start)))
  }

  function CompareLocal(ru: Rules, c: Compare, v: Value, isTrueDest: bool): Option<Lattice> {
    if (c.pred == EQ || c.pred == NE) && c.operand == v then
      Some(if isTrueDest == (c.pred == EQ) then OfConstant(c.c) else OfNot(c.c))
    else
      var offset := c.pred == ULT && c.plus.Some? && Variable(c.plus.value.0) == v;
      if c.c.ConstInt? && (c.operand == v || offset) then
        var region := ru.region(c.pred, c.c.width, c.c.value);
        var values := if offset then ru.subtract(region, c.plus.value.1) else region;
        Some(OfRange(if isTrueDest then values else ru.inverse(values)))
      else None
  }

  function EdgeValue(p: Program, cache: Cache, v: Value, f: Block, t: Block): Answer
    requires f in p.term
  {
    match v
    case Const(c) => Got(OfConstant(c))
    case Variable(_) =>
      match EdgeLocal(p, v, f, t)
      case Some(l) =>
        if !l.InRange? || l.range.IsSingle() then Got(l)
        else if Pair(f, v) !in cache then Wait([Pair(f, v)])
        else if !cache[Pair(f, v)].InRange? then Got(l)
        else Got(OfRange(p.rules.intersect(l.range, cache[Pair(f, v)].range)))
      case None =>
        if Pair(f, v) !in cache then Wait([Pair(f, v)]) else Got(cache[Pair(f, v)])
  }

  // ---------------------------------------------------------------- merging edges

  predicate EdgesOk(p: Program, es: seq<(Value, Block)>) {
    forall e :: e in es ==> e.1 in p.term
  }

  /** The pairs that edges are waiting for. */
  function Missing(p: Program, cache: Cache, es: seq<(Value, Block)>, t: Block): seq<Pair>
    requires EdgesOk(p, es)
  {
    if es == [] then []
    else
      var a := EdgeValue(p, cache, es[0].0, es[0].1, t);
      (if a.Wait? then a.first else []) + Missing(p, cache, es[1..], t)
  }

  function MergeEdges(p: Program, cache: Cache, es: seq<(Value, Block)>, t: Block, acc: Lattice): Answer
    requires EdgesOk(p, es)
  {
    if es == [] then Got(acc)
    else
      match EdgeValue(p, cache, es[0].0, es[0].1, t)
      case Wait(first) => Wait(first + Missing(p, cache, es[1..], t))
      case Got(l) =>
        var m := p.rules.Merge(acc, l);
        if m.Overdefined? then Got(m) else MergeEdges(p, cache, es[1..], t, m)
  }

  function PredEdges(v: Value, preds: seq<Block>): seq<(Value, Block)> {
    seq(|preds|, i requires 0 <= i < |preds| => (v, preds[i]))
  }

  function NonLocal(p: Program, cache: Cache, v: Var, b: Block): Answer
    requires b in p.preds && EdgesOk(p, PredEdges(Variable(v), p.preds[b]))
  {
    var nonNull := (v, b) in p.nonNull;
    if b == p.entry then Got(if nonNull then NotKnown(p.rules.nullId) else Overdefined)
    else
      var a := MergeEdges(p, cache, PredEdges(Variable(v), p.preds[b]), b, Undefined);
      if a == Got(Overdefined) && nonNull then Got(NotKnown(p.rules.nullId)) else a
  }

  function BlockValue(cache: Cache, b: Block, v: Value): Lattice
    requires v.Const? || Pair(b, v) in cache
  {
    if v.Const? then OfConstant(v.c) else cache[Pair(b, v)]
  }

  function ArithValue(p: Program, cache: Cache, d: Def): Answer
    requires d.Arith?
  {
    if d.rhs.VarRhs? then Got(Overdefined)
    else if d.operand.Variable? && Pair(d.block, d.operand) !in cache then Wait([Pair(d.block, d.operand)])
    else
      var l := BlockValue(cache, d.block, d.operand);
      if !l.InRange? || d.op.Unhandled? then Got(Overdefined)
      else
        var rhs := if d.rhs.ConstRhs? then Single(d.rhs.width, d.rhs.k) else Full(1);
        Got(OfRange(p.rules.apply(d.op, d.width, l.range, rhs)))
  }

  function Transfer(p: Program, cache: Cache, v: Var, b: Block): Answer
    requires b in p.preds && EdgesOk(p, PredEdges(Variable(v), p.preds[b])) && v in p.def
    requires p.def[v].Phi? ==> EdgesOk(p, p.def[v].incoming)
  {
    if !DefinedIn(p, v, b) then NonLocal(p, cache, v, b)
    else
      match p.def[v]
      case Phi(_, incoming) => MergeEdges(p, cache, incoming, b, Undefined)
      case Alloca(_) => Got(NotKnown(p.rules.nullId))
      case Arith(_, _, _, _, _) => ArithValue(p, cache, p.def[v])
      case _ => Got(Overdefined)
  }

  lemma EdgesAreOk(p: Program, v: Var, b: Block)
    requires WellFormed(p) && v in p.vars && b in p.blocks
    ensures EdgesOk(p, PredEdges(Variable(v), p.preds[b])) && (p.def[v].Phi? ==> EdgesOk(p, p.def[v].incoming))
  {
    forall e | e in PredEdges(Variable(v), p.preds[b])
      ensures e.1 in p.term
    {
      var i :| 0 <= i < |p.preds[b]| && PredEdges(Variable(v), p.preds[b])[i] == e;
      assert p.preds[b][i] in p.preds[b];
    }
  }

  // ---------------------------------------------------------------- soundness

  ghost predicate SoundCache(p: Program, cache: Cache)
    requires WellFormed(p)
  {
    forall k :: k in cache ==> BoundsBlock(p, k.value, k.block, cache[k])
  }

  lemma {:induction false} SwitchBounds(ru: Rules, cases: seq<(int, Block)>, width: Width, isDefault: bool, to: Block,
                                        acc: Range, x: int)
    requires ru.Sound()
    requires acc.Has(x) || (!isDefault && exists i :: IsCase(cases, width, x, i) && cases[i].1 == to)
    requires isDefault ==> forall i :: IsCase(cases, width, x, i) ==> cases[i].1 == to
    ensures SwitchRange(ru, cases, width, isDefault, to, acc).Has(x)
    decreases |cases|
  {
    if cases != [] {
      var one := Single(width, cases[0].0);
      SingleHas(width, cases[0].0, x);
      var acc' := if isDefault then (if cases[0].1 != to then ru.difference(acc, one) else acc)
                  else if cases[0].1 == to then ru.union(acc, one) else acc;
      assert IsCase(cases, width, x, 0) <==> one.Has(x);
      forall i
        ensures IsCase(cases[1..], width, x, i) <==> (i >= 0 && IsCase(cases, width, x, i + 1))
      {
      }
      if !isDefault && !acc'.Has(x) {
        var i :| IsCase(cases, width, x, i) && cases[i].1 == to;
        assert IsCase(cases[1..], width, x, i - 1);
      }
      SwitchBounds(ru, cases[1..], width, isDefault, to, acc', x);
    }
  }

  lemma FullHas(width: Width, x: int)
    ensures Full(width).Has(x)
  {
  }

  lemma OfRangeAllows(ru: Rules, r: Range, x: int)
    requires r.Has(x)
    ensures ru.Allows(OfRange(r), x)
  {
  }

  lemma CompareBounds(p: Program, from: Visit, c: Compare, v: Value, isTrueDest: bool)
    requires p.rules.Sound() && Compared(p, from, c, isTrueDest) && CompareLocal(p.rules, c, v, isTrueDest).Some?
    ensures p.rules.Allows(CompareLocal(p.rules, c, v, isTrueDest).value, ValueOf(p, from, v))
  {
    var ru, x := p.rules, ValueOf(p, from, v);
    if (c.pred == EQ || c.pred == NE) && c.operand == v {
      if isTrueDest == (c.pred == EQ) {
        ru.OfConstantAllows(c.c, x);
      } else {
        ru.OfNotAllows(c.c, x);
      }
    } else {
      var offset := c.pred == ULT && c.plus.Some? && Variable(c.plus.value.0) == v;
      var region := ru.region(c.pred, c.c.width, c.c.value);
      if offset {
        var k := c.plus.value.1;
        assert ru.subtract(region, k).Has(x) <==> region.Has(x + k);
        assert region.Has(x + k) <==> Compares(ULT, c.c.width, x + k, c.c.value);
        var values := ru.subtract(region, k);
        assert ru.inverse(values).Has(x) <==> !values.Has(x);
      } else {
        assert region.Has(x) <==> Compares(c.pred, c.c.width, x, c.c.value);
        assert ru.inverse(region).Has(x) <==> !region.Has(x);
      }
    }
  }

  lemma SwitchEdge(p: Program, from: Visit, t: Block)
    requires WellFormed(p) && p.rules.Sound() && from.block in p.blocks && Branches(p, from, t)
             && p.term[from.block].Switch?
    ensures var s := p.term[from.block];
            var start := if s.default == t then Full(s.width) else Empty(s.width);
            SwitchRange(p.rules, s.cases, s.width, s.default == t, t, start).Has(ValueOf(p, from, s.on))
  {
    var s := p.term[from.block];
    var x := ValueOf(p, from, s.on);
    FullHas(s.width, x);
    if s.default == t {
      forall i | IsCase(s.cases, s.width, x, i)
        ensures s.cases[i].1 == t
      {
        var j :| IsCase(s.cases, s.width, x, j) && t == s.cases[j].1;
        assert DistinctCases(s.cases, s.width);
      }
    }
    SwitchBounds(p.rules, s.cases, s.width, s.default == t, t, if s.default == t then Full(s.width)
      else Empty(s.width), x);
  }

  /** What the terminator says about an edge holds whenever the edge is taken. */
  lemma LocalBounds(p: Program, v: Value, from: Visit, t: Block)
    requires WellFormed(p) && p.rules.Sound() && from.block in p.blocks && Branches(p, from, t)
             && EdgeLocal(p, v, from.block, t).Some?
    ensures p.rules.Allows(EdgeLocal(p, v, from.block, t).value, ValueOf(p, from, v))
  {
    hide CompareLocal, SwitchRange, Compared, TermUses, Compares;
    var ru, x := p.rules, ValueOf(p, from, v);
    match p.term[from.block]
    case Branch(cond, cmp, yes, no) =>
      var outcome := ValueOf(p, from, cond) % 2 == 1;
      if cond == v {
        assert Size(1) == 2;
        ru.OfConstantAllows(ConstInt(1, if outcome then 1 else 0), x);
      } else {
        CompareBounds(p, from, cmp.value, v, outcome);
      }
    case Switch(on, width, cases, default) =>
      SwitchEdge(p, from, t);
      var start := if default == t then Full(width) else Empty(width);
      OfRangeAllows(ru, SwitchRange(ru, cases, width, default == t, t, start), x);
  }

  /** So does the value of an edge, if what is cached bounds the values in its blocks. */
  lemma EdgeBounds(p: Program, cache: Cache, v: Value, f: Block, t: Block)
    requires WellFormed(p) && p.rules.Sound() && SoundCache(p, cache) && f in p.blocks
             && EdgeValue(p, cache, v, f, t).Got?
    ensures BoundsEdge(p, v, f, t, EdgeValue(p, cache, v, f, t).value)
  {
    hide EdgeLocal, Branches;
    var ru := p.rules;
    forall from, at | Occurs(p, from) && Follows(p, from, at) && from.block == f && at.block == t
      ensures ru.Allows(EdgeValue(p, cache, v, f, t).value, ValueOf(p, from, v))
    {
      var x := ValueOf(p, from, v);
      match v
      case Const(c) => ru.OfConstantAllows(c, x);
      case Variable(_) =>
        if EdgeLocal(p, v, f, t).Some? {
          LocalBounds(p, v, from, t);
        }
        if Pair(f, v) in cache {
          assert BoundsBlock(p, v, f, cache[Pair(f, v)]);
        }
    }
  }

  lemma {:induction false} MergedBounds(p: Program, cache: Cache, es: seq<(Value, Block)>, t: Block, acc: Lattice)
    requires WellFormed(p) && p.rules.Sound() && SoundCache(p, cache) && EdgesOk(p, es)
    requires MergeEdges(p, cache, es, t, acc).Got?
    ensures var l := MergeEdges(p, cache, es, t, acc).value;
            && (forall x :: p.rules.Allows(acc, x) ==> p.rules.Allows(l, x))
            && forall i :: 0 <= i < |es| ==> BoundsEdge(p, es[i].0, es[i].1, t, l)
    decreases |es|
  {
    hide EdgeValue, SoundCache;
    var ru := p.rules;
    var l := MergeEdges(p, cache, es, t, acc).value;
    if es != [] {
      var v, f := es[0].0, es[0].1;
      assert es[0] in es;
      var x := EdgeValue(p, cache, v, f, t).value;
      var m := ru.Merge(acc, x);
      EdgeBounds(p, cache, v, f, t);
      forall y | ru.Allows(acc, y) || ru.Allows(x, y)
        ensures ru.Allows(m, y)
      {
        ru.MergeIsUpperBound(acc, x, y);
      }
      if !m.Overdefined? {
        MergedBounds(p, cache, es[1..], t, m);
      }
      assert forall y :: ru.Allows(m, y) ==> ru.Allows(l, y);
      forall i | 0 <= i < |es|
        ensures BoundsEdge(p, es[i].0, es[i].1, t, l)
      {
        if i > 0 && !m.Overdefined? {
          assert es[1..][i - 1] == es[i];
        }
      }
    }
  }

  // ---------------------------------------------------------------- a whole step

  lemma NonLocalBounds(p: Program, cache: Cache, v: Var, b: Block)
    requires WellFormed(p) && p.rules.Sound() && SoundCache(p, cache) && v in p.vars && b in p.blocks
             && !DefinedIn(p, v, b)
    requires EdgesOk(p, PredEdges(Variable(v), p.preds[b])) && NonLocal(p, cache, v, b).Got?
    ensures BoundsBlock(p, Variable(v), b, NonLocal(p, cache, v, b).value)
  {
    hide SoundCache, MergeEdges, EdgesOk;
    var es := PredEdges(Variable(v), p.preds[b]);
    var l := NonLocal(p, cache, v, b).value;
    if b != p.entry {
      MergedBounds(p, cache, es, b, Undefined);
    }
    forall at | Occurs(p, at) && at.block == b
      ensures p.rules.Allows(l, ValueOf(p, at, Variable(v)))
    {
      OccursComputes(p, at, v);
      if b != p.entry {
        var from := OccursAfter(p, at);
        OccursComputes(p, from, v);
        PredOf(p, from, at);
        var i :| 0 <= i < |p.preds[b]| && p.preds[b][i] == from.block;
        assert es[i] == (Variable(v), from.block);
      }
    }
  }

  lemma PredOf(p: Program, from: Visit, at: Visit)
    requires WellFormed(p) && Follows(p, from, at) && at.block in p.blocks
    ensures from.block in p.preds[at.block]
  {
    var a, b := from.block, at.block;
    assert b in Successors(p.term[a]) by {
      match p.term[a]
      case Switch(on, width, cases, default) =>
        var rest := seq(|cases|, i requires 0 <= i < |cases| => cases[i].1);
        if b != default {
          var i :| IsCase(cases, width, ValueOf(p, from, on), i) && b == cases[i].1;
          assert rest[i] == b;
        }
      case _ =>
    }
  }

  lemma PhiBounds(p: Program, cache: Cache, v: Var, b: Block)
    requires WellFormed(p) && p.rules.Sound() && SoundCache(p, cache) && v in p.vars && b in p.blocks
             && DefinedIn(p, v, b)
    requires p.def[v].Phi? && EdgesOk(p, p.def[v].incoming)
             && MergeEdges(p, cache, p.def[v].incoming, b, Undefined).Got?
    ensures BoundsBlock(p, Variable(v), b, MergeEdges(p, cache, p.def[v].incoming, b, Undefined).value)
  {
    hide SoundCache, MergeEdges, EdgesOk, Branches;
    var es := p.def[v].incoming;
    var l := MergeEdges(p, cache, es, b, Undefined).value;
    MergedBounds(p, cache, es, b, Undefined);
    forall at | Occurs(p, at) && at.block == b
      ensures p.rules.Allows(l, ValueOf(p, at, Variable(v)))
    {
      var from := OccursAfter(p, at);
      assert TakesPhi(p, from, at, v);
      var i :| 0 <= i < |es| && es[i].1 == from.block && ValueOf(p, at, Variable(v)) == ValueOf(p, from, es[i].0);
      assert BoundsEdge(p, es[i].0, es[i].1, b, l);
    }
  }

  lemma ArithBounds(p: Program, cache: Cache, v: Var, b: Block)
    requires WellFormed(p) && p.rules.Sound() && SoundCache(p, cache) && v in p.vars && b in p.blocks
             && DefinedIn(p, v, b)
    requires p.def[v].Arith? && ArithValue(p, cache, p.def[v]).Got?
    ensures BoundsBlock(p, Variable(v), b, ArithValue(p, cache, p.def[v]).value)
  {
    var d := p.def[v];
    var l := ArithValue(p, cache, d).value;
    forall at | Occurs(p, at) && at.block == b
      ensures p.rules.Allows(l, ValueOf(p, at, Variable(v)))
    {
      OccursComputes(p, at, v);
      if !l.Overdefined? {
        var lhs := BlockValue(cache, b, d.operand);
        var x := ValueOf(p, at, d.operand);
        var y := if d.rhs.ConstRhs? then d.rhs.k else 0;
        assert p.rules.Allows(lhs, x) by {
          if d.operand.Const? {
            p.rules.OfConstantAllows(d.operand.c, x);
          } else {
            assert BoundsBlock(p, d.operand, b, cache[Pair(b, d.operand)]);
          }
        }
        var r := if d.rhs.ConstRhs? then Single(d.rhs.width, d.rhs.k) else Full(1);
        if d.rhs.ConstRhs? { SingleHas(d.rhs.width, d.rhs.k, y); } else { FullHas(1, y); }
        assert p.rules.apply(d.op, d.width, lhs.range, r).Has(p.rules.eval(d.op, d.width, x, y));
      }
    }
  }

  /** What one step finds bounds the value in every run. */
  lemma TransferBounds(p: Program, cache: Cache, v: Var, b: Block)
    requires WellFormed(p) && p.rules.Sound() && SoundCache(p, cache) && v in p.vars && b in p.blocks
    requires EdgesOk(p, PredEdges(Variable(v), p.preds[b])) && (p.def[v].Phi? ==> EdgesOk(p, p.def[v].incoming))
    requires Transfer(p, cache, v, b).Got?
    ensures BoundsBlock(p, Variable(v), b, Transfer(p, cache, v, b).value)
  {
    hide NonLocal, MergeEdges, ArithValue, EdgesOk, SoundCache;
    if !DefinedIn(p, v, b) {
      NonLocalBounds(p, cache, v, b);
    } else if p.def[v].Phi? {
      PhiBounds(p, cache, v, b);
    } else if p.def[v].Arith? {
      ArithBounds(p, cache, v, b);
    } else if p.def[v].Alloca? {
      forall at | Occurs(p, at) && at.block == b
        ensures ValueOf(p, at, Variable(v)) != p.rules.address(p.rules.nullId)
      {
        OccursComputes(p, at, v);
      }
    }
  }
}
