// What is left in the cache when an edge has been threaded past a block, and when it still bounds the
// values in every run of the function with that edge redirected.
module LazyValueThreading {
  import opened LatticeValues
  import opened Options
  import opened LazyValueProgram
  import opened LazyValueSolve
  import opened LazyValueInfo
  import opened Maps

  // ---------------------------------------------------------------- redirecting an edge

  function Redirect(t: Block, o: Block, n: Block): Block {
    if t == o then n else t
  }

  /** The terminator with n in place of o. */
  function Retarget(t: Term, o: Block, n: Block): (r: Term) {
    match t
    case Jump(succs) => Jump(seq(|succs|, i requires 0 <= i < |succs| => Redirect(succs[i], o, n)))
    case Branch(cond, cmp, yes, no) => Branch(cond, cmp, Redirect(yes, o, n), Redirect(no, o, n))
    case Switch(on, width, cases, default) =>
      Switch(on, width, seq(|cases|, i requires 0 <= i < |cases| => (cases[i].0, Redirect(cases[i].1, o, n))),
        Redirect(default, o, n))
  }

  /** The value of the first entry for b. */
  function EntryFor(es: seq<(Value, Block)>, b: Block, d: Value): Value {
    if es == [] then d else if es[0].1 == b then es[0].0 else EntryFor(es[1..], b, d)
  }

  predicate IsPhiOf(p: Program, v: Value, b: Block) {
    v.Variable? && v.v in p.def && p.def[v.v].Phi? && p.def[v.v].block == b
  }

  /** What v is in block o, in terms of what control brings from pred: a phi of o is its entry for pred. */
  function Coming(p: Program, v: Value, pred: Block, o: Block): Value {
    if IsPhiOf(p, v, o) then EntryFor(p.def[v.v].incoming, pred, v) else v
  }

  /** What came by way of o now also comes from pred. */
  function RedirectIncoming(p: Program, es: seq<(Value, Block)>, pred: Block, o: Block): seq<(Value, Block)> {
    if es == [] then []
    else
      var rest := RedirectIncoming(p, es[1..], pred, o);
      if es[0].1 == pred then rest
      else if es[0].1 == o then [es[0], (Coming(p, es[0].0, pred, o), pred)] + rest
      else [es[0]] + rest
  }

  /** Nothing comes from b any more. */
  function NotFrom(es: seq<(Value, Block)>, b: Block): (rs: seq<(Value, Block)>)
    ensures forall e :: e in rs <==> e in es && e.1 != b
  {
    if es == [] then []
    else
      assert es == [es[0]] + es[1..];
      (if es[0].1 == b then [] else [es[0]]) + NotFrom(es[1..], b)
  }

  function RedirectDef(p: Program, d: Def, pred: Block, o: Block, n: Block): Def {
    if d.Phi? && d.block == n then Phi(n, RedirectIncoming(p, d.incoming, pred, o))
    else if d.Phi? && d.block == o then Phi(o, NotFrom(d.incoming, pred))
    else d
  }

  function Others(bs: seq<Block>, b: Block): (rs: seq<Block>)
    ensures forall c :: c in rs <==> c in bs && c != b
  {
    if bs == [] then [] else (if bs[0] == b then [] else [bs[0]]) + Others(bs[1..], b)
  }

  /** p' is p where pred goes to n instead of o. */
  ghost predicate Redirects(p: Program, p': Program, pred: Block, o: Block, n: Block)
    requires pred in p.term && o in p.preds && n in p.preds
  {
    && p'.entry == p.entry && p'.blocks == p.blocks && p'.vars == p.vars && p'.nonNull == p.nonNull
       && p'.rules == p.rules
    && p'.term == p.term[pred := Retarget(p.term[pred], o, n)]
    && p'.preds == p.preds[o := Others(p.preds[o], pred)][n := p.preds[n] + [pred]]
    && p'.def.Keys == p.def.Keys && forall v :: v in p.def ==> p'.def[v] == RedirectDef(p, p.def[v], pred, o, n)
  }

  // ---------------------------------------------------------------- where definitions reach

  predicate FromBlock(p: Program, v: Value, b: Block) {
    v.Variable? && v.v in p.def && DefinedIn(p, v.v, b)
  }

  /** A path from the entry block to b that does not visit o. */
  ghost predicate IsPathAround(p: Program, o: Block, path: seq<Block>, b: Block) {
    && path != [] && path[0] == p.entry && path[|path| - 1] == b && o !in path
    && forall i {:trigger path[i]} ::
         0 <= i < |path| - 1 ==> path[i] in p.term && path[i + 1] in Successors(p.term[path[i]])
  }

  /** o does not dominate b. */
  ghost predicate Around(p: Program, o: Block, b: Block) {
    exists path :: IsPathAround(p, o, path, b)
  }

  lemma AroundNext(p: Program, o: Block, a: Block, b: Block)
    requires Around(p, o, a) && a in p.term && b in Successors(p.term[a]) && b != o
    ensures Around(p, o, b)
  {
    hide Successors;
    var path :| IsPathAround(p, o, path, a);
    var longer := path + [b];
    assert forall i :: 0 <= i < |path| ==> longer[i] == path[i];
    assert IsPathAround(p, o, longer, b);
  }

  /** What o defines is used only where o dominates. */
  ghost predicate UsedBelow(p: Program, o: Block) {
    && (forall c, u :: c in p.term && u in TermUses(p.term[c]) && FromBlock(p, u, o) ==> !Around(p, o, c))
    && (forall v ::
         v in p.def && p.def[v].Arith? && FromBlock(p, p.def[v].operand, o) ==> !Around(p, o, p.def[v].block))
    && (forall v, c :: (v, c) in p.nonNull && FromBlock(p, Variable(v), o) ==> !Around(p, o, c))
    && (forall v, e ::
         v in p.def && p.def[v].Phi? && e in p.def[v].incoming && FromBlock(p, e.0, o) ==> !Around(p, o, e.1))
  }

  /** The definition of the value, if o has it, dominates the block. */
  ghost predicate InScope(p: Program, o: Block, k: Pair) {
    FromBlock(p, k.value, o) ==> !Around(p, o, k.block)
  }

  // ---------------------------------------------------------------- a block as it is entered from another

  /** The phis of b have one value for control that comes from a. */
  ghost predicate PhisFor(p: Program, a: Block, b: Block) {
    forall v :: v in p.def && p.def[v].Phi? && p.def[v].block == b ==>
      && (EntryFor(p.def[v].incoming, a, Variable(v)), a) in p.def[v].incoming
      && forall e :: e in p.def[v].incoming && e.1 == a ==> e.0 == EntryFor(p.def[v].incoming, a, Variable(v))
  }

  /** Instructions of b come after the ones of b that they compute with; `pos` is where they are. */
  ghost predicate Ordered(p: Program, pos: Var -> nat, b: Block) {
    forall v :: v in p.def && p.def[v].Arith? && DefinedIn(p, v, b) && FromBlock(p, p.def[v].operand, b) ==>
      pos(p.def[v].operand.v) < pos(v)
  }

  /** The value that decides where a terminator goes; a jump has none. */
  function Tested(t: Term): Value {
    match t
    case Jump(_) => Const(ConstOther(0))
    case Branch(cond, cmp, _, _) => if cmp.Some? then cmp.value.operand else cond
    case Switch(on, _, _, _) => on
  }

  ghost predicate Outcome(ru: Rules, c: Compare, x: int, b: bool) {
    match c.c
    case ConstInt(w, k) => Compares(c.pred, w, x, k) == b
    case ConstOther(id) =>
      (c.pred == EQ ==> (x == ru.address(id)) == b) && (c.pred == NE ==> (x != ru.address(id)) == b)
  }

  /** If x is tested, and the comparison of the branch comes out as b, control may go there. */
  ghost predicate Goes(ru: Rules, t: Term, x: int, b: bool, to: Block) {
    match t
    case Jump(succs) => to in succs
    case Branch(_, cmp, yes, no) =>
      if cmp.None? then to == (if x % 2 == 1 then yes else no)
      else Outcome(ru, cmp.value, x, b) && to == (if b then yes else no)
    case Switch(_, width, cases, default) =>
      || (exists i :: IsCase(cases, width, x, i) && to == cases[i].1)
      || (to == default && forall i :: !IsCase(cases, width, x, i))
  }

  /** Control that comes to o from pred goes on to n: o jumps there, or everything that l allows, the
      answer for the tested value on that edge, leads there.  A comparison that is tested is in o. */
  ghost predicate Decided(p: Program, pred: Block, o: Block, n: Block, l: Lattice)
    requires WellFormed(p) && o in p.term
  {
    var t := p.term[o];
    && n in Successors(t)
    && (forall x, b, to {:trigger Goes(p.rules, t, x, b, to)} ::
          (t.Jump? || p.rules.Allows(l, x)) && Goes(p.rules, t, x, b, to) ==> to == n)
    && (t.Jump? ||
        ((FromBlock(p, Tested(t), o) ==> IsPhiOf(p, Tested(t), o))
          && BoundsEdge(p, Coming(p, Tested(t), pred, o), pred, o, l)))
    && (t.Branch? && t.cmp.Some? ==>
          t.cmp.value.plus.None? && FromBlock(p, t.cond, o) && p.def[t.cond.v].Other?)
  }

  /** A branch on a value that getValueOnEdge finds to be constant is decided. */
  lemma KnownDecides(p: Program, pred: Block, o: Block, n: Block, c: int)
    requires WellFormed(p) && o in p.blocks && p.term[o].Branch? && p.term[o].cmp == None
    requires n == (if c % 2 == 1 then p.term[o].yes else p.term[o].no)
    requires FromBlock(p, p.term[o].cond, o) ==> IsPhiOf(p, p.term[o].cond, o)
    requires BoundsEdge(p, Coming(p, p.term[o].cond, pred, o), pred, o, OfConstant(ConstInt(1, c)))
    ensures Decided(p, pred, o, n, OfConstant(ConstInt(1, c)))
  {
    hide Occurs, Follows;
    var t := p.term[o];
    forall x, b, to | p.rules.Allows(OfConstant(ConstInt(1, c)), x) && Goes(p.rules, t, x, b, to)
      ensures to == n
    {
      OneBit(p.rules, c, x);
    }
  }

  lemma OneBit(ru: Rules, c: int, x: int)
    requires ru.Allows(OfConstant(ConstInt(1, c)), x)
    ensures x % 2 == c % 2
  {
    assert Size(1) == 2;
    SingleHas(1, c, x);
    SingleIsSingle(1, c);
  }

  /** The edge from pred to o is redirected to n, where control that comes from pred goes on to.  What o
      defines is used in the new function only where o dominates, and not on the redirected edge.  Values
      that are dereferenced are not computed by arithmetic. */
  ghost predicate Threads(p: Program, p': Program, pred: Block, o: Block, n: Block, pos: Var -> nat, l: Lattice) {
    && WellFormed(p) && pred in p.blocks && o in p.blocks && n in p.blocks && pred != o && n != o
    && n !in Successors(p.term[pred]) && Redirects(p, p', pred, o, n) && WellFormed(p')
    && Decided(p, pred, o, n, l) && PhisFor(p, pred, o) && Ordered(p, pos, o) && UsedBelow(p', o)
    && (Around(p', o, pred) || forall v :: v in p.def ==> !DefinedIn(p, v, o))
    && (forall v :: v in p.def && (v, o) in p.nonNull && DefinedIn(p, v, o) ==> !p.def[v].Arith?)
  }

  /** Something that o dereferences, and that o does not make itself. */
  predicate DereferencedIn(p: Program, v: Var, o: Block) {
    v in p.def && (v, o) in p.nonNull && (DefinedIn(p, v, o) ==> p.def[v].Phi?)
  }

  /** It is not null when control comes from pred. */
  ghost predicate NotNullBefore(p: Program, pred: Block, o: Block, v: Var)
    requires WellFormed(p)
  {
    BoundsEdge(p, Coming(p, Variable(v), pred, o), pred, o, NotKnown(p.rules.nullId))
  }

  // ---------------------------------------------------------------- the redirected function

  /** The entries of a redirected phi. */
  lemma {:induction false} RedirectedEntries(p: Program, es: seq<(Value, Block)>, pred: Block, o: Block,
                                             e: (Value, Block))
    requires pred != o
    ensures e in RedirectIncoming(p, es, pred, o)
            <==> if e.1 == pred then exists w :: (w, o) in es && e.0 == Coming(p, w, pred, o) else e in es
    decreases |es|
  {
    hide Coming;
    if es != [] {
      RedirectedEntries(p, es[1..], pred, o, e);
      assert es == [es[0]] + es[1..];
      assert es[0].1 == o ==> (es[0].0, o) == es[0];
    }
  }

  lemma RetargetedSuccessors(t: Term, o: Block, n: Block, b: Block)
    requires b in Successors(Retarget(t, o, n))
    ensures exists c :: c in Successors(t) && b == Redirect(c, o, n)
  {
    match t
    case Jump(succs) =>
      var i :| 0 <= i < |succs| && b == Redirect(succs[i], o, n);
      assert succs[i] in Successors(t);
    case Branch(_, _, yes, no) =>
      assert yes in Successors(t) && no in Successors(t);
    case Switch(_, _, cases, default) =>
      assert Successors(t)[0] == default;
      var ss := Successors(Retarget(t, o, n));
      var i :| 0 <= i < |ss| && ss[i] == b;
      if i > 0 {
        assert Successors(t)[i] == cases[i - 1].1;
        assert cases[i - 1].1 in Successors(t);
      }
  }

  lemma RedirectedEdges(p: Program, p': Program, pred: Block, o: Block, n: Block, a: Block, b: Block)
    requires WellFormed(p) && pred in p.blocks && o in p.blocks && n in p.blocks && pred != o && n != o
    requires Redirects(p, p', pred, o, n) && a in p.blocks && b in p.blocks && b in Successors(p'.term[a])
    ensures a in p'.preds[b]
  {
    if a == pred {
      RetargetedSuccessors(p.term[pred], o, n, b);
    }
  }

  lemma RedirectedPhi(p: Program, p': Program, pred: Block, o: Block, n: Block, v: Var, i: nat)
    requires WellFormed(p) && pred in p.blocks && o in p.blocks && n in p.blocks && pred != o && n != o
    requires Redirects(p, p', pred, o, n) && v in p.vars && p'.def[v].Phi? && i < |p'.def[v].incoming|
    ensures p'.def[v].incoming[i].1 in p.blocks && Within(p, p'.def[v].incoming[i].0)
  {
    hide Coming;
    var e := p'.def[v].incoming[i];
    if p.def[v].block == n {
      RedirectedEntries(p, p.def[v].incoming, pred, o, e);
      if e.1 == pred {
        var w :| (w, o) in p.def[v].incoming && e.0 == Coming(p, w, pred, o);
        var j :| 0 <= j < |p.def[v].incoming| && p.def[v].incoming[j] == (w, o);
        ComingWithin(p, w, pred, o);
      } else {
        var j :| 0 <= j < |p.def[v].incoming| && p.def[v].incoming[j] == e;
      }
    } else if p.def[v].block == o {
      assert e in p'.def[v].incoming;
      var j :| 0 <= j < |p.def[v].incoming| && p.def[v].incoming[j] == e;
    }
  }

  lemma ComingWithin(p: Program, v: Value, pred: Block, o: Block)
    requires WellFormed(p) && Within(p, v)
    ensures Within(p, Coming(p, v, pred, o))
  {
    hide Within;
    if IsPhiOf(p, v, o) {
      EntryIsEntry(p.def[v.v].incoming, pred, v);
    }
  }

  lemma {:induction false} EntryIsEntry(es: seq<(Value, Block)>, b: Block, d: Value)
    ensures EntryFor(es, b, d) == d || exists i :: 0 <= i < |es| && es[i] == (EntryFor(es, b, d), b)
    decreases |es|
  {
    if es != [] && es[0].1 != b {
      EntryIsEntry(es[1..], b, d);
      if i :| 0 <= i < |es[1..]| && es[1..][i] == (EntryFor(es, b, d), b) {
        assert es[i + 1] == (EntryFor(es, b, d), b);
      }
    } else if es != [] {
      assert es[0] == (EntryFor(es, b, d), b);
    }
  }

  lemma RedirectedCases(p: Program, p': Program, pred: Block, o: Block, n: Block, b: Block)
    requires WellFormed(p) && pred in p.blocks && o in p.blocks && n in p.blocks
    requires Redirects(p, p', pred, o, n) && b in p.blocks && p'.term[b].Switch?
    ensures DistinctCases(p'.term[b].cases, p'.term[b].width)
  {
    assert p.term[b].Switch? && DistinctCases(p.term[b].cases, p.term[b].width);
  }

  lemma RedirectedEdgesListed(p: Program, p': Program, pred: Block, o: Block, n: Block)
    requires WellFormed(p) && pred in p.blocks && o in p.blocks && n in p.blocks && pred != o && n != o
    requires Redirects(p, p', pred, o, n)
    ensures p'.term.Keys == p'.blocks
    ensures forall a, b :: a in p'.blocks && b in p'.blocks && b in Successors(p'.term[a]) ==> a in p'.preds[b]
    ensures forall b :: b in p'.blocks && p'.term[b].Switch? ==> DistinctCases(p'.term[b].cases, p'.term[b].width)
  {
    hide Successors, Retarget, DistinctCases, Within, TermUses, WellFormed, Redirects;
    RedirectedPreds(p, p', pred, o, n);
    forall a, b | a in p'.blocks && b in p'.blocks && b in Successors(p'.term[a])
      ensures a in p'.preds[b]
    {
      RedirectedEdges(p, p', pred, o, n, a, b);
    }
    forall b | b in p'.blocks && p'.term[b].Switch?
      ensures DistinctCases(p'.term[b].cases, p'.term[b].width)
    {
      RedirectedCases(p, p', pred, o, n, b);
    }
  }

  lemma RedirectedPreds(p: Program, p': Program, pred: Block, o: Block, n: Block)
    requires WellFormed(p) && pred in p.blocks && o in p.blocks && n in p.blocks && pred != o && n != o
    requires Redirects(p, p', pred, o, n)
    ensures p'.blocks == p.blocks && p'.preds.Keys == p'.blocks && p'.term.Keys == p'.blocks
    ensures p'.def.Keys == p'.vars && p'.entry in p'.blocks
    ensures forall b, a :: b in p'.blocks && a in p'.preds[b] ==> a in p'.blocks
  {
    hide Successors, Retarget, DistinctCases, Within, TermUses;
  }

  lemma RedirectedDefs(p: Program, p': Program, pred: Block, o: Block, n: Block)
    requires WellFormed(p) && pred in p.blocks && o in p.blocks && n in p.blocks && pred != o && n != o
    requires Redirects(p, p', pred, o, n)
    ensures p'.def.Keys == p'.vars
    ensures forall v, i :: v in p'.vars && p'.def[v].Phi? && 0 <= i < |p'.def[v].incoming| ==>
              p'.def[v].incoming[i].1 in p'.blocks && Within(p', p'.def[v].incoming[i].0)
    ensures forall v :: v in p'.vars && p'.def[v].Phi? ==> p'.def[v].block != p'.entry
    ensures forall v :: v in p'.vars && p'.def[v].Arith? ==> Within(p', p'.def[v].operand)
  {
    hide Successors, Retarget, DistinctCases, Within;
    forall v, i | v in p'.vars && p'.def[v].Phi? && 0 <= i < |p'.def[v].incoming|
      ensures p'.def[v].incoming[i].1 in p'.blocks && Within(p', p'.def[v].incoming[i].0)
    {
      RedirectedPhi(p, p', pred, o, n, v, i);
      SameWithin(p, p', p'.def[v].incoming[i].0);
    }
    forall v | v in p'.vars && p'.def[v].Arith?
      ensures Within(p', p'.def[v].operand)
    {
      SameWithin(p, p', p.def[v].operand);
    }
  }

  lemma RedirectedUses(p: Program, p': Program, pred: Block, o: Block, n: Block)
    requires WellFormed(p) && pred in p.blocks && o in p.blocks && n in p.blocks && Redirects(p, p', pred, o, n)
    ensures forall b, u :: b in p'.blocks && u in TermUses(p'.term[b]) ==> Within(p', u)
  {
    hide Successors, DistinctCases, TermUses, Retarget;
    forall b, u | b in p'.blocks && u in TermUses(p'.term[b])
      ensures Within(p', u)
    {
      RetargetUses(p.term[pred], o, n);
      UsesWithin(p, b, u);
    }
  }

  lemma UsesWithin(p: Program, b: Block, u: Value)
    requires WellFormed(p) && b in p.blocks && u in TermUses(p.term[b])
    ensures Within(p, u)
  {
    hide TermUses, Successors, DistinctCases;
  }

  lemma RetargetUses(t: Term, o: Block, n: Block)
    ensures TermUses(Retarget(t, o, n)) == TermUses(t)
  {
  }

  lemma RedirectedWellFormed(p: Program, p': Program, pred: Block, o: Block, n: Block)
    requires WellFormed(p) && pred in p.blocks && o in p.blocks && n in p.blocks && pred != o && n != o
    requires Redirects(p, p', pred, o, n)
    ensures WellFormed(p')
  {
    hide Successors, Retarget, Within, DistinctCases, Redirects, TermUses;
    RedirectedPreds(p, p', pred, o, n);
    RedirectedEdgesListed(p, p', pred, o, n);
    RedirectedDefs(p, p', pred, o, n);
    RedirectedUses(p, p', pred, o, n);
  }

  lemma SameWithin(p: Program, p': Program, v: Value)
    requires p'.vars == p.vars
    ensures Within(p', v) <==> Within(p, v)
  {
  }
}
