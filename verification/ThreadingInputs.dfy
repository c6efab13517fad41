// Two functions whose cache is wrong after an edge has been threaded.
module ThreadingInputs {
  import opened LatticeValues
  import opened Options
  import opened LazyValueProgram
  import opened LazyValueSolve
  import opened LazyValueInfo
  import opened LazyValueThreading
  import opened ThreadedRuns

  // ---------------------------------------------------------------- an argument that is dereferenced

  /** e: goto o.  o: load q; goto n.  Here q is an argument. */
  function Loading(e: Block, o: Block, n: Block, q: Var, ru: Rules): Program {
    Program(e, {e, o, n}, map[e := [], o := [e], n := [o]], {q}, map[q := Argument],
            map[e := Jump([o]), o := Jump([n]), n := Jump([])], {(q, o)}, ru)
  }

  function LoadingThreaded(e: Block, o: Block, n: Block, q: Var, ru: Rules): Program {
    Program(e, {e, o, n}, map[e := [], o := [], n := [o, e]], {q}, map[q := Argument],
            map[e := Jump([n]), o := Jump([n]), n := Jump([])], {(q, o)}, ru)
  }

  lemma LoadingWellFormed(e: Block, o: Block, n: Block, q: Var, ru: Rules)
    requires e != o && e != n && o != n
    ensures WellFormed(Loading(e, o, n, q, ru))
  {
    hide Successors, TermUses;
    LoadingEdges(e, o, n, q, ru);
  }

  lemma LoadingEdges(e: Block, o: Block, n: Block, q: Var, ru: Rules)
    requires e != o && e != n && o != n
    ensures var p := Loading(e, o, n, q, ru);
            && (forall a, b :: a in p.blocks && b in p.blocks && b in Successors(p.term[a]) ==> a in p.preds[b])
            && forall b, u :: b in p.blocks ==> u !in TermUses(p.term[b])
  {
    var p := Loading(e, o, n, q, ru);
    forall a, b | a in p.blocks && b in p.blocks && b in Successors(p.term[a])
      ensures a in p.preds[b]
    {
    }
  }

  lemma LoadingRedirects(e: Block, o: Block, n: Block, q: Var, ru: Rules)
    requires e != o && e != n && o != n
    ensures Redirects(Loading(e, o, n, q, ru), LoadingThreaded(e, o, n, q, ru), e, o, n)
  {
    var p, p' := Loading(e, o, n, q, ru), LoadingThreaded(e, o, n, q, ru);
    assert [e][1..] == [];
    assert Others([e], e) == [];
    var goesTo := Retarget(Jump([o]), o, n);
    assert goesTo.succs == [n];
    assert p'.term == p.term[e := goesTo];
    assert [o] + [e] == [o, e];
    var preds := p.preds[o := []][n := [o] + [e]];
    assert p'.preds.Keys == preds.Keys;
    assert p'.preds[e] == preds[e] && p'.preds[o] == preds[o] && p'.preds[n] == preds[n];
    assert p'.preds == preds;
  }

  lemma LoadingThreads(e: Block, o: Block, n: Block, q: Var, ru: Rules, pos: Var -> nat, l: Lattice)
    requires e != o && e != n && o != n
    ensures Threads(Loading(e, o, n, q, ru), LoadingThreaded(e, o, n, q, ru), e, o, n, pos, l)
  {
    hide WellFormed, Redirects;
    var p, p' := Loading(e, o, n, q, ru), LoadingThreaded(e, o, n, q, ru);
    LoadingWellFormed(e, o, n, q, ru);
    LoadingRedirects(e, o, n, q, ru);
    RedirectedWellFormed(p, p', e, o, n);
    assert !DefinedIn(p, q, o);
    assert n in Successors(p.term[o]);
  }

  /** Nothing keeps q from being null before the load. */
  lemma LoadingNull(e: Block, o: Block, n: Block, q: Var, ru: Rules)
    requires e != o && e != n && o != n && WellFormed(Loading(e, o, n, q, ru))
    ensures !NotNullBefore(Loading(e, o, n, q, ru), e, o, q)
  {
    hide WellFormed;
    var p := Loading(e, o, n, q, ru);
    var at := Visit(e, map[q := ru.address(ru.nullId)]);
    var run := [at];
    assert IsRun(p, run) && run[0] in run;
    assert Occurs(p, at);
    assert Follows(p, at, Visit(o, at.vals));
    assert Coming(p, Variable(q), e, o) == Variable(q);
  }

  /** Asked for q in e, in o and in n the solver finds that it is not null in n.  Nothing is overdefined in o,
      so threadEdge drops nothing; but in the new function q can be null in n. */
  lemma LoadForgotten(e: Block, o: Block, n: Block, q: Var, ru: Rules)
    requires e != o && e != n && o != n
    ensures var p, p' := Loading(e, o, n, q, ru), LoadingThreaded(e, o, n, q, ru);
            var ke, ko, kn := Pair(e, Variable(q)), Pair(o, Variable(q)), Pair(n, Variable(q));
            var one := map[ke := Overdefined];
            var two := one[ko := NotKnown(ru.nullId)];
            && WellFormed(p) && WellFormed(p') && Redirects(p, p', e, o, n)
            && Queried(p, map[], ke) == Overdefined && !HasToWait(p, map[], ke)
            && Queried(p, one, ko) == NotKnown(ru.nullId) && !HasToWait(p, one, ko)
            && Queried(p, two, kn) == NotKnown(ru.nullId) && !HasToWait(p, two, kn)
            && BoundsBlock(p, Variable(q), n, NotKnown(ru.nullId))
               && !BoundsBlock(p', Variable(q), n, NotKnown(ru.nullId))
  {
    hide Redirects, WellFormed, BoundsBlock, Queried, HasToWait, Threads, NotNullBefore;
    var p, p' := Loading(e, o, n, q, ru), LoadingThreaded(e, o, n, q, ru);
    var pos: Var -> nat := v => 0;
    LoadingWellFormed(e, o, n, q, ru);
    LoadingThreads(e, o, n, q, ru, pos, Overdefined);
    LoadingNull(e, o, n, q, ru);
    ThreadsShape(p, p', e, o, n, pos, Overdefined);
    NotNullAfter(p, o, n, q);
    NullGetsThrough(p, p', e, o, n, pos, Overdefined, q);
    LoadingQueries(e, o, n, q, ru);
  }

  lemma LoadingQueries(e: Block, o: Block, n: Block, q: Var, ru: Rules)
    requires e != o && e != n && o != n && WellFormed(Loading(e, o, n, q, ru))
    ensures var p := Loading(e, o, n, q, ru);
            var ke, ko, kn := Pair(e, Variable(q)), Pair(o, Variable(q)), Pair(n, Variable(q));
            var one := map[ke := Overdefined];
            var two := one[ko := NotKnown(ru.nullId)];
            && Queried(p, map[], ke) == Overdefined && !HasToWait(p, map[], ke)
            && Queried(p, one, ko) == NotKnown(ru.nullId) && !HasToWait(p, one, ko)
            && Queried(p, two, kn) == NotKnown(ru.nullId) && !HasToWait(p, two, kn)
  {
    hide WellFormed;
    var p := Loading(e, o, n, q, ru);
    var ke, ko, kn := Pair(e, Variable(q)), Pair(o, Variable(q)), Pair(n, Variable(q));
    var one := map[ke := Overdefined];
    var two := one[ko := NotKnown(ru.nullId)];
    assert Step(p, map[], ke) == Got(Overdefined);
    LoadingMerge(p, one[ko := Overdefined], q, e, o, Overdefined);
    LoadingMerge(p, two[kn := Overdefined], q, o, n, NotKnown(ru.nullId));
    assert Step(p, one, ko) == Got(NotKnown(ru.nullId));
    assert Step(p, two, kn) == Got(NotKnown(ru.nullId));
  }

  /** One edge from a block that jumps: what is cached there. */
  lemma LoadingMerge(p: Program, cache: Cache, q: Var, a: Block, b: Block, r: Lattice)
    requires a in p.term && p.term[a].Jump? && Pair(a, Variable(q)) in cache && cache[Pair(a, Variable(q))] == r
    ensures EdgesOk(p, PredEdges(Variable(q), [a]))
            && MergeEdges(p, cache, PredEdges(Variable(q), [a]), b, Undefined) == Got(r)
  {
    var es := PredEdges(Variable(q), [a]);
    assert es == [(Variable(q), a)] && es[1..] == [];
    assert EdgeValue(p, cache, Variable(q), a, b) == Got(r);
  }

  // ---------------------------------------------------------------- a loop

  /** e: goto o.  o: v = phi [0, e], [1, m]; c = (v == 1); if (c) goto n; else goto m.  m: goto o. */
  function Looping(e: Block, o: Block, m: Block, n: Block, v: Var, c: Var, ru: Rules): Program {
    Program(e, {e, o, m, n}, map[e := [], o := [e, m], m := [o], n := [o]], {v, c},
            map[v := Phi(o, [(Const(ConstInt(1, 0)), e), (Const(ConstInt(1, 1)), m)]), c := Other(o)],
            map[e := Jump([o]), o := Branch(Variable(c), Some(Compare(EQ, Variable(v), ConstInt(1, 1), None)), n, m),
                m := Jump([o]), n := Jump([])], {}, ru)
  }

  /** From m, v is 1, so m can go to n at once. */
  function LoopingThreaded(e: Block, o: Block, m: Block, n: Block, v: Var, c: Var, ru: Rules): Program {
    Program(e, {e, o, m, n}, map[e := [], o := [e], m := [o], n := [o, m]], {v, c},
            map[v := Phi(o, [(Const(ConstInt(1, 0)), e)]), c := Other(o)],
            map[e := Jump([o]), o := Branch(Variable(c), Some(Compare(EQ, Variable(v), ConstInt(1, 1), None)), n, m),
                m := Jump([n]), n := Jump([])], {}, ru)
  }

  lemma LoopingWellFormed(e: Block, o: Block, m: Block, n: Block, v: Var, c: Var, ru: Rules)
    requires e != o && e != m && e != n && o != m && o != n && m != n && v != c
    ensures WellFormed(Looping(e, o, m, n, v, c, ru))
  {
    hide TermUses, Successors;
    LoopingEdges(e, o, m, n, v, c, ru);
    LoopingUses(e, o, m, n, v, c, ru);
  }

  lemma LoopingUses(e: Block, o: Block, m: Block, n: Block, v: Var, c: Var, ru: Rules)
    requires e != o && e != m && e != n && o != m && o != n && m != n && v != c
    ensures var p := Looping(e, o, m, n, v, c, ru);
            forall x, u :: x in p.blocks && u in TermUses(p.term[x]) ==> Within(p, u) && x == o
  {
    hide Successors;
    var p := Looping(e, o, m, n, v, c, ru);
    forall x, u | x in p.blocks && u in TermUses(p.term[x])
      ensures Within(p, u) && x == o
    {
      if x == o {
        assert TermUses(p.term[o]) == {Variable(c), Variable(v)};
        assert u == Variable(c) || u == Variable(v);
      }
    }
  }

  lemma LoopingEdges(e: Block, o: Block, m: Block, n: Block, v: Var, c: Var, ru: Rules)
    requires e != o && e != m && e != n && o != m && o != n && m != n && v != c
    ensures var p := Looping(e, o, m, n, v, c, ru);
            forall x, y :: x in p.blocks && y in p.blocks && y in Successors(p.term[x]) ==> x in p.preds[y]
  {
    var p := Looping(e, o, m, n, v, c, ru);
    assert Successors(p.term[o]) == [n, m];
    forall x, y | x in p.blocks && y in p.blocks && y in Successors(p.term[x])
      ensures x in p.preds[y]
    {
    }
  }

  lemma LoopingRedirects(e: Block, o: Block, m: Block, n: Block, v: Var, c: Var, ru: Rules)
    requires e != o && e != m && e != n && o != m && o != n && m != n && v != c
    ensures Redirects(Looping(e, o, m, n, v, c, ru), LoopingThreaded(e, o, m, n, v, c, ru), m, o, n)
  {
    hide Others, NotFrom, Retarget, RedirectIncoming;
    var p, p' := Looping(e, o, m, n, v, c, ru), LoopingThreaded(e, o, m, n, v, c, ru);
    OthersOfTwo(e, m);
    JumpRetargeted(o, n);
    assert p'.term == p.term[m := Jump([n])];
    var preds := p.preds[o := [e]][n := [o] + [m]];
    assert p'.preds.Keys == preds.Keys;
    assert p'.preds[e] == preds[e] && p'.preds[o] == preds[o] && p'.preds[m] == preds[m] && p'.preds[n] == preds[n];
    assert p'.preds == preds;
    EntryDropped((Const(ConstInt(1, 0)), e), (Const(ConstInt(1, 1)), m));
  }

  lemma OthersOfTwo(a: Block, b: Block)
    requires a != b
    ensures Others([a, b], b) == [a]
  {
    assert [a, b][1..] == [b] && [b][1..] == [];
    assert Others([b], b) == [];
    assert Others([a, b], b) == [a] + Others([a, b][1..], b);
  }

  lemma JumpRetargeted(o: Block, n: Block)
    ensures Retarget(Jump([o]), o, n) == Jump([n])
  {
    assert Retarget(Jump([o]), o, n).succs == [n];
  }

  lemma EntryDropped(x: (Value, Block), y: (Value, Block))
    requires x.1 != y.1
    ensures NotFrom([x, y], y.1) == [x]
  {
    assert [x, y][1..] == [y] && [y][1..] == [];
    assert NotFrom([y], y.1) == [];
    assert NotFrom([x, y], y.1) == [x] + NotFrom([x, y][1..], y.1);
  }

  lemma LoopingDecided(e: Block, o: Block, m: Block, n: Block, v: Var, c: Var, ru: Rules)
    requires e != o && e != m && e != n && o != m && o != n && m != n && v != c
             && WellFormed(Looping(e, o, m, n, v, c, ru))
    ensures Decided(Looping(e, o, m, n, v, c, ru), m, o, n, InRange(Single(1, 1)))
  {
    hide WellFormed, BoundsEdge, Coming, Goes;
    var p := Looping(e, o, m, n, v, c, ru);
    var t := p.term[o];
    assert Successors(t)[0] == n;
    forall x, b, to | ru.Allows(InRange(Single(1, 1)), x) && Goes(ru, t, x, b, to)
      ensures to == n
    {
      OneGoes(ru, v, c, n, m, x, b, to);
    }
    LoopingComes(e, o, m, n, v, c, ru);
  }

  lemma OneGoes(ru: Rules, v: Var, c: Var, n: Block, m: Block, x: int, b: bool, to: Block)
    requires ru.Allows(InRange(Single(1, 1)), x)
    requires Goes(ru, Branch(Variable(c), Some(Compare(EQ, Variable(v), ConstInt(1, 1), None)), n, m), x, b, to)
    ensures to == n
  {
    SingleHas(1, 1, x);
  }

  lemma LoopingComes(e: Block, o: Block, m: Block, n: Block, v: Var, c: Var, ru: Rules)
    requires e != o && e != m && e != n && o != m && o != n && m != n && v != c
             && WellFormed(Looping(e, o, m, n, v, c, ru))
    ensures var p := Looping(e, o, m, n, v, c, ru);
            IsPhiOf(p, Variable(v), o) && BoundsEdge(p, Coming(p, Variable(v), m, o), m, o, InRange(Single(1, 1)))
  {
    hide WellFormed, Occurs, Follows;
    var p := Looping(e, o, m, n, v, c, ru);
    var es := p.def[v].incoming;
    assert es[1..][0] == (Const(ConstInt(1, 1)), m);
    assert EntryFor(es, m, Variable(v)) == EntryFor(es[1..], m, Variable(v));
    assert Coming(p, Variable(v), m, o) == Const(ConstInt(1, 1));
    SingleHas(1, 1, 1);
  }

  /** Every path of the new function to another block than e visits o. */
  lemma LoopingDominates(e: Block, o: Block, m: Block, n: Block, v: Var, c: Var, ru: Rules, path: seq<Block>, b: Block)
    requires e != o && e != m && e != n && o != m && o != n && m != n
    requires IsPathAround(LoopingThreaded(e, o, m, n, v, c, ru), o, path, b)
    ensures b == e
  {
    hide IsPathAround;
    var p := LoopingThreaded(e, o, m, n, v, c, ru);
    if b != e {
      FirstEdge(p, o, path, b);
      assert false;
    }
  }

  lemma FirstEdge(p: Program, o: Block, path: seq<Block>, b: Block)
    requires IsPathAround(p, o, path, b) && b != p.entry
    ensures p.entry in p.term && exists c :: c in Successors(p.term[p.entry]) && c != o
  {
    hide Successors;
    assert path[0 + 1] in path;
  }

  lemma LoopingUsed(e: Block, o: Block, m: Block, n: Block, v: Var, c: Var, ru: Rules)
    requires e != o && e != m && e != n && o != m && o != n && m != n && v != c
    ensures var p' := LoopingThreaded(e, o, m, n, v, c, ru);
            UsedBelow(p', o) && !Around(p', o, m) && !Around(p', o, n)
  {
    var p' := LoopingThreaded(e, o, m, n, v, c, ru);
    forall b | b != e
      ensures !Around(p', o, b)
    {
      if path :| IsPathAround(p', o, path, b) {
        LoopingDominates(e, o, m, n, v, c, ru, path, b);
      }
    }
  }

  /** In n, v is 1: control gets there from o if it is. */
  lemma LoopingOne(e: Block, o: Block, m: Block, n: Block, v: Var, c: Var, ru: Rules)
    requires e != o && e != m && e != n && o != m && o != n && m != n && v != c
             && WellFormed(Looping(e, o, m, n, v, c, ru))
    ensures BoundsBlock(Looping(e, o, m, n, v, c, ru), Variable(v), n, InRange(Single(1, 1)))
  {
    hide WellFormed, Occurs, TakesPhi;
    var p := Looping(e, o, m, n, v, c, ru);
    forall at | Occurs(p, at) && at.block == n
      ensures ru.Allows(InRange(Single(1, 1)), ValueOf(p, at, Variable(v)))
    {
      var from := OccursAfter(p, at);
      assert from.block == o;
      SingleHas(1, 1, ValueOf(p, from, Variable(v)));
      assert v in p.vars;
    }
  }

  lemma LoopingZero(e: Block, o: Block, m: Block, n: Block, v: Var, c: Var, ru: Rules)
    requires e != o && e != m && e != n && o != m && o != n && m != n && v != c
             && WellFormed(LoopingThreaded(e, o, m, n, v, c, ru))
    ensures !BoundsBlock(LoopingThreaded(e, o, m, n, v, c, ru), Variable(v), n, InRange(Single(1, 1)))
  {
    hide WellFormed;
    var p := LoopingThreaded(e, o, m, n, v, c, ru);
    var vals := map[v := 0, c := 0];
    var run := [Visit(e, vals), Visit(o, vals), Visit(m, vals), Visit(n, vals)];
    assert Size(1) == 2;
    assert TakesPhi(p, run[0], run[1], v) by {
      assert p.def[v].incoming[0] == (Const(ConstInt(1, 0)), e);
    }
    assert Follows(p, run[0], run[1]);
    assert Follows(p, run[1], run[2]);
    assert Follows(p, run[2], run[3]);
    assert IsRun(p, run) && run[3] in run;
    assert Occurs(p, run[3]);
    SingleHas(1, 1, 0);
  }

  /** The new function is sound code, o dominates n, and what is tested in o is known when control comes
      from m; but in n the bound of v is wrong: it is the v of another turn of the loop. */
  lemma LoopValueStale(e: Block, o: Block, m: Block, n: Block, v: Var, c: Var, ru: Rules)
    requires e != o && e != m && e != n && o != m && o != n && m != n && v != c
    ensures var p, p', one := Looping(e, o, m, n, v, c, ru), LoopingThreaded(e, o, m, n, v, c, ru),
              InRange(Single(1, 1));
            && WellFormed(p) && WellFormed(p') && Redirects(p, p', m, o, n) && UsedBelow(p', o) && p.nonNull == {}
            && Decided(p, m, o, n, one) && InScope(p', o, Pair(n, Variable(v))) && !Around(p', o, m)
            && BoundsBlock(p, Variable(v), n, one) && !BoundsBlock(p', Variable(v), n, one)
  {
    hide WellFormed, Redirects, UsedBelow, Decided, Around, BoundsBlock;
    LoopingWellFormed(e, o, m, n, v, c, ru);
    LoopingRedirects(e, o, m, n, v, c, ru);
    RedirectedWellFormed(Looping(e, o, m, n, v, c, ru), LoopingThreaded(e, o, m, n, v, c, ru), m, o, n);
    LoopingUsed(e, o, m, n, v, c, ru);
    LoopingDecided(e, o, m, n, v, c, ru);
    LoopingOne(e, o, m, n, v, c, ru);
    LoopingZero(e, o, m, n, v, c, ru);
  }
}
