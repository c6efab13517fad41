// Runs of a function and of the function with an edge threaded past a block follow each other; which
// entries of the cache therefore stay right, and which do not.
module ThreadedRuns {
  import opened LatticeValues
  import opened Options
  import opened LazyValueProgram
  import opened LazyValueSolve
  import opened LazyValueInfo
  import opened LazyValueThreading
  import opened Maps

  // ---------------------------------------------------------------- one function, two visits

  /** Two visits of a block agree on everything but what o defines where o does not dominate. */
  ghost predicate Agree(p: Program, p': Program, o: Block, a: Visit, a': Visit) {
    && a.block == a'.block
    && forall v {:trigger FromBlock(p, Variable(v), o)} ::
         v in p.def && (FromBlock(p, Variable(v), o) ==> !Around(p', o, a.block)) ==>
         ValueOf(p, a, Variable(v)) == ValueOf(p, a', Variable(v))
  }

  lemma AgreeValue(p: Program, p': Program, o: Block, a: Visit, a': Visit, u: Value)
    requires Agree(p, p', o, a, a') && (u.Variable? ==> u.v in p.def)
             && (FromBlock(p, u, o) ==> !Around(p', o, a.block))
    ensures ValueOf(p, a, u) == ValueOf(p, a', u)
  {
    hide Around;
    if u.Variable? {
      assert FromBlock(p, Variable(u.v), o) == FromBlock(p, u, o);
    }
  }

  /** What b defines as there, everything else as before. */
  ghost function Carried(p: Program, b: Visit, before: Visit): Visit {
    Visit(b.block, Tabulate(p.def.Keys, v =>
      if FromBlock(p, Variable(v), b.block) then ValueOf(p, b, Variable(v)) else ValueOf(p, before, Variable(v))))
  }

  lemma CarriedIs(p: Program, b: Visit, before: Visit, v: Var)
    requires v in p.def
    ensures ValueOf(p, Carried(p, b, before), Variable(v))
            == ValueOf(p, if DefinedIn(p, v, b.block) then b else before, Variable(v))
  {
  }

  lemma CarriedAgrees(p: Program, p': Program, o: Block, a: Visit, a': Visit, b: Visit)
    requires Agree(p, p', o, a, a')
    requires forall v ::
               v in p.def && !DefinedIn(p, v, b.block) ==> ValueOf(p, b, Variable(v)) == ValueOf(p, a, Variable(v))
    requires b.block == o || (Around(p', o, a.block) ==> Around(p', o, b.block))
    ensures Agree(p, p', o, b, Carried(p, b, a'))
  {
    hide Carried, Around, ValueOf;
    var b' := Carried(p, b, a');
    assert b'.block == b.block by { CarriedBlock(p, b, a'); }
    forall v | v in p.def && (FromBlock(p, Variable(v), o) ==> !Around(p', o, b.block))
      ensures ValueOf(p, b, Variable(v)) == ValueOf(p, b', Variable(v))
    {
      CarriedIs(p, b, a', v);
      assert DefinedIn(p, v, o) ==> FromBlock(p, Variable(v), o);
    }
  }

  lemma CarriedBlock(p: Program, b: Visit, before: Visit)
    ensures Carried(p, b, before).block == b.block
  {
  }

  /** The uses of a block, in the function and in the new one. */
  lemma UsesClear(p: Program, p': Program, pred: Block, o: Block, n: Block, c: Block, u: Value)
    requires Shape(p, p', pred, o, n) && UsedBelow(p', o) && c in p.blocks && u in TermUses(p.term[c])
             && FromBlock(p, u, o)
    ensures !Around(p', o, c)
  {
    hide WellFormed, Around;
    KeysSame(p);
    assert TermUses(p'.term[c]) == TermUses(p.term[c]);
    assert FromBlock(p', u, o);
  }

  /** The functions, without what is said about runs. */
  ghost predicate Shape(p: Program, p': Program, pred: Block, o: Block, n: Block) {
    && WellFormed(p) && pred in p.blocks && o in p.blocks && n in p.blocks && pred != o && n != o
    && n !in Successors(p.term[pred]) && Redirects(p, p', pred, o, n) && WellFormed(p')
  }

  lemma ThreadsShape(p: Program, p': Program, pred: Block, o: Block, n: Block, pos: Var -> nat, l: Lattice)
    requires Threads(p, p', pred, o, n, pos, l)
    ensures Shape(p, p', pred, o, n) && UsedBelow(p', o)
  {
    hide WellFormed, Redirects, UsedBelow, Decided, Successors, PhisFor, Ordered;
  }

  lemma BranchesAgree(p: Program, p': Program, pred: Block, o: Block, n: Block, a: Visit, a': Visit, t: Block)
    requires Shape(p, p', pred, o, n) && UsedBelow(p', o) && Agree(p, p', o, a, a') && a.block in p.blocks
             && Branches(p, a, t)
    ensures Branches(p, a', t)
  {
    hide Compares, Agree, Redirects, UsedBelow, WellFormed, Successors, FromBlock, Around;
    KeysSame(p);
    forall u | u in TermUses(p.term[a.block])
      ensures ValueOf(p, a, u) == ValueOf(p, a', u)
    {
      UsesWithin(p, a.block, u);
      if FromBlock(p, u, o) {
        UsesClear(p, p', pred, o, n, a.block, u);
      }
      AgreeValue(p, p', o, a, a', u);
    }
    SameBlock(p, p', o, a, a');
    match p.term[a.block]
    case Jump(_) =>
    case Branch(cond, cmp, yes, no) =>
      assert cond in TermUses(p.term[a.block]);
      if cmp.Some? {
        assert cmp.value.operand in TermUses(p.term[a.block]);
      }
    case Switch(on, width, cases, default) =>
      assert on in TermUses(p.term[a.block]);
  }

  lemma SameBlock(p: Program, p': Program, o: Block, a: Visit, a': Visit)
    requires Agree(p, p', o, a, a')
    ensures a.block == a'.block
  {
  }

  lemma KeysSame(p: Program)
    requires WellFormed(p)
    ensures p.term.Keys == p.blocks && p.preds.Keys == p.blocks && p.def.Keys == p.vars
  {
  }

  lemma RedirectedBranch(p: Program, p': Program, pred: Block, o: Block, n: Block, a: Visit, t: Block)
    requires pred in p.term && o in p.preds && n in p.preds && Redirects(p, p', pred, o, n) && a.block == pred
             && Branches(p', a, t)
    ensures exists c :: Branches(p, a, c) && t == Redirect(c, o, n)
  {
    hide Compares;
    match p.term[pred]
    case Jump(succs) =>
      var i :| 0 <= i < |succs| && t == Redirect(succs[i], o, n);
      assert Branches(p, a, succs[i]);
    case Branch(cond, cmp, yes, no) =>
      var c := if ValueOf(p, a, cond) % 2 == 1 then yes else no;
      SameCompared(p, p', a, cmp);
      assert Branches(p, a, c);
    case Switch(on, width, cases, default) =>
      var cases' := p'.term[pred].cases;
      var x := ValueOf(p, a, on);
      assert forall i :: IsCase(cases', width, x, i) <==> IsCase(cases, width, x, i);
      if i :| IsCase(cases', width, x, i) && t == cases'[i].1 {
        assert IsCase(cases, width, x, i);
        assert Branches(p, a, cases[i].1);
      } else {
        assert Branches(p, a, default);
      }
  }

  lemma SameCompared(p: Program, p': Program, a: Visit, cmp: Option<Compare>)
    requires p'.rules == p.rules
    ensures cmp.Some? ==> forall b :: Compared(p', a, cmp.value, b) <==> Compared(p, a, cmp.value, b)
  {
    hide Compares;
  }

  lemma SameComputes(p: Program, p': Program, pred: Block, o: Block, n: Block, at: Visit, v: Var)
    requires pred in p.term && o in p.preds && n in p.preds && Redirects(p, p', pred, o, n) && v in p.def
    ensures Computes(p', at, v) <==> Computes(p, at, v)
    ensures DefinedIn(p', v, at.block) <==> DefinedIn(p, v, at.block)
  {
  }

  lemma RunMore(p: Program, run: seq<Visit>, at: Visit)
    requires WellFormed(p) && IsRun(p, run) && Follows(p, run[|run| - 1], at) && at.block in p.blocks
    requires forall v :: v in p.vars ==> Computes(p, at, v)
    ensures IsRun(p, run + [at])
  {
    hide Follows, Computes, WellFormed;
    KeysSame(p);
    var longer := run + [at];
    forall i, v | 0 <= i < |longer| && v in p.vars
      ensures Computes(p, longer[i], v)
    {
      if i < |run| { assert Computes(p, run[i], v); }
    }
    forall i | 0 <= i < |longer| - 1
      ensures Follows(p, longer[i], longer[i + 1])
    {
      if i < |run| - 1 { assert Follows(p, run[i], run[i + 1]); }
    }
  }

  lemma SameValues(p: Program, p': Program, at: Visit, v: Value)
    requires p'.rules == p.rules
    ensures ValueOf(p', at, v) == ValueOf(p, at, v)
  {
  }

  lemma SameBranches(p: Program, p': Program, a: Visit, t: Block)
    requires a.block in p.term && a.block in p'.term && p'.term[a.block] == p.term[a.block] && p'.rules == p.rules
             && Branches(p', a, t)
    ensures Branches(p, a, t)
  {
    hide Compares;
    match p.term[a.block]
    case Branch(cond, cmp, yes, no) => SameCompared(p, p', a, cmp);
    case Switch(on, width, cases, default) => assert ValueOf(p', a, on) == ValueOf(p, a, on);
    case _ =>
  }

  lemma FollowsBranches(p: Program, from: Visit, at: Visit)
    requires WellFormed(p) && Follows(p, from, at)
    ensures from.block in p.term && Branches(p, from, at.block)
  {
  }

  lemma BranchesToSuccessor(p: Program, a: Visit, t: Block)
    requires a.block in p.term && Branches(p, a, t)
    ensures t in Successors(p.term[a.block])
  {
    match p.term[a.block]
    case Switch(on, width, cases, default) =>
      var rest := seq(|cases|, i requires 0 <= i < |cases| => cases[i].1);
      if t != default {
        var i :| IsCase(cases, width, ValueOf(p, a, on), i) && t == cases[i].1;
        assert rest[i] == t;
      }
    case _ =>
  }

  lemma RunPrefix(p: Program, run: seq<Visit>, k: nat)
    requires WellFormed(p) && IsRun(p, run) && 0 < k <= |run|
    ensures IsRun(p, run[..k])
  {
    hide WellFormed, Computes, Follows;
    KeysSame(p);
    forall i, v | 0 <= i < k && v in p.vars
      ensures Computes(p, run[..k][i], v)
    {
      assert Computes(p, run[i], v);
    }
    forall i | 0 <= i < k - 1
      ensures Follows(p, run[..k][i], run[..k][i + 1])
    {
      assert Follows(p, run[i], run[i + 1]);
    }
  }

  // ---------------------------------------------------------------- a step that both have

  /** What a block computes and dereferences. */
  lemma ComputesAgree(p: Program, p': Program, pred: Block, o: Block, n: Block, b: Visit, b': Visit, v: Var)
    requires Shape(p, p', pred, o, n) && UsedBelow(p', o) && Agree(p, p', o, b, b') && v in p.def && Computes(p, b, v)
    ensures Computes(p, b', v)
  {
    hide Agree, Around, Successors;
    KeysSame(p);
    SameBlock(p, p', o, b, b');
    SameDefs(p, p', pred, o, n, v);
    if DefinedIn(p, v, b.block) || (v, b.block) in p.nonNull {
      assert FromBlock(p', Variable(v), o) ==> FromBlock(p, Variable(v), o);
      AroundSelf(p', o);
      AgreeValue(p, p', o, b, b', Variable(v));
    }
    if DefinedIn(p, v, b.block) && p.def[v].Arith? {
      AgreeValue(p, p', o, b, b', p.def[v].operand);
    }
  }

  lemma AroundSelf(p: Program, o: Block)
    ensures !Around(p, o, o)
  {
    forall path
      ensures !IsPathAround(p, o, path, o)
    {
      if path != [] {
        assert path[|path| - 1] in path;
      }
    }
  }

  lemma SameKeys(p: Program, p': Program, pred: Block, o: Block, n: Block)
    requires Shape(p, p', pred, o, n)
    ensures p'.def.Keys == p.def.Keys && p'.vars == p.vars && p'.blocks == p.blocks && p'.rules == p.rules
            && p'.entry == p.entry
  {
    hide WellFormed, Successors, Retarget, RedirectIncoming;
  }

  lemma SameDefs(p: Program, p': Program, pred: Block, o: Block, n: Block, v: Var)
    requires Shape(p, p', pred, o, n) && v in p.def
    ensures p'.def.Keys == p.def.Keys && p'.rules == p.rules && p'.nonNull == p.nonNull
    ensures p'.def[v] == RedirectDef(p, p.def[v], pred, o, n)
    ensures forall u, b :: FromBlock(p', u, b) <==> FromBlock(p, u, b)
  {
    hide WellFormed, Successors, Retarget, RedirectIncoming;
    forall u, b
      ensures FromBlock(p', u, b) <==> FromBlock(p, u, b)
    {
      if u.Variable? && u.v in p.def {
        assert p'.def[u.v] == RedirectDef(p, p.def[u.v], pred, o, n);
      }
    }
  }

  /** A phi that takes a value from a block other than pred, or is neither in n nor in o. */
  lemma PhiShared(p: Program, p': Program, pred: Block, o: Block, n: Block, v: Var, e: (Value, Block))
    requires Shape(p, p', pred, o, n) && v in p.def && p.def[v].Phi?
             && (e.1 != pred || (p.def[v].block != n && p.def[v].block != o))
    ensures p'.def[v].Phi? && (e in p'.def[v].incoming <==> e in p.def[v].incoming)
  {
    hide WellFormed, Successors, Retarget;
    SameDefs(p, p', pred, o, n, v);
    RedirectedEntries(p, p.def[v].incoming, pred, o, e);
  }

  lemma EntryValue(p: Program, p': Program, pred: Block, o: Block, n: Block, a: Visit, a': Visit, v: Var,
                   e: (Value, Block))
    requires Shape(p, p', pred, o, n) && UsedBelow(p', o) && Agree(p, p', o, a, a')
    requires v in p.def && p'.def.Keys == p.def.Keys && p'.def[v].Phi? && e in p'.def[v].incoming && e.1 == a.block
    ensures ValueOf(p, a, e.0) == ValueOf(p, a', e.0)
  {
    hide Agree, Around, Successors, Redirects;
    SameDefs(p, p', pred, o, n, v);
    var i :| 0 <= i < |p'.def[v].incoming| && p'.def[v].incoming[i] == e;
    assert Within(p', e.0);
    AgreeValue(p, p', o, a, a', e.0);
  }

  lemma FollowsKeeps(p: Program, from: Visit, at: Visit, v: Var)
    requires WellFormed(p) && Follows(p, from, at) && v in p.def
    ensures !DefinedIn(p, v, at.block) ==> ValueOf(p, at, Variable(v)) == ValueOf(p, from, Variable(v))
    ensures DefinedIn(p, v, at.block) && p.def[v].Phi? ==> TakesPhi(p, from, at, v)
  {
    hide TakesPhi, Branches;
  }

  /** A step of a run. */
  ghost predicate Steps(p: Program, a: Visit, b: Visit)
    requires WellFormed(p)
  {
    Follows(p, a, b) && b.block in p.blocks && forall v :: v in p.def ==> Computes(p, b, v)
  }

  lemma AgreeBoth(p: Program, p': Program, o: Block, a: Visit, a': Visit)
    requires Agree(p, p', o, a, a')
    ensures Agree(p, p', o, a', a) && a'.block == a.block
  {
    hide Around;
    forall v | v in p.def && (FromBlock(p, Variable(v), o) ==> !Around(p', o, a'.block))
      ensures ValueOf(p, a', Variable(v)) == ValueOf(p, a, Variable(v))
    {
      assert FromBlock(p, Variable(v), o) ==> !Around(p', o, a.block);
    }
  }

  lemma CarriedComputes(p: Program, p': Program, pred: Block, o: Block, n: Block, b: Visit, c: Visit)
    requires Shape(p, p', pred, o, n) && UsedBelow(p', o) && Agree(p, p', o, b, c)
    requires p'.def.Keys == p.def.Keys && forall v :: v in p.def ==> Computes(p, b, v) || Computes(p', b, v)
    ensures forall v :: v in p.def ==> Computes(p, c, v) && Computes(p', c, v)
  {
    hide Computes, Agree, Around, Successors, Redirects, UsedBelow, WellFormed;
    KeysSame(p);
    SameKeys(p, p', pred, o, n);
    forall v | v in p.def
      ensures Computes(p, c, v) && Computes(p', c, v)
    {
      SameDefs(p, p', pred, o, n, v);
      SameComputes(p, p', pred, o, n, b, v);
      ComputesAgree(p, p', pred, o, n, b, c, v);
      SameComputes(p, p', pred, o, n, c, v);
    }
  }

  /** A step of the new function that is not the redirected edge. */
  lemma StepForth(p: Program, p': Program, pred: Block, o: Block, n: Block, a: Visit, a': Visit, b': Visit)
    requires Shape(p, p', pred, o, n) && UsedBelow(p', o) && Agree(p, p', o, a', a) && a.block in p.blocks
    requires Steps(p', a', b') && !(a'.block == pred && b'.block == n)
    ensures Steps(p, a, Carried(p, b', a)) && Agree(p, p', o, b', Carried(p, b', a))
  {
    hide Agree, Around, Successors, Redirects, UsedBelow, Computes, Branches, WellFormed, Carried, TakesPhi;
    KeysSame(p);
    KeysSame(p');
    SameKeys(p, p', pred, o, n);
    AgreeBoth(p, p', o, a', a);
    var b := Carried(p, b', a);
    CarriedBlock(p, b', a);
    BranchesForth(p, p', pred, o, n, a', b'.block);
    BranchesAgree(p, p', pred, o, n, a', a, b'.block);
    forall v | v in p.def
      ensures !DefinedIn(p, v, b'.block) ==> ValueOf(p, b', Variable(v)) == ValueOf(p, a', Variable(v))
      ensures !DefinedIn(p, v, b'.block) ==> ValueOf(p, b, Variable(v)) == ValueOf(p, a, Variable(v))
      ensures DefinedIn(p, v, b'.block) && p.def[v].Phi? ==> TakesPhi(p, a, b, v)
    {
      SameDefs(p, p', pred, o, n, v);
      FollowsKeeps(p', a', b', v);
      CarriedIs(p, b', a, v);
      SameValues(p, p', b', Variable(v));
      SameValues(p, p', a', Variable(v));
      if DefinedIn(p, v, b'.block) && p.def[v].Phi? {
        PhiForth(p, p', pred, o, n, a, a', b, b', v);
      }
    }
    StepAround(p', o, a', b');
    CarriedAgrees(p, p', o, a', a, b');
    CarriedComputes(p, p', pred, o, n, b', b);
  }

  lemma StepAround(p: Program, o: Block, a: Visit, b: Visit)
    requires WellFormed(p) && Follows(p, a, b)
    ensures b.block == o || (Around(p, o, a.block) ==> Around(p, o, b.block))
  {
    hide Around, Successors, WellFormed;
    FollowsBranches(p, a, b);
    BranchesToSuccessor(p, a, b.block);
    if b.block != o && Around(p, o, a.block) {
      AroundNext(p, o, a.block, b.block);
    }
  }

  lemma BranchesForth(p: Program, p': Program, pred: Block, o: Block, n: Block, a: Visit, t: Block)
    requires Shape(p, p', pred, o, n) && a.block in p.blocks && a.block in p'.term && Branches(p', a, t)
             && !(a.block == pred && t == n)
    ensures Branches(p, a, t) && !(a.block == pred && t == o)
  {
    hide Successors, WellFormed, Compares, Branches;
    KeysSame(p);
    if a.block == pred {
      RedirectedBranch(p, p', pred, o, n, a, t);
    } else {
      SameBranches(p, p', a, t);
    }
  }

  lemma PhiForth(p: Program, p': Program, pred: Block, o: Block, n: Block, a: Visit, a': Visit, b: Visit, b': Visit,
                 v: Var)
    requires Shape(p, p', pred, o, n) && UsedBelow(p', o) && Agree(p, p', o, a', a)
    requires a'.block != pred || (b'.block != n && b'.block != o)
    requires v in p.def && p.def[v].Phi? && p.def[v].block == b'.block && v in p'.def && p'.def[v].Phi?
             && TakesPhi(p', a', b', v)
    requires ValueOf(p, b, Variable(v)) == ValueOf(p, b', Variable(v))
    ensures TakesPhi(p, a, b, v)
  {
    hide Agree, Around, Successors, Redirects, UsedBelow, WellFormed;
    SameDefs(p, p', pred, o, n, v);
    SameBlock(p, p', o, a', a);
    var es := p'.def[v].incoming;
    var i :| 0 <= i < |es| && es[i].1 == a'.block && ValueOf(p', b', Variable(v)) == ValueOf(p', a', es[i].0);
    PhiShared(p, p', pred, o, n, v, es[i]);
    EntryValue(p, p', pred, o, n, a', a, v, es[i]);
    SameValues(p, p', b', Variable(v));
    SameValues(p, p', a', es[i].0);
    var j :| 0 <= j < |p.def[v].incoming| && p.def[v].incoming[j] == es[i];
  }

  /** A step of the function that does not enter o from pred. */
  lemma StepBack(p: Program, p': Program, pred: Block, o: Block, n: Block, a: Visit, a': Visit, b: Visit)
    requires Shape(p, p', pred, o, n) && UsedBelow(p', o) && Agree(p, p', o, a, a') && a.block in p.blocks
    requires Steps(p, a, b) && !(a.block == pred && b.block == o)
    ensures Steps(p', a', Carried(p, b, a')) && Agree(p, p', o, b, Carried(p, b, a'))
  {
    hide Agree, Around, Successors, Redirects, UsedBelow, Computes, Branches, WellFormed, Carried, TakesPhi;
    KeysSame(p);
    KeysSame(p');
    SameKeys(p, p', pred, o, n);
    AgreeBoth(p, p', o, a, a');
    var b' := Carried(p, b, a');
    CarriedBlock(p, b, a');
    BranchesAgree(p, p', pred, o, n, a, a', b.block);
    BranchesBack(p, p', pred, o, n, a', b.block);
    EdgeNotNew(p, p', pred, o, n, a, b);
    forall v | v in p.def
      ensures !DefinedIn(p, v, b.block) ==> ValueOf(p, b, Variable(v)) == ValueOf(p, a, Variable(v))
      ensures v in p'.def
              && (!DefinedIn(p', v, b.block) ==> ValueOf(p', b', Variable(v)) == ValueOf(p', a', Variable(v)))
      ensures DefinedIn(p', v, b.block) && p'.def[v].Phi? ==> TakesPhi(p', a', b', v)
    {
      SameDefs(p, p', pred, o, n, v);
      FollowsKeeps(p, a, b, v);
      CarriedIs(p, b, a', v);
      SameValues(p, p', b', Variable(v));
      SameValues(p, p', a', Variable(v));
      if DefinedIn(p, v, b.block) && p.def[v].Phi? {
        PhiBack(p, p', pred, o, n, a, a', b, b', v);
      }
    }
    SuccessorStays(p, p', pred, o, n, a, b);
    CarriedAgrees(p, p', o, a, a', b);
    CarriedComputes(p, p', pred, o, n, b, b');
  }

  lemma BranchesBack(p: Program, p': Program, pred: Block, o: Block, n: Block, a: Visit, t: Block)
    requires Shape(p, p', pred, o, n) && a.block in p.blocks && a.block in p.term && Branches(p, a, t)
    ensures a.block in p'.term && Branches(p', a, if a.block == pred then Redirect(t, o, n) else t)
  {
    hide Successors, WellFormed, Branches, Retarget;
    KeysSame(p);
    SameKeys(p, p', pred, o, n);
    if a.block != pred {
      SameBranches(p', p, a, t);
    } else {
      RetargetBranches(p, p', o, n, a, t);
    }
  }

  /** A retargeted terminator branches where the terminator did, or to n in place of o. */
  lemma RetargetBranches(p: Program, p': Program, o: Block, n: Block, a: Visit, t: Block)
    requires p'.rules == p.rules && a.block in p.term && a.block in p'.term
             && p'.term[a.block] == Retarget(p.term[a.block], o, n)
    requires Branches(p, a, t)
    ensures Branches(p', a, Redirect(t, o, n))
  {
    hide Compares;
    match p.term[a.block]
    case Jump(succs) =>
      var i :| 0 <= i < |succs| && t == succs[i];
      assert p'.term[a.block].succs[i] == Redirect(t, o, n);
    case Branch(cond, cmp, yes, no) =>
      SameCompared(p, p', a, cmp);
      SameValues(p, p', a, cond);
    case Switch(on, width, cases, default) =>
      SameValues(p, p', a, on);
      RetargetedCases(cases, width, o, n, ValueOf(p, a, on), p'.term[a.block].cases);
      if i :| IsCase(cases, width, ValueOf(p, a, on), i) && t == cases[i].1 {
        assert IsCase(p'.term[a.block].cases, width, ValueOf(p, a, on), i);
      }
  }

  lemma RetargetedCases(cases: seq<(int, Block)>, width: Width, o: Block, n: Block, x: int, cases': seq<(int, Block)>)
    requires |cases'| == |cases|
             && forall i :: 0 <= i < |cases| ==> cases'[i] == (cases[i].0, Redirect(cases[i].1, o, n))
    ensures forall i :: IsCase(cases', width, x, i) <==> IsCase(cases, width, x, i)
  {
  }

  /** There is no edge from pred to n yet. */
  lemma EdgeNotNew(p: Program, p': Program, pred: Block, o: Block, n: Block, a: Visit, b: Visit)
    requires Shape(p, p', pred, o, n) && Follows(p, a, b)
    ensures !(a.block == pred && b.block == n)
  {
    hide Successors, WellFormed, Redirects;
    FollowsBranches(p, a, b);
    BranchesToSuccessor(p, a, b.block);
  }

  lemma SuccessorStays(p: Program, p': Program, pred: Block, o: Block, n: Block, a: Visit, b: Visit)
    requires Shape(p, p', pred, o, n) && Follows(p, a, b) && !(a.block == pred && b.block == o)
    ensures b.block == o || (Around(p', o, a.block) ==> Around(p', o, b.block))
  {
    hide Successors, WellFormed, Around, Branches;
    FollowsBranches(p, a, b);
    KeysSame(p);
    BranchesBack(p, p', pred, o, n, a, b.block);
    BranchesToSuccessor(p', a, b.block);
    if b.block != o && Around(p', o, a.block) {
      AroundNext(p', o, a.block, b.block);
    }
  }

  lemma PhiBack(p: Program, p': Program, pred: Block, o: Block, n: Block, a: Visit, a': Visit, b: Visit, b': Visit,
                v: Var)
    requires Shape(p, p', pred, o, n) && UsedBelow(p', o) && Agree(p, p', o, a, a')
             && (a.block != pred || (b.block != n && b.block != o))
    requires v in p.def && p.def[v].Phi? && p.def[v].block == b.block && TakesPhi(p, a, b, v)
    requires ValueOf(p, b', Variable(v)) == ValueOf(p, b, Variable(v))
    ensures v in p'.def && p'.def[v].Phi? && TakesPhi(p', a', b', v)
  {
    hide Agree, Around, Successors, Redirects, UsedBelow, WellFormed;
    SameDefs(p, p', pred, o, n, v);
    SameBlock(p, p', o, a, a');
    var es := p.def[v].incoming;
    var i :| 0 <= i < |es| && es[i].1 == a.block && ValueOf(p, b, Variable(v)) == ValueOf(p, a, es[i].0);
    PhiShared(p, p', pred, o, n, v, es[i]);
    EntryValue(p, p', pred, o, n, a, a', v, es[i]);
    SameValues(p, p', b', Variable(v));
    SameValues(p, p', a', es[i].0);
    var j :| 0 <= j < |p'.def[v].incoming| && p'.def[v].incoming[j] == es[i];
  }

  // ---------------------------------------------------------------- entering a block

  /** Not null, and odd or even as asked. */
  function Pick(avoid: int, odd: bool): (x: int)
    ensures x != avoid && (x % 2 == 1 <==> odd)
  {
    var x := if odd then 1 else 0;
    if x == avoid then x + 2 else x
  }

  /** What v is at the end of block b after a visit of another block; what b makes itself can be anything
      that is not null. */
  ghost function Made(p: Program, pos: Var -> nat, a: Visit, b: Block, odd: bool, v: Var): int
    decreases pos(v)
  {
    if !FromBlock(p, Variable(v), b) then ValueOf(p, a, Variable(v))
    else
      match p.def[v]
      case Phi(_, es) => ValueOf(p, a, EntryFor(es, a.block, Variable(v)))
      case Arith(_, op, width, operand, rhs) =>
        if rhs.VarRhs? || op.Unhandled? then Pick(p.rules.address(p.rules.nullId), odd)
        else
          var x := if FromBlock(p, operand, b)
            && pos(operand.v) < pos(v) then Made(p, pos, a, b, odd, operand.v) else ValueOf(p, a, operand);
          p.rules.eval(op, width, x, if rhs.ConstRhs? then rhs.k else 0)
      case _ => Pick(p.rules.address(p.rules.nullId), odd)
  }

  ghost function Entered(p: Program, pos: Var -> nat, a: Visit, b: Block, odd: bool): Visit {
    Visit(b, Tabulate(p.def.Keys, v => Made(p, pos, a, b, odd, v)))
  }

  lemma EnteredIs(p: Program, pos: Var -> nat, a: Visit, b: Block, odd: bool, v: Var)
    requires v in p.def
    ensures ValueOf(p, Entered(p, pos, a, b, odd), Variable(v)) == Made(p, pos, a, b, odd, v)
    ensures Entered(p, pos, a, b, odd).block == b
  {
    hide Made;
  }

  lemma EnteredFollows(p: Program, pos: Var -> nat, a: Visit, b: Block, odd: bool)
    requires WellFormed(p) && a.block in p.blocks && b in p.blocks && Branches(p, a, b) && PhisFor(p, a.block, b)
    ensures Follows(p, a, Entered(p, pos, a, b, odd))
  {
    hide WellFormed, Branches, Entered, PhisFor;
    KeysSame(p);
    var m := Entered(p, pos, a, b, odd);
    EnteredBlock(p, pos, a, b, odd);
    forall v | v in p.vars
      ensures !DefinedIn(p, v, b) ==> ValueOf(p, m, Variable(v)) == ValueOf(p, a, Variable(v))
      ensures DefinedIn(p, v, b) && p.def[v].Phi? ==> TakesPhi(p, a, m, v)
    {
      EnteredIs(p, pos, a, b, odd, v);
      if DefinedIn(p, v, b) && p.def[v].Phi? {
        EntryListed(p, a.block, b, v);
      }
    }
  }

  lemma EnteredBlock(p: Program, pos: Var -> nat, a: Visit, b: Block, odd: bool)
    ensures Entered(p, pos, a, b, odd).block == b
  {
  }

  lemma EntryListed(p: Program, a: Block, b: Block, v: Var)
    requires PhisFor(p, a, b) && v in p.def && p.def[v].Phi? && p.def[v].block == b
    ensures exists i ::
              0 <= i < |p.def[v].incoming| && p.def[v].incoming[i] == (EntryFor(p.def[v].incoming, a, Variable(v)), a)
  {
    hide EntryFor;
  }

  /** What b dereferences must not be null there. */
  lemma EnteredComputes(p: Program, pos: Var -> nat, a: Visit, b: Block, odd: bool, v: Var)
    requires WellFormed(p) && b in p.blocks && Ordered(p, pos, b) && v in p.def
    requires (v, b) in p.nonNull && DefinedIn(p, v, b) ==> !p.def[v].Arith?
    requires DereferencedIn(p, v, b) ==>
               ValueOf(p, a, Coming(p, Variable(v), a.block, b)) != p.rules.address(p.rules.nullId)
    ensures Computes(p, Entered(p, pos, a, b, odd), v)
  {
    hide WellFormed, Entered, Made, ValueOf;
    KeysSame(p);
    var m := Entered(p, pos, a, b, odd);
    EnteredBlock(p, pos, a, b, odd);
    EnteredIs(p, pos, a, b, odd, v);
    if !DefinedIn(p, v, b) {
      MadeBefore(p, pos, a, b, odd, v);
    } else {
      match p.def[v]
      case Phi(_, _) => MadePhi(p, pos, a, b, odd, v);
      case Arith(_, op, _, operand, rhs) =>
        if !rhs.VarRhs? && !op.Unhandled? {
          OperandMade(p, pos, a, b, odd, v);
        }
      case _ => MadeFresh(p, pos, a, b, odd, v);
    }
  }

  lemma MadeBefore(p: Program, pos: Var -> nat, a: Visit, b: Block, odd: bool, v: Var)
    requires v in p.def && !DefinedIn(p, v, b)
    ensures Made(p, pos, a, b, odd, v) == ValueOf(p, a, Variable(v))
            && Coming(p, Variable(v), a.block, b) == Variable(v)
  {
  }

  lemma MadePhi(p: Program, pos: Var -> nat, a: Visit, b: Block, odd: bool, v: Var)
    requires v in p.def && DefinedIn(p, v, b) && p.def[v].Phi?
    ensures Made(p, pos, a, b, odd, v) == ValueOf(p, a, Coming(p, Variable(v), a.block, b))
  {
  }

  lemma MadeFresh(p: Program, pos: Var -> nat, a: Visit, b: Block, odd: bool, v: Var)
    requires v in p.def && DefinedIn(p, v, b) && !p.def[v].Phi? && !p.def[v].Arith?
    ensures Made(p, pos, a, b, odd, v) == Pick(p.rules.address(p.rules.nullId), odd)
  {
  }

  lemma OperandMade(p: Program, pos: Var -> nat, a: Visit, b: Block, odd: bool, v: Var)
    requires WellFormed(p) && Ordered(p, pos, b) && v in p.def && DefinedIn(p, v, b) && p.def[v].Arith?
    requires !p.def[v].rhs.VarRhs? && !p.def[v].op.Unhandled?
    ensures var d := p.def[v];
            Made(p, pos, a, b, odd, v)
            == p.rules.eval(d.op, d.width, ValueOf(p, Entered(p, pos, a, b, odd), d.operand), if d.rhs.ConstRhs?
              then d.rhs.k else 0)
  {
    hide Entered;
    var d := p.def[v];
    assert Within(p, d.operand);
    if d.operand.Variable? {
      EnteredIs(p, pos, a, b, odd, d.operand.v);
    } else {
      assert ValueOf(p, Entered(p, pos, a, b, odd), d.operand) == ValueOf(p, a, d.operand);
    }
  }

  // ---------------------------------------------------------------- passing o

  /** How a comparison comes out. */
  ghost function Odd(ru: Rules, t: Term, x: int): bool {
    if !(t.Branch? && t.cmp.Some?) then false
    else
      match t.cmp.value.c
      case ConstInt(w, k) => Compares(t.cmp.value.pred, w, x, k)
      case ConstOther(id) => if t.cmp.value.pred == EQ then x == ru.address(id) else x != ru.address(id)
  }

  /** What is tested in o, in terms of pred. */
  lemma TestedComes(p: Program, pred: Block, o: Block, n: Block, l: Lattice, a: Visit, m: Visit, v: Value)
    requires WellFormed(p) && Follows(p, a, m) && a.block == pred && m.block == o && PhisFor(p, pred, o) && Within(p, v)
    requires FromBlock(p, v, o) ==> IsPhiOf(p, v, o)
    ensures ValueOf(p, m, v) == ValueOf(p, a, Coming(p, v, pred, o))
  {
    hide WellFormed, Follows;
    KeysSame(p);
    if v.Variable? {
      FollowsKeeps(p, a, m, v.v);
      if DefinedIn(p, v.v, o) {
        var es := p.def[v.v].incoming;
        var i :| 0 <= i < |es| && es[i].1 == pred && ValueOf(p, m, Variable(v.v)) == ValueOf(p, a, es[i].0);
        assert es[i] in es;
      }
    }
  }

  /** Control that gets to o from pred leaves it for n. */
  lemma LeavesForNew(p: Program, pred: Block, o: Block, n: Block, l: Lattice, a: Visit, m: Visit, t: Block)
    requires WellFormed(p) && o in p.blocks && Decided(p, pred, o, n, l) && PhisFor(p, pred, o)
    requires Occurs(p, a) && Follows(p, a, m) && a.block == pred && m.block == o && Branches(p, m, t)
    ensures t == n
  {
    hide WellFormed, Follows, Occurs, Compares, Coming, Successors;
    KeysSame(p);
    var term := p.term[o];
    var x := ValueOf(p, m, Tested(term));
    if !term.Jump? {
      TestedAllowed(p, pred, o, n, l, a, m);
    }
    BranchesGoes(p, m, t);
  }

  lemma BranchesGoes(p: Program, m: Visit, t: Block)
    requires m.block in p.term && Branches(p, m, t)
    requires p.term[m.block].Branch? && p.term[m.block].cmp.Some? ==> p.term[m.block].cmp.value.plus.None?
    ensures exists b :: Goes(p.rules, p.term[m.block], ValueOf(p, m, Tested(p.term[m.block])), b, t)
  {
    hide Compares;
    var term := p.term[m.block];
    var odd := term.Branch? && ValueOf(p, m, term.cond) % 2 == 1;
    assert Goes(p.rules, term, ValueOf(p, m, Tested(term)), odd, t);
  }

  lemma TestedAllowed(p: Program, pred: Block, o: Block, n: Block, l: Lattice, a: Visit, m: Visit)
    requires WellFormed(p) && o in p.blocks && Decided(p, pred, o, n, l) && PhisFor(p, pred, o)
    requires Occurs(p, a) && Follows(p, a, m) && a.block == pred && m.block == o && !p.term[o].Jump?
    ensures p.rules.Allows(l, ValueOf(p, m, Tested(p.term[o])))
  {
    hide WellFormed, Follows, Occurs, Goes, Coming, Successors;
    KeysSame(p);
    TestedWithin(p, o);
    TestedComes(p, pred, o, n, l, a, m, Tested(p.term[o]));
  }

  lemma TestedWithin(p: Program, b: Block)
    requires WellFormed(p) && b in p.blocks
    ensures b in p.term && Within(p, Tested(p.term[b]))
  {
    var t := p.term[b];
    if !t.Jump? {
      assert Tested(t) in TermUses(t);
      UsesWithin(p, b, Tested(t));
    }
  }

  /** Control can leave the block as it has been entered. */
  lemma EnteredLeaves(p: Program, pos: Var -> nat, a: Visit, b: Block, odd: bool) returns (t: Block)
    requires WellFormed(p) && b in p.blocks && Successors(p.term[b]) != []
    requires var term := p.term[b];
             term.Branch? && term.cmp.Some? ==>
               && term.cmp.value.plus.None? && FromBlock(p, term.cond, b) && p.def[term.cond.v].Other?
               && odd == Odd(p.rules, term, ValueOf(p, Entered(p, pos, a, b, odd), term.cmp.value.operand))
    ensures Branches(p, Entered(p, pos, a, b, odd), t)
  {
    hide WellFormed, Entered, Made, Compares;
    KeysSame(p);
    var m := Entered(p, pos, a, b, odd);
    EnteredBlock(p, pos, a, b, odd);
    match p.term[b]
    case Jump(succs) =>
      t := succs[0];
    case Branch(cond, cmp, yes, no) =>
      t := if ValueOf(p, m, cond) % 2 == 1 then yes else no;
      if cmp.Some? {
        EnteredIs(p, pos, a, b, odd, cond.v);
        MadeFresh(p, pos, a, b, odd, cond.v);
      }
    case Switch(on, width, cases, default) =>
      t := default;
      if i :| IsCase(cases, width, ValueOf(p, m, on), i) {
        t := cases[i].1;
      }
  }

  /** The visit of o between pred and n that the new function leaves out. */
  lemma Passes(p: Program, pred: Block, o: Block, n: Block, pos: Var -> nat, l: Lattice, a: Visit) returns (m: Visit)
    requires WellFormed(p) && pred in p.blocks && o in p.blocks && Decided(p, pred, o, n, l) && PhisFor(p, pred, o)
             && Ordered(p, pos, o)
    requires forall v :: v in p.def && (v, o) in p.nonNull && DefinedIn(p, v, o) ==> !p.def[v].Arith?
    requires forall v :: DereferencedIn(p, v, o) ==> NotNullBefore(p, pred, o, v)
    requires Occurs(p, a) && a.block == pred && Branches(p, a, o)
    ensures m.block == o && Steps(p, a, m) && Branches(p, m, n)
  {
    hide WellFormed, Branches, Entered, Follows, Occurs, Successors, Goes, Coming, Ordered, PhisFor, Computes, Odd,
         Compares;
    KeysSame(p);
    TestedWithin(p, o);
    var odd := Odd(p.rules, p.term[o], ValueOf(p, a, Coming(p, Tested(p.term[o]), pred, o)));
    m := Entered(p, pos, a, o, odd);
    EnteredBlock(p, pos, a, o, odd);
    EnteredFollows(p, pos, a, o, odd);
    forall v | v in p.def
      ensures Computes(p, m, v)
    {
      if DereferencedIn(p, v, o) {
        NotNullOnEdge(p, pred, o, v, a, m);
      }
      EnteredComputes(p, pos, a, o, odd, v);
    }
    if !p.term[o].Jump? {
      TestedComes(p, pred, o, n, l, a, m, Tested(p.term[o]));
    }
    var t := EnteredLeaves(p, pos, a, o, odd);
    LeavesForNew(p, pred, o, n, l, a, m, t);
  }

  lemma NotNullOnEdge(p: Program, pred: Block, o: Block, v: Var, a: Visit, m: Visit)
    requires WellFormed(p) && NotNullBefore(p, pred, o, v) && Occurs(p, a) && Follows(p, a, m) && a.block == pred
             && m.block == o
    ensures ValueOf(p, a, Coming(p, Variable(v), pred, o)) != p.rules.address(p.rules.nullId)
  {
    hide WellFormed, Occurs, Follows, Coming;
  }

  /** Nothing that o defines is in scope in n, on the way from pred. */
  lemma NoneInScope(p: Program, p': Program, pred: Block, o: Block, n: Block, pos: Var -> nat, l: Lattice, a: Visit)
    requires Threads(p, p', pred, o, n, pos, l) && a.block == pred && pred in p'.term && Branches(p', a, n)
    ensures forall v: Var :: FromBlock(p, Variable(v), o) ==> Around(p', o, pred) && Around(p', o, n)
  {
    hide WellFormed, Around, Redirects, Successors, Decided, PhisFor, Ordered, UsedBelow, Branches;
    if Around(p', o, pred) {
      BranchesToSuccessor(p', a, n);
      AroundNext(p', o, pred, n);
    }
  }

  /** A phi of n takes by way of o what it takes from pred in the new function. */
  lemma PhiPasses(p: Program, p': Program, pred: Block, o: Block, n: Block, pos: Var -> nat, l: Lattice,
                  a: Visit, a': Visit, m: Visit, v: Var, w: Value)
    requires Threads(p, p', pred, o, n, pos, l) && a.block == pred && a'.block == pred && Agree(p, p', o, a, a')
    requires Follows(p, a, m) && m.block == o && v in p.def && p.def[v].Phi? && p.def[v].block == n
             && (w, o) in p.def[v].incoming
    requires forall u: Var :: FromBlock(p, Variable(u), o) ==> Around(p', o, pred)
    ensures v in p'.def && p'.def[v].Phi? && (Coming(p, w, pred, o), pred) in p'.def[v].incoming
    ensures ValueOf(p, m, w) == ValueOf(p, a', Coming(p, w, pred, o))
  {
    hide Follows, Around, Redirects, Successors, Decided, PhisFor, Ordered, Coming, Agree, WellFormed;
    ThreadsShape(p, p', pred, o, n, pos, l);
    SameDefs(p, p', pred, o, n, v);
    var e := (Coming(p, w, pred, o), pred);
    RedirectedEntries(p, p.def[v].incoming, pred, o, e);
    EntryValue(p, p', pred, o, n, a, a', v, e);
    EntryWithin(p, v, (w, o));
    if FromBlock(p, w, o) && !IsPhiOf(p, w, o) {
      ComingSame(p, w, pred, o);
      assert false;
    }
    TestedComes(p, pred, o, n, l, a, m, w);
  }

  lemma ComingSame(p: Program, v: Value, pred: Block, o: Block)
    requires !IsPhiOf(p, v, o)
    ensures Coming(p, v, pred, o) == v
  {
  }

  lemma EntryWithin(p: Program, v: Var, e: (Value, Block))
    requires WellFormed(p) && v in p.def && p.def[v].Phi? && e in p.def[v].incoming
    ensures Within(p, e.0)
  {
    hide Within;
    var i :| 0 <= i < |p.def[v].incoming| && p.def[v].incoming[i] == e;
  }

  /** Visits of n after o has been passed, and without that. */
  lemma PassAgrees(p: Program, p': Program, o: Block, n: Block, b: Visit, c: Visit)
    requires b.block == n && c.block == n
    requires forall v ::
               v in p.def ==> FromBlock(p, Variable(v), o) || ValueOf(p, b, Variable(v)) == ValueOf(p, c, Variable(v))
    requires forall v: Var :: FromBlock(p, Variable(v), o) ==> Around(p', o, n)
    ensures Agree(p, p', o, b, c)
  {
    hide Around;
  }

  /** The redirected edge: in the function control goes by way of o. */
  lemma PassForth(p: Program, p': Program, pred: Block, o: Block, n: Block, pos: Var -> nat, l: Lattice, a: Visit,
                  a': Visit, b': Visit)
    returns (m: Visit, b: Visit)
    requires Threads(p, p', pred, o, n, pos, l) && forall v :: DereferencedIn(p, v, o) ==> NotNullBefore(p, pred, o, v)
    requires Occurs(p, a) && Agree(p, p', o, a', a) && Steps(p', a', b') && a'.block == pred && b'.block == n
    ensures Steps(p, a, m) && Steps(p, m, b) && Agree(p, p', o, b', b)
  {
    hide WellFormed, Around, Redirects, Successors, Decided, PhisFor, Ordered, UsedBelow, Branches, Agree, Occurs,
         Computes, TakesPhi,
         NotNullBefore, Carried, FromBlock;
    ThreadsShape(p, p', pred, o, n, pos, l);
    SameKeys(p, p', pred, o, n);
    KeysSame(p);
    KeysSame(p');
    AgreeBoth(p, p', o, a', a);
    FollowsBranches(p', a', b');
    RedirectedEdge(p, p', pred, o, n, a');
    BranchesAgree(p, p', pred, o, n, a', a, o);
    m := Passes(p, pred, o, n, pos, l, a);
    b := Carried(p, b', m);
    CarriedBlock(p, b', m);
    NoneInScope(p, p', pred, o, n, pos, l, a');
    forall v | v in p.def
      ensures !DefinedIn(p, v, n) ==> ValueOf(p, b, Variable(v)) == ValueOf(p, m, Variable(v))
      ensures DefinedIn(p, v, n) && p.def[v].Phi? ==> TakesPhi(p, m, b, v)
      ensures FromBlock(p, Variable(v), o) || ValueOf(p, b', Variable(v)) == ValueOf(p, b, Variable(v))
    {
      SameDefs(p, p', pred, o, n, v);
      CarriedIs(p, b', m, v);
      FollowsKeeps(p, a, m, v);
      FollowsKeeps(p', a', b', v);
      SameValues(p, p', b', Variable(v));
      SameValues(p, p', a', Variable(v));
      if !FromBlock(p, Variable(v), o) {
        NotFromBlock(p, v, o);
        AgreeValue(p, p', o, a', a, Variable(v));
      }
      if DefinedIn(p, v, n) && p.def[v].Phi? {
        PassPhiForth(p, p', pred, o, n, pos, l, a, a', m, b, b', v);
      }
    }
    PassAgrees(p, p', o, n, b', b);
    CarriedComputes(p, p', pred, o, n, b', b);
  }

  lemma NotFromBlock(p: Program, v: Var, o: Block)
    requires v in p.def && !FromBlock(p, Variable(v), o)
    ensures !DefinedIn(p, v, o)
  {
  }

  lemma RedirectedEdge(p: Program, p': Program, pred: Block, o: Block, n: Block, a: Visit)
    requires Shape(p, p', pred, o, n) && a.block == pred && pred in p.term && pred in p'.term && Branches(p', a, n)
    ensures Branches(p, a, o)
  {
    hide WellFormed, Successors, Branches;
    KeysSame(p);
    RedirectedBranch(p, p', pred, o, n, a, n);
    var c :| Branches(p, a, c) && n == Redirect(c, o, n);
    BranchesToSuccessor(p, a, c);
  }

  lemma PassPhiForth(p: Program, p': Program, pred: Block, o: Block, n: Block, pos: Var -> nat, l: Lattice,
                     a: Visit, a': Visit, m: Visit, b: Visit, b': Visit, v: Var)
    requires Threads(p, p', pred, o, n, pos, l) && a.block == pred && a'.block == pred && Agree(p, p', o, a, a')
    requires Follows(p, a, m) && m.block == o && v in p.def && p.def[v].Phi? && p.def[v].block == n
    requires v in p'.def && p'.def[v].Phi? && TakesPhi(p', a', b', v)
             && ValueOf(p, b, Variable(v)) == ValueOf(p, b', Variable(v))
    requires forall u: Var :: FromBlock(p, Variable(u), o) ==> Around(p', o, pred)
    ensures TakesPhi(p, m, b, v)
  {
    hide Follows, Around, Redirects, Successors, Decided, PhisFor, Ordered, Coming, Agree, WellFormed, Threads,
         FromBlock;
    ThreadsShape(p, p', pred, o, n, pos, l);
    SameDefs(p, p', pred, o, n, v);
    var es := p'.def[v].incoming;
    var i :| 0 <= i < |es| && es[i].1 == pred && ValueOf(p', b', Variable(v)) == ValueOf(p', a', es[i].0);
    RedirectedEntries(p, p.def[v].incoming, pred, o, es[i]);
    var w :| (w, o) in p.def[v].incoming && es[i].0 == Coming(p, w, pred, o);
    PhiPasses(p, p', pred, o, n, pos, l, a, a', m, v, w);
    SameValues(p, p', b', Variable(v));
    SameValues(p, p', a', es[i].0);
    var j :| 0 <= j < |p.def[v].incoming| && p.def[v].incoming[j] == (w, o);
  }

  /** The way from pred by o to n: in the new function one step. */
  lemma PassBack(p: Program, p': Program, pred: Block, o: Block, n: Block, pos: Var -> nat, l: Lattice,
                 a: Visit, a': Visit, m: Visit, b: Visit) returns (b': Visit)
    requires Threads(p, p', pred, o, n, pos, l) && Occurs(p, a) && Agree(p, p', o, a, a') && a.block == pred
             && m.block == o
    requires Steps(p, a, m) && Steps(p, m, b)
    ensures Steps(p', a', b') && Agree(p, p', o, b, b')
  {
    hide WellFormed, Around, Redirects, Successors, Decided, PhisFor, Ordered, UsedBelow, Branches, Agree, Occurs,
         Computes, TakesPhi,
         NotNullBefore, Carried, FromBlock;
    ThreadsShape(p, p', pred, o, n, pos, l);
    ThreadsLeaves(p, p', pred, o, n, pos, l, a, m, b);
    SameKeys(p, p', pred, o, n);
    KeysSame(p);
    KeysSame(p');
    SameBlock(p, p', o, a, a');
    FollowsBranches(p, a, m);
    BranchesAgree(p, p', pred, o, n, a, a', o);
    BranchesBack(p, p', pred, o, n, a', o);
    b' := Carried(p, b, a');
    CarriedBlock(p, b, a');
    NoneInScope(p, p', pred, o, n, pos, l, a');
    forall v | v in p.def
      ensures v in p'.def && (!DefinedIn(p', v, n) ==> ValueOf(p', b', Variable(v)) == ValueOf(p', a', Variable(v)))
      ensures DefinedIn(p', v, n) && p'.def[v].Phi? ==> TakesPhi(p', a', b', v)
      ensures FromBlock(p, Variable(v), o) || ValueOf(p, b, Variable(v)) == ValueOf(p, b', Variable(v))
    {
      SameDefs(p, p', pred, o, n, v);
      CarriedIs(p, b, a', v);
      FollowsKeeps(p, a, m, v);
      FollowsKeeps(p, m, b, v);
      SameValues(p, p', b', Variable(v));
      SameValues(p, p', a', Variable(v));
      if !FromBlock(p, Variable(v), o) {
        NotFromBlock(p, v, o);
        AgreeValue(p, p', o, a, a', Variable(v));
      }
      if DefinedIn(p, v, n) && p.def[v].Phi? {
        PassPhiBack(p, p', pred, o, n, pos, l, a, a', m, b, b', v);
      }
    }
    PassAgrees(p, p', o, n, b, b');
    CarriedComputes(p, p', pred, o, n, b, b');
  }

  lemma ThreadsLeaves(p: Program, p': Program, pred: Block, o: Block, n: Block, pos: Var -> nat, l: Lattice, a: Visit,
                      m: Visit, b: Visit)
    requires Threads(p, p', pred, o, n, pos, l) && Occurs(p, a) && a.block == pred && m.block == o && Follows(p, a, m)
             && Follows(p, m, b)
    ensures b.block == n
  {
    hide WellFormed, Around, Redirects, Successors, Decided, PhisFor, Ordered, UsedBelow, Branches, Occurs;
    FollowsBranches(p, m, b);
    LeavesForNew(p, pred, o, n, l, a, m, b.block);
  }

  lemma PassPhiBack(p: Program, p': Program, pred: Block, o: Block, n: Block, pos: Var -> nat, l: Lattice,
                    a: Visit, a': Visit, m: Visit, b: Visit, b': Visit, v: Var)
    requires Threads(p, p', pred, o, n, pos, l) && a.block == pred && a'.block == pred && Agree(p, p', o, a, a')
    requires Follows(p, a, m) && m.block == o && v in p.def && p.def[v].Phi? && p.def[v].block == n
    requires TakesPhi(p, m, b, v) && ValueOf(p, b, Variable(v)) == ValueOf(p, b', Variable(v))
    requires forall u: Var :: FromBlock(p, Variable(u), o) ==> Around(p', o, pred)
    ensures v in p'.def && p'.def[v].Phi? && TakesPhi(p', a', b', v)
  {
    hide Follows, Around, Redirects, Successors, Decided, PhisFor, Ordered, Coming, Agree, WellFormed, Threads,
         FromBlock;
    ThreadsShape(p, p', pred, o, n, pos, l);
    SameDefs(p, p', pred, o, n, v);
    var es := p.def[v].incoming;
    var i :| 0 <= i < |es| && es[i].1 == o && ValueOf(p, b, Variable(v)) == ValueOf(p, m, es[i].0);
    assert es[i] in es && es[i] == (es[i].0, o);
    PhiPasses(p, p', pred, o, n, pos, l, a, a', m, v, es[i].0);
    var e := (Coming(p, es[i].0, pred, o), pred);
    SameValues(p, p', b', Variable(v));
    SameValues(p, p', a', e.0);
    var j :| 0 <= j < |p'.def[v].incoming| && p'.def[v].incoming[j] == e;
  }

  // ---------------------------------------------------------------- whole runs

  lemma RunSteps(p: Program, run: seq<Visit>, i: nat)
    requires WellFormed(p) && IsRun(p, run) && 0 < i < |run|
    ensures Steps(p, run[i - 1], run[i]) && run[i - 1].block in p.blocks
  {
    hide WellFormed, Computes, Follows;
    KeysSame(p);
    forall v | v in p.def
      ensures Computes(p, run[i], v)
    {
      assert v in p.vars;
    }
    assert Follows(p, run[i - 1], run[i - 1 + 1]);
  }

  lemma RunGoesOn(p: Program, run: seq<Visit>, at: Visit)
    requires WellFormed(p) && IsRun(p, run) && Steps(p, run[|run| - 1], at)
    ensures IsRun(p, run + [at]) && Occurs(p, at)
  {
    hide WellFormed, Computes, Follows;
    KeysSame(p);
    RunMore(p, run, at);
    assert (run + [at])[|run|] == at;
  }

  lemma LastOccurs(p: Program, run: seq<Visit>)
    requires WellFormed(p) && IsRun(p, run)
    ensures run != [] && run[|run| - 1].block in p.blocks && Occurs(p, run[|run| - 1])
  {
    hide WellFormed, Computes, Follows;
    assert run[|run| - 1] in run;
  }

  lemma FirstVisit(p: Program, p': Program, pred: Block, o: Block, n: Block, run: seq<Visit>)
    requires Shape(p, p', pred, o, n) && |run| == 1 && (IsRun(p, run) || IsRun(p', run))
    ensures IsRun(p, run) && IsRun(p', run) && Agree(p, p', o, run[0], run[0])
  {
    hide WellFormed, Computes, Follows, Redirects, Successors, Around;
    KeysSame(p);
    KeysSame(p');
    SameKeys(p, p', pred, o, n);
    forall v | v in p.vars
      ensures Computes(p, run[0], v) && Computes(p', run[0], v)
    {
      SameComputes(p, p', pred, o, n, run[0], v);
    }
  }

  /** For every run of the new function there is one of the function that ends in the same block, with the
      same values as far as they are in scope. */
  lemma {:induction false} RunForth(p: Program, p': Program, pred: Block, o: Block, n: Block, pos: Var -> nat,
                                    l: Lattice, run': seq<Visit>)
    returns (run: seq<Visit>)
    requires Threads(p, p', pred, o, n, pos, l) && forall v :: DereferencedIn(p, v, o) ==> NotNullBefore(p, pred, o, v)
    requires IsRun(p', run') && run' != []
    ensures IsRun(p, run) && run != [] && Agree(p, p', o, run'[|run'| - 1], run[|run| - 1])
    decreases |run'|
  {
    hide WellFormed, Threads, DereferencedIn, NotNullBefore, IsRun, Agree, Steps, Occurs, Follows;
    ThreadsShape(p, p', pred, o, n, pos, l);
    var last := |run'| - 1;
    if last == 0 {
      FirstVisit(p, p', pred, o, n, run');
      run := run';
    } else {
      var shorter := run'[..last];
      RunPrefix(p', run', last);
      RunSteps(p', run', last);
      var before := RunForth(p, p', pred, o, n, pos, l, shorter);
      var a, a', b' := before[|before| - 1], run'[last - 1], run'[last];
      LastOccurs(p, before);
      if a'.block == pred && b'.block == n {
        var m, b := PassForth(p, p', pred, o, n, pos, l, a, a', b');
        RunGoesOn(p, before, m);
        RunGoesOn(p, before + [m], b);
        run := before + [m] + [b];
      } else {
        StepForth(p, p', pred, o, n, a, a', b');
        RunGoesOn(p, before, Carried(p, b', a));
        run := before + [Carried(p, b', a)];
      }
    }
  }

  /** And the other way round, for runs that do not end between pred and n. */
  lemma {:induction false} RunBack(p: Program, p': Program, pred: Block, o: Block, n: Block, pos: Var -> nat,
                                   l: Lattice, run: seq<Visit>)
    returns (run': seq<Visit>)
    requires Threads(p, p', pred, o, n, pos, l) && IsRun(p, run) && run != []
    requires |run| > 1 && run[|run| - 2].block == pred ==> run[|run| - 1].block != o
    ensures IsRun(p', run') && run' != [] && Agree(p, p', o, run[|run| - 1], run'[|run'| - 1])
    decreases |run|
  {
    hide WellFormed, Threads, IsRun, Agree, Steps, Occurs, Follows;
    ThreadsShape(p, p', pred, o, n, pos, l);
    var last := |run| - 1;
    if last == 0 {
      FirstVisit(p, p', pred, o, n, run);
      run' := run;
    } else if last > 1 && run[last - 2].block == pred && run[last - 1].block == o {
      var shorter := run[..last - 1];
      RunPrefix(p, run, last - 1);
      RunSteps(p, run, last - 1);
      RunSteps(p, run, last);
      LastOccurs(p, shorter);
      var before := RunBack(p, p', pred, o, n, pos, l, shorter);
      var b' := PassBack(p, p', pred, o, n, pos, l, run[last - 2], before[|before| - 1], run[last - 1], run[last]);
      RunGoesOn(p', before, b');
      run' := before + [b'];
    } else {
      var shorter := run[..last];
      RunPrefix(p, run, last);
      RunSteps(p, run, last);
      var before := RunBack(p, p', pred, o, n, pos, l, shorter);
      var a' := before[|before| - 1];
      StepBack(p, p', pred, o, n, run[last - 1], a', run[last]);
      RunGoesOn(p', before, Carried(p, run[last], a'));
      run' := before + [Carried(p, run[last], a')];
    }
  }

  lemma OccursForth(p: Program, p': Program, pred: Block, o: Block, n: Block, pos: Var -> nat, l: Lattice, at': Visit)
    returns (at: Visit)
    requires Threads(p, p', pred, o, n, pos, l) && forall v :: DereferencedIn(p, v, o) ==> NotNullBefore(p, pred, o, v)
    requires Occurs(p', at')
    ensures Occurs(p, at) && Agree(p, p', o, at', at)
  {
    hide WellFormed, Threads, DereferencedIn, NotNullBefore, IsRun, Agree;
    ThreadsShape(p, p', pred, o, n, pos, l);
    var run' :| IsRun(p', run') && at' in run';
    var i :| 0 <= i < |run'| && run'[i] == at';
    RunPrefix(p', run', i + 1);
    var run := RunForth(p, p', pred, o, n, pos, l, run'[..i + 1]);
    LastOccurs(p, run);
    at := run[|run| - 1];
  }

  lemma OccursBack(p: Program, p': Program, pred: Block, o: Block, n: Block, pos: Var -> nat, l: Lattice, at: Visit)
    returns (at': Visit)
    requires Threads(p, p', pred, o, n, pos, l) && Occurs(p, at) && at.block != o
    ensures Occurs(p', at') && Agree(p, p', o, at, at')
  {
    hide WellFormed, Threads, IsRun, Agree;
    ThreadsShape(p, p', pred, o, n, pos, l);
    var run :| IsRun(p, run) && at in run;
    var i :| 0 <= i < |run| && run[i] == at;
    RunPrefix(p, run, i + 1);
    var run' := RunBack(p, p', pred, o, n, pos, l, run[..i + 1]);
    LastOccurs(p', run');
    at' := run'[|run'| - 1];
  }

  // ---------------------------------------------------------------- the cache

  /** What bounds a value in the function bounds it in the new one, where its definition dominates, if
      nothing that o dereferences can be null when control comes from pred. */
  lemma BoundSurvives(p: Program, p': Program, pred: Block, o: Block, n: Block, pos: Var -> nat, l: Lattice, k: Pair,
                      r: Lattice)
    requires Threads(p, p', pred, o, n, pos, l) && forall v :: DereferencedIn(p, v, o) ==> NotNullBefore(p, pred, o, v)
    requires Within(p, k.value) && InScope(p', o, k) && BoundsBlock(p, k.value, k.block, r)
    ensures BoundsBlock(p', k.value, k.block, r)
  {
    hide WellFormed, Threads, DereferencedIn, NotNullBefore, Occurs, Agree, Around, Redirects, Successors;
    ThreadsShape(p, p', pred, o, n, pos, l);
    SameKeys(p, p', pred, o, n);
    KeysSame(p);
    forall at' | Occurs(p', at') && at'.block == k.block
      ensures p'.rules.Allows(r, ValueOf(p', at', k.value))
    {
      var at := OccursForth(p, p', pred, o, n, pos, l, at');
      SameBlock(p, p', o, at', at);
      ScopeSame(p, p', pred, o, n, k.value);
      AgreeValue(p, p', o, at', at, k.value);
      SameValues(p, p', at', k.value);
    }
  }

  lemma ScopeSame(p: Program, p': Program, pred: Block, o: Block, n: Block, v: Value)
    requires Shape(p, p', pred, o, n)
    ensures FromBlock(p', v, o) <==> FromBlock(p, v, o)
  {
    hide WellFormed, Redirects, Successors;
    if v.Variable? && v.v in p.def {
      SameDefs(p, p', pred, o, n, v.v);
    } else {
      SameKeys(p, p', pred, o, n);
    }
  }

  /** The cache after threading: every entry in scope is right for the new function; all of them are if o
      defines nothing. */
  lemma SurvivesThreading(p: Program, p': Program, pred: Block, o: Block, n: Block, pos: Var -> nat, l: Lattice,
                          s: State)
    requires Threads(p, p', pred, o, n, pos, l) && forall v :: DereferencedIn(p, v, o) ==> NotNullBefore(p, pred, o, v)
    requires Ok(p, s)
    ensures forall k :: k in s.values && InScope(p', o, k) ==> BoundsBlock(p', k.value, k.block, s.values[k])
    ensures (forall v :: v in p.def ==> !DefinedIn(p, v, o)) ==> Ok(p', s)
  {
    hide WellFormed, Threads, DereferencedIn, NotNullBefore, Around, BoundsBlock, Rules.Sound, Indexed, Redirects,
         Successors, FromBlock;
    ThreadsShape(p, p', pred, o, n, pos, l);
    SameKeys(p, p', pred, o, n);
    forall k | k in s.values && InScope(p', o, k)
      ensures BoundsBlock(p', k.value, k.block, s.values[k])
    {
      assert BoundsBlock(p, k.value, k.block, s.values[k]);
      BoundSurvives(p, p', pred, o, n, pos, l, k, s.values[k]);
    }
    if forall v :: v in p.def ==> !DefinedIn(p, v, o) {
      forall k | k in s.values
        ensures InScope(p', o, k)
      {
        ScopeSame(p, p', pred, o, n, k.value);
        NothingFrom(p, o, k.value);
      }
    }
  }

  lemma NothingFrom(p: Program, o: Block, v: Value)
    requires forall u :: u in p.def ==> !DefinedIn(p, u, o)
    ensures !FromBlock(p, v, o)
  {
  }

  // ---------------------------------------------------------------- exactly when

  /** Right before: after o has dereferenced it, it is not null in n. */
  lemma NotNullAfter(p: Program, o: Block, n: Block, v: Var)
    requires WellFormed(p) && o in p.blocks && n in p.blocks && n != p.entry && p.preds[n] == [o]
    requires (v, o) in p.nonNull && v in p.def && !DefinedIn(p, v, n)
    ensures BoundsBlock(p, Variable(v), n, NotKnown(p.rules.nullId))
  {
    hide WellFormed, Occurs, Follows, Successors, Branches;
    KeysSame(p);
    forall at | Occurs(p, at) && at.block == n
      ensures p.rules.Allows(NotKnown(p.rules.nullId), ValueOf(p, at, Variable(v)))
    {
      var from := OccursAfter(p, at);
      FollowsBranches(p, from, at);
      BranchesToSuccessor(p, from, n);
      OnlyPred(p, from, at, o, n);
      FollowsKeeps(p, from, at, v);
      OccursComputes(p, from, v);
    }
  }

  lemma OnlyPred(p: Program, from: Visit, at: Visit, o: Block, n: Block)
    requires WellFormed(p) && n in p.blocks && p.preds[n] == [o] && Follows(p, from, at) && at.block == n
    requires from.block in p.term && n in Successors(p.term[from.block])
    ensures from.block == o
  {
    hide Successors, Branches;
    assert from.block in p.preds[n];
  }

  /** A value that can be null before o can be null in n afterwards. */
  lemma NullGetsThrough(p: Program, p': Program, pred: Block, o: Block, n: Block, pos: Var -> nat, l: Lattice, v: Var)
    requires Threads(p, p', pred, o, n, pos, l) && PhisFor(p', pred, n) && Ordered(p', pos, n)
    requires forall u :: (u, n) !in p.nonNull
    requires v in p.def && !DefinedIn(p, v, o) && !DefinedIn(p, v, n) && !NotNullBefore(p, pred, o, v)
    ensures !BoundsBlock(p', Variable(v), n, NotKnown(p.rules.nullId))
  {
    hide WellFormed, Threads, Occurs, Follows, Agree, Around, Redirects, Successors, Entered, PhisFor, Ordered, IsRun,
         Branches, Computes;
    ThreadsShape(p, p', pred, o, n, pos, l);
    SameKeys(p, p', pred, o, n);
    KeysSame(p);
    KeysSame(p');
    SameDefs(p, p', pred, o, n, v);
    var a, m := NullBefore(p, pred, o, v);
    var a' := OccursBack(p, p', pred, o, n, pos, l, a);
    SameBlock(p, p', o, a, a');
    AgreeValue(p, p', o, a, a', Variable(v));
    FollowsBranches(p, a, m);
    BranchesAgree(p, p', pred, o, n, a, a', o);
    BranchesBack(p, p', pred, o, n, a', o);
    EnteredFollows(p', pos, a', n, false);
    var b' := Entered(p', pos, a', n, false);
    EnteredBlock(p', pos, a', n, false);
    forall u | u in p'.def
      ensures Computes(p', b', u)
    {
      EnteredComputes(p', pos, a', n, false, u);
    }
    FollowsKeeps(p', a', b', v);
    OccursNext(p', a', b');
    SameValues(p, p', a', Variable(v));
  }

  lemma NullBefore(p: Program, pred: Block, o: Block, v: Var) returns (a: Visit, m: Visit)
    requires WellFormed(p) && v in p.def && !DefinedIn(p, v, o) && !NotNullBefore(p, pred, o, v)
    ensures Occurs(p, a) && Follows(p, a, m) && a.block == pred && m.block == o
    ensures ValueOf(p, a, Variable(v)) == p.rules.address(p.rules.nullId)
  {
    hide WellFormed, Occurs, Follows;
    a, m :| Occurs(p, a) && Follows(p, a, m) && a.block == pred && m.block == o
            && !p.rules.Allows(NotKnown(p.rules.nullId), ValueOf(p, a, Coming(p, Variable(v), pred, o)));
  }

  lemma OccursNext(p: Program, a: Visit, b: Visit)
    requires WellFormed(p) && Occurs(p, a) && Steps(p, a, b)
    ensures Occurs(p, b)
  {
    hide WellFormed, Steps, IsRun;
    var run :| IsRun(p, run) && a in run;
    var i :| 0 <= i < |run| && run[i] == a;
    RunPrefix(p, run, i + 1);
    RunGoesOn(p, run[..i + 1], b);
  }

  /** If n is entered from o only and dereferences nothing, and o dereferences nothing that it or n
      defines: every right bound stays right if and only if nothing that o dereferences can be null when
      control comes from pred. */
  lemma SurvivesIff(p: Program, p': Program, pred: Block, o: Block, n: Block, pos: Var -> nat, l: Lattice)
    requires Threads(p, p', pred, o, n, pos, l) && n != p.entry && p.preds[n] == [o]
    requires PhisFor(p', pred, n) && Ordered(p', pos, n) && forall v :: (v, n) !in p.nonNull
    requires forall v :: DereferencedIn(p, v, o) ==> !DefinedIn(p, v, o) && !DefinedIn(p, v, n)
    ensures (forall k: Pair, r {:trigger BoundsBlock(p', k.value, k.block, r)} ::
               Within(p, k.value) && InScope(p', o, k) && BoundsBlock(p, k.value, k.block, r) ==>
                   BoundsBlock(p', k.value, k.block, r))
            <==> forall v :: DereferencedIn(p, v, o) ==> NotNullBefore(p, pred, o, v)
  {
    hide WellFormed, Around, BoundsBlock, Redirects, Successors, PhisFor, Ordered, UsedBelow, Decided, NotNullBefore;
    ThreadsShape(p, p', pred, o, n, pos, l);
    KeysSame(p);
    if forall v :: DereferencedIn(p, v, o) ==> NotNullBefore(p, pred, o, v) {
      forall k: Pair, r | Within(p, k.value) && InScope(p', o, k) && BoundsBlock(p, k.value, k.block, r)
        ensures BoundsBlock(p', k.value, k.block, r)
      {
        BoundSurvives(p, p', pred, o, n, pos, l, k, r);
      }
    } else {
      var v :| DereferencedIn(p, v, o) && !NotNullBefore(p, pred, o, v);
      NotNullAfter(p, o, n, v);
      NullGetsThrough(p, p', pred, o, n, pos, l, v);
      var k := Pair(n, Variable(v));
      ScopeSame(p, p', pred, o, n, k.value);
      assert !BoundsBlock(p', k.value, k.block, NotKnown(p.rules.nullId));
    }
  }
}
