// Ancestry among components, as the parent sets record it, and the measure by which a walk up
// the parents ends although it keeps no record of what it has visited.
module SccAncestors {
  import opened Digraph
  import opened SccForest
  import opened Sets

  /** The components that a climb along parent links visits after its start. */
  datatype Chain = Top | Up(parent: SccId, rest: Chain)

  ghost predicate Climbs(f: Forest, d: SccId, chain: Chain, a: SccId)
    decreases chain
  {
    match chain
    case Top => d == a
    case Up(p, rest) => p in f.Parents(d) && Climbs(f, p, rest, a)
  }

  ghost predicate AtOrAbove(f: Forest, a: SccId, d: SccId) {
    exists chain :: Climbs(f, d, chain, a)
  }

  /** a is reached from d by one or more parent links. */
  ghost predicate ProperAncestor(f: Forest, a: SccId, d: SccId) {
    exists p :: p in f.Parents(d) && AtOrAbove(f, a, p)
  }

  lemma StepUp(f: Forest, a: SccId, d: SccId)
    ensures ProperAncestor(f, a, d) <==> a in f.Parents(d) || exists p :: p in f.Parents(d) && ProperAncestor(f, a, p)
  {
    assert Climbs(f, a, Top, a);
    if p :| p in f.Parents(d) && ProperAncestor(f, a, p) {
      var q :| q in f.Parents(p) && AtOrAbove(f, a, q);
      var chain :| Climbs(f, q, chain, a);
      assert Climbs(f, p, Up(q, chain), a);
    }
    if p :| p in f.Parents(d) && AtOrAbove(f, a, p) {
      var chain :| Climbs(f, p, chain, a);
      if chain.Up? {
        assert Climbs(f, chain.parent, chain.rest, a);
        assert AtOrAbove(f, a, chain.parent);
        assert ProperAncestor(f, a, p);
      }
    }
  }

  // ---------------------------------------------------------------- ancestry is reachability

  lemma {:induction false} ChainReaches(e: Edges, f: Forest, a: SccId, d: SccId, chain: Chain, u: Vertex, v: Vertex)
    requires f.Valid(e) && f.ParentsExact(e) && Climbs(f, d, chain, a)
    requires f.Has(u, a) && f.Has(v, d) && d in f.rank
    ensures Reach(e, u, v)
    decreases chain
  {
    match chain
    case Top => assert Mutual(e, u, v);
    case Up(p, rest) =>
      assert p in f.rank && f.ExactAt(e, d, p);
      var x, y :| f.Has(x, p) && f.Has(y, d) && Edge(e, x, y);
      ChainReaches(e, f, a, p, rest, u, x);
      assert Mutual(e, y, v);
      ReachStep(e, x, y, v);
      ReachTrans(e, u, x, v);
  }

  lemma {:induction false} ClimbsThen(f: Forest, d: SccId, chain: Chain, p: SccId, a: SccId)
    requires Climbs(f, d, chain, p) && a in f.Parents(p)
    ensures AtOrAbove(f, a, d)
    decreases chain
  {
    match chain
    case Top =>
      assert Climbs(f, a, Top, a) && Climbs(f, d, Up(a, Top), a);
    case Up(q, rest) =>
      ClimbsThen(f, q, rest, p, a);
      var more :| Climbs(f, q, more, a);
      assert Climbs(f, d, Up(q, more), a);
  }

  lemma {:induction false} CallPathClimbs(e: Edges, f: Forest, u: Vertex, path: Path, v: Vertex)
    requires f.Valid(e) && f.ParentsExact(e) && u in f.of && Follows(e, u, path, v)
    ensures v in f.of && AtOrAbove(f, f.of[u], f.of[v])
    decreases path
  {
    match path
    case Here => assert Climbs(f, f.of[u], Top, f.of[u]);
    case Via(x, rest) =>
      assert x in f.of;
      CallPathClimbs(e, f, x, rest, v);
      var a, b := f.of[u], f.of[x];
      assert f.Has(u, a) && f.Has(x, b) && f.Calls(e, a, b) && f.ExactAt(e, b, a);
      if a != b {
        var chain :| Climbs(f, f.of[v], chain, b);
        ClimbsThen(f, f.of[v], chain, b, a);
      }
  }

  lemma {:induction false} RanksClimb(f: Forest, d: SccId, chain: Chain, a: SccId)
    requires f.ParentsLater() && d in f.rank && Climbs(f, d, chain, a)
    ensures a in f.rank && f.Rank(d) <= f.Rank(a) && (chain.Up? ==> f.Rank(d) < f.Rank(a))
    decreases chain
  {
    match chain
    case Top =>
    case Up(p, rest) => RanksClimb(f, p, rest, a);
  }

  /** With exact parent sets, a is an ancestor of d exactly if it is another component some of
      whose functions reach d along calls. */
  lemma AncestorIsCaller(e: Edges, f: Forest, a: SccId, d: SccId)
    requires f.Valid(e) && f.ParentsExact(e) && a in f.rank && d in f.rank
    ensures ProperAncestor(f, a, d) <==> a != d && exists u, v :: f.Has(u, a) && f.Has(v, d) && Reach(e, u, v)
  {
    if ProperAncestor(f, a, d) {
      var p :| p in f.Parents(d) && AtOrAbove(f, a, p);
      var chain :| Climbs(f, p, chain, a);
      assert Climbs(f, d, Up(p, chain), a);
      RanksClimb(f, d, Up(p, chain), a);
      var u :| f.Has(u, a);
      var v :| f.Has(v, d);
      ChainReaches(e, f, a, d, Up(p, chain), u, v);
    }
    if u, v :| a != d && f.Has(u, a) && f.Has(v, d) && Reach(e, u, v) {
      var path :| Follows(e, u, path, v);
      CallPathClimbs(e, f, u, path, v);
      var up :| Climbs(f, d, up, a);
      assert Climbs(f, up.parent, up.rest, a);
      assert AtOrAbove(f, a, up.parent);
    }
  }

  // ---------------------------------------------------------------- the walk up ends

  ghost function Later(f: Forest, d: SccId): set<SccId> {
    set x | x in f.rank && f.Rank(x) > f.Rank(d)
  }

  /** An upper bound on the steps of an exhaustive walk over n levels. */
  function Steps(n: nat): (w: nat)
    ensures w >= 1
  {
    if n == 0 then 1 else 1 + n * Steps(n - 1)
  }

  lemma {:induction false} StepsGrow(m: nat, n: nat)
    requires m <= n
    ensures Steps(m) <= Steps(n)
    decreases n
  {
    if m < n {
      StepsGrow(m, n - 1);
      assert n * Steps(n - 1) >= Steps(n - 1);
    }
  }

  ghost function Work(f: Forest, worklist: seq<SccId>): nat {
    if worklist == [] then 0 else Work(f, worklist[..|worklist| - 1]) + Steps(|Later(f, worklist[|worklist| - 1])|)
  }

  lemma WorkPush(f: Forest, worklist: seq<SccId>, c: SccId)
    ensures Work(f, worklist + [c]) == Work(f, worklist) + Steps(|Later(f, c)|)
  {
    assert (worklist + [c])[..|worklist|] == worklist;
  }

  /** Replacing a component by its parents leaves less work. */
  lemma ParentsCheaper(f: Forest, d: SccId, p: SccId)
    requires f.ParentsLater() && d in f.rank && p in f.Parents(d)
    ensures |Later(f, d)| > 0 && |f.Parents(d)| <= |Later(f, d)|
    ensures Steps(|Later(f, p)|) <= Steps(|Later(f, d)| - 1)
  {
    SubsetSize(f.Parents(d), Later(f, d));
    assert p in Later(f, d) && p !in Later(f, p);
    SubsetSize(Later(f, p), Later(f, d));
    StepsGrow(|Later(f, p)|, |Later(f, d)| - 1);
  }

  /** An ancestor is the direct parent of some component below it. */
  lemma {:induction false} HasChild(f: Forest, d: SccId, chain: Chain, a: SccId) returns (x: SccId)
    requires f.ParentsLater() && d in f.rank && Climbs(f, d, chain, a) && chain.Up?
    ensures x in f.rank && a in f.Parents(x) && a != x
    decreases chain
  {
    if chain.rest.Top? {
      x := d;
    } else {
      x := HasChild(f, chain.parent, chain.rest, a);
    }
  }

  lemma AncestorFacts(f: Forest, a: SccId, d: SccId) returns (x: SccId)
    requires f.ParentsLater() && d in f.rank && ProperAncestor(f, a, d)
    ensures f.Rank(d) < f.Rank(a) && x in f.rank && a in f.rank && a in f.Parents(x) && a != x
  {
    var p :| p in f.Parents(d) && AtOrAbove(f, a, p);
    var chain :| Climbs(f, p, chain, a);
    assert Climbs(f, d, Up(p, chain), a);
    RanksClimb(f, d, Up(p, chain), a);
    x := HasChild(f, d, Up(p, chain), a);
  }
}
