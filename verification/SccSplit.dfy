// What removeIntraSCCEdge keeps while it takes one component apart, and what it ends with.
//
// The component c loses the edge (u, v) between two of its members.  Members that reach v stay
// in c; the others are formed into new components, which get the numbers from `base` on.
module SccSplit {
  import opened Digraph
  import opened Maps
  import opened SccForest
  import opened SccUpdates

  /** The situation before the walk: e0 is the call graph with the edge, e without. */
  ghost predicate SplitStart(e0: Edges, e: Edges, f0: Forest, c: SccId, u: Vertex, v: Vertex, base: SccId) {
    && f0.Valid(e0) && Drops(e0, e, u, v) && Edge(e0, u, v)
    && f0.Has(u, c) && f0.Has(v, c) && u != v && c in f0.rank && c < base
    && (forall d :: d in f0.rank || d in f0.leaves ==> d < base)
  }

  /** Nodes of components that c may call. */
  ghost function Below(f0: Forest, c: SccId): set<Vertex> {
    set x | x in f0.of && f0.Rank(f0.of[x]) < f0.Rank(c)
  }

  /** Nodes whose component is final as far as the walk is concerned. */
  ghost function Settled(f0: Forest, c: SccId, g: Forest): set<Vertex> {
    set x | x in g.of && (x in Below(f0, c) || (x in f0.Members(c) && g.of[x] != c))
  }

  /** The numbers of the new components. */
  ghost function NewIds(base: SccId, next: SccId): (s: set<SccId>)
    ensures forall d :: d in s <==> base <= d < next
    decreases next
  {
    if base < next then NewIds(base, next - 1) + {next - 1} else {}
  }

  ghost function SettledIds(f0: Forest, c: SccId, base: SccId, next: SccId): set<SccId> {
    (set d | d in f0.rank && f0.Rank(d) < f0.Rank(c)) + NewIds(base, next)
  }

  /** The settled components on their own, ranked below c. */
  ghost function SettledForest(f0: Forest, c: SccId, base: SccId, next: SccId, g: Forest): Forest {
    var ids := SettledIds(f0, c, base, next);
    Forest(g.of - (g.of.Keys - Settled(f0, c, g)),
           Tabulate(ids, d => g.Parents(d) * ids),
           g.leaves * ids,
           Tabulate(ids, d => if d in f0.rank then f0.Rank(d) else f0.Rank(c) + d - base))
  }

  /** Where nodes are: outside c as before, in c or in a new component inside. */
  ghost predicate SplitNodes(e: Edges, f0: Forest, c: SccId, v: Vertex, base: SccId, next: SccId, g: Forest) {
    && (forall x :: x in g.of ==> x in f0.of)
    && (forall x :: x in f0.of && f0.of[x] != c ==> g.Has(x, f0.of[x]))
    && (forall x :: x in g.of && f0.Has(x, c) ==> g.of[x] == c || base <= g.of[x] < next)
    && g.Has(v, c)
    && (forall x :: g.Has(x, c) ==> Reach(e, x, v))
  }

  /** Parents and leaves of old components, except for c itself, are as before. */
  ghost predicate SplitTables(f0: Forest, c: SccId, base: SccId, next: SccId, g: Forest) {
    && g.rank == f0.rank
    && g.parents.Keys == f0.parents.Keys + NewIds(base, next)
    && OldParents(f0, c, base, next, g)
    && (forall d, p :: base <= d < next && p in g.Parents(d) ==> base <= p < next)
    && SplitLeaves(f0, base, next, g)
  }

  ghost predicate OldParents(f0: Forest, c: SccId, base: SccId, next: SccId, g: Forest) {
    && (forall d, p :: d in f0.rank && p in f0.rank && p != c ==> (p in g.Parents(d) <==> p in f0.Parents(d)))
    && (forall d :: d in f0.rank && c in g.Parents(d) ==> c in f0.Parents(d))
    && (forall d, p :: d in f0.rank && p in g.Parents(d) ==> p in f0.rank || base <= p < next)
    && (forall d, p :: d in f0.rank && f0.Rank(d) >= f0.Rank(c) && p in g.Parents(d) ==> p in f0.rank)
  }

  ghost predicate SplitLeaves(f0: Forest, base: SccId, next: SccId, g: Forest) {
    && (forall d :: d < base ==> (d in g.leaves <==> d in f0.leaves))
    && (forall d :: d in g.leaves ==> d < next)
  }

  /** A member that has left c keeps c no longer among the parents of what it calls. */
  ghost predicate Erased(e: Edges, f0: Forest, c: SccId, g: Forest) {
    forall x, y {:trigger Edge(e, x, y)} ::
        x in Settled(f0, c, g) && f0.Has(x, c) && Edge(e, x, y) && y in Below(f0, c) ==>
      c !in g.Parents(f0.of[y])
  }

  ghost predicate SplitForest(e0: Edges, e: Edges, f0: Forest, c: SccId, base: SccId, next: SccId, g: Forest) {
    var low := SettledForest(f0, c, base, next, g);
    && low.Valid(e)
    && (f0.ParentsExact(e0) ==> low.ParentsExact(e))
    && (f0.LeavesExact(e0) ==> low.LeavesExact(e))
  }

  ghost predicate Splitting(e0: Edges, e: Edges, f0: Forest, c: SccId, v: Vertex, base: SccId, next: SccId, g: Forest) {
    && base <= next
    && SplitNodes(e, f0, c, v, base, next, g) && SplitTables(f0, c, base, next, g)
    && Erased(e, f0, c, g) && SplitForest(e0, e, f0, c, base, next, g)
  }

  // ---------------------------------------------------------------- reaching inside and outside

  /** Edges of the component lead to itself or below. */
  lemma MembersCall(e0: Edges, e: Edges, f0: Forest, c: SccId, u: Vertex, v: Vertex, base: SccId, x: Vertex, y: Vertex)
    requires SplitStart(e0, e, f0, c, u, v, base) && f0.Has(x, c) && Edge(e, x, y)
    ensures f0.Has(y, c) || y in Below(f0, c)
  {
    assert Edge(e0, x, y);
    assert f0.Has(y, f0.of[y]);
  }

  /** The callee still reaches the whole component: no path from it needs an edge back into it. */
  lemma CalleeReachesAll(e0: Edges, e: Edges, f0: Forest, c: SccId, u: Vertex, v: Vertex, base: SccId, x: Vertex)
    requires SplitStart(e0, e, f0, c, u, v, base) && f0.Has(x, c)
    ensures Reach(e, v, x)
  {
    assert Mutual(e0, v, x);
    ReachWithoutEdgeInto(e0, u, v, x);
    ReachOutside(e0 - {(u, v)}, e, {}, v, x);
  }

  /** Components other than c keep their members mutually reachable. */
  lemma OthersStay(e0: Edges, e: Edges, f0: Forest, c: SccId, u: Vertex, v: Vertex, base: SccId, x: Vertex, y: Vertex)
    requires SplitStart(e0, e, f0, c, u, v, base) && x in f0.of && y in f0.of && f0.of[x] == f0.of[y] != c
    ensures Reach(e, x, y)
  {
    var d := f0.of[x];
    assert f0.Has(x, d) && f0.Has(y, d) && Mutual(e0, x, y);
    var r := f0.Rank(d);
    var s := set z | z in f0.of && f0.Rank(f0.of[z]) < r;
    var t := set z | z in f0.of && f0.Rank(f0.of[z]) <= r;
    assert f0.Rank(c) != r;
    ReachWithin(e0, e, s, t, x, y);
  }

  // ---------------------------------------------------------------- the settled forest

  lemma SettledParents(f0: Forest, c: SccId, base: SccId, next: SccId, g: Forest)
    ensures var low, ids := SettledForest(f0, c, base, next, g), SettledIds(f0, c, base, next);
            forall d :: low.Parents(d) == if d in ids then g.Parents(d) * ids else {}
  {
  }

  lemma SettledHas(e: Edges, f0: Forest, c: SccId, v: Vertex, base: SccId, next: SccId, g: Forest)
    requires SplitNodes(e, f0, c, v, base, next, g) && f0.Partition() && forall d :: d in f0.rank ==> d < base
    ensures var low, ids := SettledForest(f0, c, base, next, g), SettledIds(f0, c, base, next);
            && (forall x, d :: low.Has(x, d) <==> g.Has(x, d) && d in ids)
            && (forall d :: low.Parents(d) == if d in ids then g.Parents(d) * ids else {})
  {
    hide Forest.Parents;
    SettledParents(f0, c, base, next, g);
    var low, ids := SettledForest(f0, c, base, next, g), SettledIds(f0, c, base, next);
    forall x, d
      ensures low.Has(x, d) <==> g.Has(x, d) && d in ids
    {
      if x in g.of {
        assert f0.Has(x, f0.of[x]);
        if f0.of[x] != c { assert g.Has(x, f0.of[x]); }
      }
    }
  }

  /** low is the part of f0 ranked below c. */
  ghost predicate IsLower(f0: Forest, c: SccId, low: Forest) {
    && (forall x, d :: low.Has(x, d) <==> f0.Has(x, d) && f0.Rank(d) < f0.Rank(c))
    && (forall d :: d in low.rank <==> d in f0.rank && f0.Rank(d) < f0.Rank(c))
    && low.parents.Keys == low.rank.Keys
    && (forall d :: d in low.rank ==> low.Rank(d) == f0.Rank(d))
    && (forall d, p :: d in low.rank ==> (p in low.Parents(d) <==> p in f0.Parents(d) && p in low.rank))
    && (forall d :: d in low.leaves <==> d in f0.leaves && d in low.rank)
  }

  lemma InitValid(e0: Edges, e: Edges, f0: Forest, c: SccId, u: Vertex, v: Vertex, base: SccId, low: Forest)
    requires SplitStart(e0, e, f0, c, u, v, base) && IsLower(f0, c, low)
    ensures low.Valid(e)
  {
    forall d | d in low.rank
      ensures exists x :: low.Has(x, d)
    {
      var x :| f0.Has(x, d);
      assert low.Has(x, d);
    }
    forall x, y | x in low.of && Edge(e, x, y)
      ensures y in low.of && low.Rank(low.of[y]) <= low.Rank(low.of[x])
    {
      assert low.Has(x, low.of[x]) && f0.Has(x, low.of[x]) && Edge(e0, x, y);
      assert f0.Has(y, f0.of[y]) && low.Has(y, f0.of[y]);
    }
    forall x, y, d | low.Has(x, d) && low.Has(y, d)
      ensures Mutual(e, x, y)
    {
      assert f0.Has(x, d) && f0.Has(y, d);
      OthersStay(e0, e, f0, c, u, v, base, x, y);
      OthersStay(e0, e, f0, c, u, v, base, y, x);
    }
    assert low.ParentsLater();
  }

  lemma InitCalls(e0: Edges, e: Edges, f0: Forest, c: SccId, u: Vertex, v: Vertex, base: SccId, low: Forest)
    requires SplitStart(e0, e, f0, c, u, v, base) && IsLower(f0, c, low)
    ensures forall a, b :: a in low.rank ==> (low.Calls(e, a, b) <==> f0.Calls(e0, a, b))
  {
    forall a, b | a in low.rank
      ensures low.Calls(e, a, b) <==> f0.Calls(e0, a, b)
    {
      if low.Calls(e, a, b) {
        var x, y :| low.Has(x, a) && low.Has(y, b) && Edge(e, x, y);
        assert f0.Has(x, a) && f0.Has(y, b) && Edge(e0, x, y);
      }
      if f0.Calls(e0, a, b) {
        var x, y :| f0.Has(x, a) && f0.Has(y, b) && Edge(e0, x, y);
        assert Edge(e, x, y) && low.Has(x, a) && low.Has(y, b);
      }
    }
  }

  lemma InitParents(e0: Edges, e: Edges, f0: Forest, c: SccId, u: Vertex, v: Vertex, base: SccId, low: Forest)
    requires SplitStart(e0, e, f0, c, u, v, base) && IsLower(f0, c, low) && f0.ParentsExact(e0)
    ensures low.ParentsExact(e)
  {
    InitCalls(e0, e, f0, c, u, v, base, low);
    forall d, p | d in low.rank && p in low.rank
      ensures low.ExactAt(e, d, p)
    {
      assert f0.ExactAt(e0, d, p);
    }
  }

  lemma InitLeaves(e0: Edges, e: Edges, f0: Forest, c: SccId, u: Vertex, v: Vertex, base: SccId, low: Forest)
    requires SplitStart(e0, e, f0, c, u, v, base) && IsLower(f0, c, low) && f0.LeavesExact(e0)
    ensures low.LeavesExact(e)
  {
    InitCalls(e0, e, f0, c, u, v, base, low);
    forall d | d in low.rank
      ensures d in low.leaves <==> low.IsLeaf(e, d)
    {
      assert d in f0.leaves <==> f0.IsLeaf(e0, d);
      if b :| b in f0.rank && b != d && f0.Calls(e0, d, b) {
        var x, y :| f0.Has(x, d) && f0.Has(y, b) && Edge(e0, x, y);
        assert b in low.rank && low.Calls(e, d, b);
      }
    }
  }

  lemma InitNodes(e0: Edges, e: Edges, f0: Forest, c: SccId, u: Vertex, v: Vertex, base: SccId, g: Forest)
    requires SplitStart(e0, e, f0, c, u, v, base)
    requires g.of == f0.of - f0.Members(c) + map[v := c]
    ensures SplitNodes(e, f0, c, v, base, base, g) && Erased(e, f0, c, g)
    ensures forall x, d :: g.Has(x, d) <==> (x == v && d == c) || (f0.Has(x, d) && d != c)
  {
    ReachRefl(e, v);
  }

  lemma InitTables(e0: Edges, e: Edges, f0: Forest, c: SccId, u: Vertex, v: Vertex, base: SccId, g: Forest)
    requires SplitStart(e0, e, f0, c, u, v, base)
    requires g.parents == f0.parents && g.leaves == f0.leaves && g.rank == f0.rank
    ensures SplitTables(f0, c, base, base, g)
  {
    assert f0.Has(u, c);
  }

  lemma InitLower(e0: Edges, e: Edges, f0: Forest, c: SccId, u: Vertex, v: Vertex, base: SccId, g: Forest)
    requires SplitStart(e0, e, f0, c, u, v, base) && SplitNodes(e, f0, c, v, base, base, g)
    requires g.parents == f0.parents && g.leaves == f0.leaves
    requires forall x, d :: g.Has(x, d) <==> (x == v && d == c) || (f0.Has(x, d) && d != c)
    ensures IsLower(f0, c, SettledForest(f0, c, base, base, g))
  {
    hide SplitNodes, Settled, SettledForest, SettledIds, Forest.Linked, Forest.ParentsLater, Forest.Has, Drops;
    SettledHas(e, f0, c, v, base, base, g);
    InitIds(f0, c, base);
    SettledShape(f0, c, base, base, g);
    LowerParts(f0, c, g, SettledForest(f0, c, base, base, g), SettledIds(f0, c, base, base));
    assert f0.Has(v, c);
  }

  lemma LowerParts(f0: Forest, c: SccId, g: Forest, low: Forest, ids: set<SccId>)
    requires g.parents == f0.parents && g.leaves == f0.leaves && low.leaves == g.leaves * ids
    requires forall d :: d in ids <==> d in f0.rank && f0.Rank(d) < f0.Rank(c)
    requires low.rank.Keys == ids && low.parents.Keys == ids
    requires forall d :: low.Parents(d) == if d in ids then g.Parents(d) * ids else {}
    ensures forall d :: d in low.rank <==> d in f0.rank && f0.Rank(d) < f0.Rank(c)
    ensures low.parents.Keys == low.rank.Keys
    ensures forall d, p :: d in low.rank ==> (p in low.Parents(d) <==> p in f0.Parents(d) && p in low.rank)
    ensures forall d :: d in low.leaves <==> d in f0.leaves && d in low.rank
  {
    hide Forest.Rank, Forest.Parents;
    SameParents(f0, g);
  }

  lemma SameParents(f: Forest, g: Forest)
    requires g.parents == f.parents
    ensures forall d :: g.Parents(d) == f.Parents(d)
  {
  }

  lemma SettledShape(f0: Forest, c: SccId, base: SccId, next: SccId, g: Forest)
    ensures var low, ids := SettledForest(f0, c, base, next, g), SettledIds(f0, c, base, next);
            && low.rank.Keys == ids && low.parents.Keys == ids && low.leaves == g.leaves * ids
            && (forall d :: d in ids ==> low.Rank(d) == if d in f0.rank then f0.Rank(d) else f0.Rank(c) + d - base)
            && (forall d :: d in ids ==> low.parents[d] == g.Parents(d) * ids)
  {
  }

  lemma InitIds(f0: Forest, c: SccId, base: SccId)
    ensures forall d :: d in SettledIds(f0, c, base, base) <==> d in f0.rank && f0.Rank(d) < f0.Rank(c)
  {
  }

  /** Before the walk, what is settled is everything below c. */
  lemma SplitInit(e0: Edges, e: Edges, f0: Forest, c: SccId, u: Vertex, v: Vertex, base: SccId, g: Forest)
    requires SplitStart(e0, e, f0, c, u, v, base)
    requires g == f0.(of := f0.of - f0.Members(c) + map[v := c])
    ensures Splitting(e0, e, f0, c, v, base, base, g)
  {
    hide Forest.Valid, Forest.ParentsExact, Forest.LeavesExact, SplitNodes, SplitTables, Erased, SplitStart, IsLower,
         SettledForest;
    InitNodes(e0, e, f0, c, u, v, base, g);
    InitTables(e0, e, f0, c, u, v, base, g);
    InitLower(e0, e, f0, c, u, v, base, g);
    var low := SettledForest(f0, c, base, base, g);
    InitValid(e0, e, f0, c, u, v, base, low);
    if f0.ParentsExact(e0) { InitParents(e0, e, f0, c, u, v, base, low); }
    if f0.LeavesExact(e0) { InitLeaves(e0, e, f0, c, u, v, base, low); }
  }

  // ---------------------------------------------------------------- steps of the walk

  lemma SettledSame(f0: Forest, c: SccId, base: SccId, next: SccId, g: Forest, g': Forest)
    requires Settled(f0, c, g') == Settled(f0, c, g) && g'.leaves == g.leaves
    requires forall x :: x in Settled(f0, c, g) ==> x in g'.of && x in g.of && g'.of[x] == g.of[x]
    requires forall d :: g'.Parents(d) * SettledIds(f0, c, base, next) == g.Parents(d) * SettledIds(f0, c, base, next)
    ensures SettledForest(f0, c, base, next, g') == SettledForest(f0, c, base, next, g)
  {
    hide SettledIds, Settled, Forest.Parents;
    var low, low' := SettledForest(f0, c, base, next, g), SettledForest(f0, c, base, next, g');
    assert low.of == low'.of;
    assert low.rank == low'.rank;
  }

  lemma SettledOf(f0: Forest, c: SccId, g: Forest)
    ensures forall x :: x in Settled(f0, c, g) ==> x in g.of
  {
  }

  lemma EraseTables(f0: Forest, c: SccId, base: SccId, next: SccId, g: Forest, g': Forest, d: SccId)
    requires SplitTables(f0, c, base, next, g) && c < base
    requires d in g.parents && g' == g.(parents := g.parents[d := g.parents[d] - {c}])
    ensures SplitTables(f0, c, base, next, g')
    ensures forall b :: g'.Parents(b) == if b == d then g.Parents(b) - {c} else g.Parents(b)
  {
    assert forall b :: g'.Parents(b) == if b == d then g.Parents(b) - {c} else g.Parents(b);
    FewerParentsTables(f0, c, base, next, g, g');
  }

  lemma FewerParentsTables(f0: Forest, c: SccId, base: SccId, next: SccId, g: Forest, g': Forest)
    requires SplitTables(f0, c, base, next, g) && g'.parents.Keys == g.parents.Keys && g'.leaves == g.leaves
             && g'.rank == g.rank
    requires forall b, p :: p in g'.Parents(b) ==> p in g.Parents(b)
    requires forall b, p :: p in g.Parents(b) && p != c ==> p in g'.Parents(b)
    ensures SplitTables(f0, c, base, next, g')
  {
    hide Forest.Parents, Forest.Rank;
  }

  lemma SameOfNodes(e: Edges, f0: Forest, c: SccId, v: Vertex, base: SccId, next: SccId, g: Forest, g': Forest)
    requires SplitNodes(e, f0, c, v, base, next, g) && g'.of == g.of
    ensures SplitNodes(e, f0, c, v, base, next, g')
    ensures Settled(f0, c, g') == Settled(f0, c, g)
  {
  }

  lemma StartFacts(e0: Edges, e: Edges, f0: Forest, c: SccId, u: Vertex, v: Vertex, base: SccId, next: SccId)
    requires SplitStart(e0, e, f0, c, u, v, base)
    ensures c < base && c !in SettledIds(f0, c, base, next) && (forall d :: d in f0.rank ==> d < base) && f0.Valid(e0)
  {
  }

  lemma ErasedKept(e: Edges, f0: Forest, c: SccId, g: Forest, g': Forest)
    requires Erased(e, f0, c, g) && Settled(f0, c, g') == Settled(f0, c, g)
    requires forall d, p :: p in g'.Parents(d) ==> p in g.Parents(d)
    ensures Erased(e, f0, c, g')
  {
    hide Settled, Forest.Parents;
  }

  /** Taking c out of a parent set does not touch what is settled. */
  lemma SplitErase(e0: Edges, e: Edges, f0: Forest, c: SccId, u: Vertex, v: Vertex, base: SccId, next: SccId,
                   g: Forest, g': Forest, d: SccId)
    requires SplitStart(e0, e, f0, c, u, v, base) && Splitting(e0, e, f0, c, v, base, next, g)
    requires d in g.parents && g' == g.(parents := g.parents[d := g.parents[d] - {c}])
    ensures Splitting(e0, e, f0, c, v, base, next, g')
  {
    hide SplitStart, Forest.Valid, SettledForest, SettledIds, Settled, SplitNodes, SplitTables, Forest.Parents, Below,
         Erased;
    StartFacts(e0, e, f0, c, u, v, base, next);
    EraseTables(f0, c, base, next, g, g', d);
    SameOfNodes(e, f0, c, v, base, next, g, g');
    SettledOf(f0, c, g);
    SettledSame(f0, c, base, next, g, g');
    ErasedKept(e, f0, c, g, g');
  }

  lemma FlushNodes(e: Edges, f0: Forest, c: SccId, v: Vertex, base: SccId, next: SccId, g: Forest, g': Forest,
                   s: set<Vertex>)
    requires SplitNodes(e, f0, c, v, base, next, g) && g'.of == Joined(g.of, s, c)
    requires forall x :: x in s ==> f0.Has(x, c) && x !in g.of && Reach(e, x, v)
    ensures SplitNodes(e, f0, c, v, base, next, g')
    ensures Settled(f0, c, g') == Settled(f0, c, g)
    ensures forall x :: x in Settled(f0, c, g) ==> x in g.of && x in g'.of && g'.of[x] == g.of[x]
  {
    assert forall x, d :: g'.Has(x, d) <==> g.Has(x, d) || (x in s && d == c);
    forall x
      ensures x in Settled(f0, c, g') <==> x in Settled(f0, c, g)
    {
    }
  }

  lemma SameTablesKept(f0: Forest, c: SccId, base: SccId, next: SccId, g: Forest, g': Forest)
    requires SplitTables(f0, c, base, next, g) && g'.parents == g.parents && g'.leaves == g.leaves && g'.rank == g.rank
    ensures SplitTables(f0, c, base, next, g') && forall d :: g'.Parents(d) == g.Parents(d)
  {
    SameParents(g, g');
    FewerParentsTables(f0, c, base, next, g, g');
  }

  /** The short cut: nodes that reach the callee join c. */
  lemma SplitFlush(e0: Edges, e: Edges, f0: Forest, c: SccId, u: Vertex, v: Vertex, base: SccId, next: SccId,
                   g: Forest, g': Forest, s: set<Vertex>)
    requires SplitStart(e0, e, f0, c, u, v, base) && Splitting(e0, e, f0, c, v, base, next, g)
    requires g' == g.(of := Joined(g.of, s, c))
    requires forall x :: x in s ==> f0.Has(x, c) && x !in g.of && Reach(e, x, v)
    ensures Splitting(e0, e, f0, c, v, base, next, g')
  {
    hide SplitStart, Forest.Valid, SettledForest, SettledIds, Settled, SplitNodes, SplitTables, Forest.Parents, Below,
         Joined, Erased;
    FlushNodes(e, f0, c, v, base, next, g, g', s);
    SameTablesKept(f0, c, base, next, g, g');
    SettledSame(f0, c, base, next, g, g');
    ErasedKept(e, f0, c, g, g');
  }

  /** What forming a new component inside c requires and does. */
  ghost predicate FormsInside(e: Edges, f0: Forest, c: SccId, next: SccId, g: Forest, g': Forest,
                              s: set<Vertex>, ns: seq<Vertex>, kids: set<SccId>) {
    && (forall x :: x in s ==> f0.Has(x, c))
    && IsScc(e, s) && Closed(e, Settled(f0, c, g)) && Closed(e, Settled(f0, c, g) + s)
    && Formed(e, g, g', next, s, ns, kids) && g'.rank == g.rank
    && (forall x, y {:trigger Edge(e, x, y)} ::
         x in s && Edge(e, x, y) && y in Below(f0, c) ==> c !in g.Parents(f0.of[y]))
  }

  lemma FormNodes(e0: Edges, e: Edges, f0: Forest, c: SccId, u: Vertex, v: Vertex, base: SccId, next: SccId,
                  g: Forest, g': Forest, s: set<Vertex>, ns: seq<Vertex>, kids: set<SccId>)
    requires SplitStart(e0, e, f0, c, u, v, base) && base <= next && SplitNodes(e, f0, c, v, base, next, g)
    requires FormsInside(e, f0, c, next, g, g', s, ns, kids)
    ensures SplitNodes(e, f0, c, v, base, next + 1, g')
    ensures Settled(f0, c, g') == Settled(f0, c, g) + s
    ensures forall x, d :: g'.Has(x, d) <==> g.Has(x, d) || (x in s && d == next)
  {
    assert c < base by { assert f0.Has(u, c); }
    forall x, d
      ensures g'.Has(x, d) <==> g.Has(x, d) || (x in s && d == next)
    {
    }
  }

  lemma KidIsSettled(e: Edges, f0: Forest, c: SccId, v: Vertex, base: SccId, next: SccId, g: Forest, g': Forest,
                     s: set<Vertex>, ns: seq<Vertex>, kids: set<SccId>, d: SccId)
    requires f0.Partition() && c < base <= next && SplitNodes(e, f0, c, v, base, next, g)
             && FormsInside(e, f0, c, next, g, g', s, ns, kids)
    requires d in kids && forall b :: b in f0.rank ==> b < base
    ensures d in SettledIds(f0, c, base, next)
  {
    assert CallsGroup(e, g'.of, ns, d);
    var x, y :| x in ns && Edge(e, x, y) && y in g'.of && g'.of[y] == d;
    assert x in Elements(ns) && y in Settled(f0, c, g) + s;
    assert y !in s;
    if y in Below(f0, c) {
      assert f0.Has(y, f0.of[y]) && g.Has(y, f0.of[y]);
    }
  }

  lemma FormParents(e0: Edges, e: Edges, f0: Forest, c: SccId, u: Vertex, v: Vertex, base: SccId, next: SccId,
                    g: Forest, g': Forest, s: set<Vertex>, ns: seq<Vertex>, kids: set<SccId>)
    requires SplitStart(e0, e, f0, c, u, v, base) && base <= next && SplitTables(f0, c, base, next, g)
    requires SplitNodes(e, f0, c, v, base, next, g)
    requires FormsInside(e, f0, c, next, g, g', s, ns, kids)
    ensures forall d :: g'.Parents(d) == if d == next then {} else g.Parents(d) + (if d in kids then {next} else {})
    ensures kids <= SettledIds(f0, c, base, next)
  {
    forall d | d in kids
      ensures d in SettledIds(f0, c, base, next)
    {
      KidIsSettled(e, f0, c, v, base, next, g, g', s, ns, kids, d);
    }
  }

  lemma FormTables(f0: Forest, c: SccId, base: SccId, next: SccId, g: Forest, g': Forest, kids: set<SccId>)
    requires c < base <= next && SplitTables(f0, c, base, next, g) && forall d :: d in f0.rank ==> d < base
    requires forall d :: g'.Parents(d) == if d == next then {} else g.Parents(d) + (if d in kids then {next} else {})
    requires kids <= SettledIds(f0, c, base, next)
    requires g'.parents.Keys == g.parents.Keys + {next} && g'.rank == g.rank
    requires g'.leaves == g.leaves + (if kids == {} then {next} else {})
    ensures SplitTables(f0, c, base, next + 1, g')
  {
    hide SplitLeaves, OldParents, Forest.Parents;
    FormLeaves(f0, base, next, g, g', kids);
    FormOldParents(f0, c, base, next, g, g', kids);
    assert NewIds(base, next + 1) == NewIds(base, next) + {next};
  }

  lemma FormOldParents(f0: Forest, c: SccId, base: SccId, next: SccId, g: Forest, g': Forest, kids: set<SccId>)
    requires c < base <= next && OldParents(f0, c, base, next, g) && forall d :: d in f0.rank ==> d < base
    requires forall d :: g'.Parents(d) == if d == next then {} else g.Parents(d) + (if d in kids then {next} else {})
    requires kids <= SettledIds(f0, c, base, next)
    ensures OldParents(f0, c, base, next + 1, g')
  {
    hide Forest.Parents;
  }

  lemma FormLeaves(f0: Forest, base: SccId, next: SccId, g: Forest, g': Forest, kids: set<SccId>)
    requires base <= next && SplitLeaves(f0, base, next, g)
             && g'.leaves == g.leaves + (if kids == {} then {next} else {})
    ensures SplitLeaves(f0, base, next + 1, g')
  {
  }

  lemma FormErased(e0: Edges, e: Edges, f0: Forest, c: SccId, u: Vertex, v: Vertex, base: SccId, next: SccId,
                   g: Forest, g': Forest, s: set<Vertex>, ns: seq<Vertex>, kids: set<SccId>)
    requires SplitStart(e0, e, f0, c, u, v, base) && base <= next && Erased(e, f0, c, g)
    requires FormsInside(e, f0, c, next, g, g', s, ns, kids)
    requires Settled(f0, c, g') == Settled(f0, c, g) + s
    requires forall d :: g'.Parents(d) == if d == next then {} else g.Parents(d) + (if d in kids then {next} else {})
    ensures Erased(e, f0, c, g')
  {
    hide Forest.Valid, Forest.Linked;
    assert c != next;
    forall y | y in Below(f0, c) && c !in g.Parents(f0.of[y])
      ensures c !in g'.Parents(f0.of[y])
    {
    }
  }

  lemma FormSettledOf(f0: Forest, c: SccId, base: SccId, next: SccId, g: Forest, g': Forest, s: set<Vertex>)
    requires base <= next && g'.of == Joined(g.of, s, next) && s !! g.of.Keys
    requires Settled(f0, c, g') == Settled(f0, c, g) + s
    requires forall x :: x in Settled(f0, c, g) ==> x in g.of
    ensures SettledForest(f0, c, base, next + 1, g').of == Joined(SettledForest(f0, c, base, next, g).of, s, next)
  {
    hide Settled, SettledIds;
  }

  lemma FormSettledParents(f0: Forest, c: SccId, base: SccId, next: SccId, g: Forest, g': Forest, kids: set<SccId>)
    requires (forall d :: d in f0.rank ==> d < base) && base <= next && SplitTables(f0, c, base, next, g)
    requires forall d :: g'.Parents(d) == if d == next then {} else g.Parents(d) + (if d in kids then {next} else {})
    requires g'.leaves == g.leaves + (if kids == {} then {next} else {})
    ensures var low, low' := SettledForest(f0, c, base, next, g), SettledForest(f0, c, base, next + 1, g');
            && low'.parents.Keys == low.parents.Keys + {next} && low'.parents[next] == {}
            && (forall d :: d in low.parents ==> low'.parents[d] == low.parents[d] + (if d in kids then {next} else {}))
            && low'.leaves == low.leaves + (if kids == {} then {next} else {}) && next !in low.leaves
  {
    hide SettledForest, SettledIds, SplitTables, Settled, Forest.Parents;
    SettledShape(f0, c, base, next, g);
    SettledShape(f0, c, base, next + 1, g');
    MoreIds(f0, c, base, next);
    NextUnlisted(f0, c, base, next, g);
  }

  lemma MoreIds(f0: Forest, c: SccId, base: SccId, next: SccId)
    requires (forall d :: d in f0.rank ==> d < base) && base <= next
    ensures SettledIds(f0, c, base, next + 1) == SettledIds(f0, c, base, next) + {next}
    ensures next !in SettledIds(f0, c, base, next)
  {
  }

  lemma NextUnlisted(f0: Forest, c: SccId, base: SccId, next: SccId, g: Forest)
    requires (forall d :: d in f0.rank ==> d < base) && base <= next && SplitTables(f0, c, base, next, g)
    ensures forall d :: d in SettledIds(f0, c, base, next) ==> next !in g.Parents(d)
    ensures next !in g.leaves
  {
    forall d | d in SettledIds(f0, c, base, next)
      ensures next !in g.Parents(d)
    {
      assert d in f0.rank && next in g.Parents(d) ==> next in f0.rank || base <= next < next;
      assert d !in f0.rank ==> base <= d < next;
    }
  }

  lemma FormSettledRanks(f0: Forest, c: SccId, base: SccId, next: SccId, g: Forest, g': Forest)
    requires (forall d :: d in f0.rank ==> d < base) && base <= next
    ensures var low, low' := SettledForest(f0, c, base, next, g), SettledForest(f0, c, base, next + 1, g');
            && low'.rank.Keys == low.rank.Keys + {next} && next !in low.rank
            && (forall d :: d in low.rank ==> low'.Rank(d) == low.Rank(d) < low'.Rank(next))
  {
    hide SettledForest, SettledIds;
    SettledShape(f0, c, base, next, g);
    SettledShape(f0, c, base, next + 1, g');
    MoreIds(f0, c, base, next);
    IdsRange(f0, c, base, next);
  }

  lemma IdsRange(f0: Forest, c: SccId, base: SccId, next: SccId)
    ensures forall d ::
              d in SettledIds(f0, c, base, next) ==> (d in f0.rank && f0.Rank(d) < f0.Rank(c)) || base <= d < next
  {
  }

  lemma FormSettledKids(e: Edges, f0: Forest, c: SccId, base: SccId, next: SccId, g: Forest, g': Forest,
                        s: set<Vertex>, ns: seq<Vertex>, kids: set<SccId>)
    requires KidsOf(e, g'.of, ns, next, kids) && Elements(ns) == s && base <= next
    requires Closed(e, Settled(f0, c, g) + s) && Settled(f0, c, g') == Settled(f0, c, g) + s
    ensures KidsOf(e, SettledForest(f0, c, base, next + 1, g').of, ns, next, kids)
  {
    var low' := SettledForest(f0, c, base, next + 1, g');
    forall d
      ensures CallsGroup(e, low'.of, ns, d) <==> CallsGroup(e, g'.of, ns, d)
    {
      if x, y :| x in ns && Edge(e, x, y) && y in g'.of && g'.of[y] == d {
        assert x in Elements(ns) && y in Settled(f0, c, g) + s && y in low'.of;
      }
    }
  }

  lemma SettledKeys(f0: Forest, c: SccId, base: SccId, next: SccId, g: Forest)
    ensures SettledForest(f0, c, base, next, g).of.Keys == Settled(f0, c, g)
  {
  }

  lemma FormDisjoint(f0: Forest, c: SccId, g: Forest, next: SccId, s: set<Vertex>)
    requires s !! g.of.Keys
    ensures s !! Settled(f0, c, g)
  {
  }

  /** The settled forest grows by one completed component. */
  lemma FormForest(e0: Edges, e: Edges, f0: Forest, c: SccId, v: Vertex, base: SccId, next: SccId,
                   g: Forest, g': Forest, s: set<Vertex>, ns: seq<Vertex>, kids: set<SccId>)
    requires (forall d :: d in f0.rank ==> d < base) && base <= next
    requires SplitTables(f0, c, base, next, g) && SplitForest(e0, e, f0, c, base, next, g)
    requires FormsInside(e, f0, c, next, g, g', s, ns, kids)
    requires Settled(f0, c, g') == Settled(f0, c, g) + s
    requires forall d :: g'.Parents(d) == if d == next then {} else g.Parents(d) + (if d in kids then {next} else {})
    ensures SplitForest(e0, e, f0, c, base, next + 1, g')
  {
    hide SettledForest, SplitTables, Forest.Linked, Forest.ParentsLater, Forest.ParentsExact, Forest.LeavesExact,
         IsScc, Closed, KidsOf, Settled, Distinct;
    var low, low' := SettledForest(f0, c, base, next, g), SettledForest(f0, c, base, next + 1, g');
    FormDisjoint(f0, c, g, next, s);
    assert forall x :: x in Settled(f0, c, g) ==> x in g.of by { SettledOf(f0, c, g); }
    FormSettledOf(f0, c, base, next, g, g', s);
    FormSettledParents(f0, c, base, next, g, g', kids);
    FormSettledRanks(f0, c, base, next, g, g');
    FormSettledKids(e, f0, c, base, next, g, g', s, ns, kids);
    SettledKeys(f0, c, base, next, g);
    FormedExtends(e, low, low', next, s, ns, kids);
    ExtendsValid(e, low, low', next, s, kids);
  }

  /** Forming a component inside c keeps the invariant. */
  lemma SplitForm(e0: Edges, e: Edges, f0: Forest, c: SccId, u: Vertex, v: Vertex, base: SccId, next: SccId,
                  g: Forest, g': Forest, s: set<Vertex>, ns: seq<Vertex>, kids: set<SccId>)
    requires SplitStart(e0, e, f0, c, u, v, base) && Splitting(e0, e, f0, c, v, base, next, g)
    requires FormsInside(e, f0, c, next, g, g', s, ns, kids)
    ensures Splitting(e0, e, f0, c, v, base, next + 1, g')
  {
    hide SplitNodes, SplitTables, SplitForest, Erased, Forest.Valid;
    FormNodes(e0, e, f0, c, u, v, base, next, g, g', s, ns, kids);
    FormParents(e0, e, f0, c, u, v, base, next, g, g', s, ns, kids);
    FormTables(f0, c, base, next, g, g', kids);
    FormErased(e0, e, f0, c, u, v, base, next, g, g', s, ns, kids);
    FormForest(e0, e, f0, c, v, base, next, g, g', s, ns, kids);
  }

  // ---------------------------------------------------------------- the end of the walk

  /** New components go between what c calls and c; what calls c moves up. */
  ghost function FinalRank(f0: Forest, c: SccId, base: SccId, next: SccId): map<SccId, int> {
    Tabulate(f0.rank.Keys + NewIds(base, next),
             (d: SccId) => if base <= d < next then f0.Rank(c) + d - base
                  else if f0.Rank(d) < f0.Rank(c) then f0.Rank(d)
                  else f0.Rank(d) + next - base)
  }

  /** Every member is placed, and c has been connected to the components it calls. */
  ghost predicate SplitFinal(e: Edges, f0: Forest, c: SccId, base: SccId, next: SccId, g: Forest, g1: Forest,
                             kids: set<SccId>) {
    && (forall x :: x in f0.of ==> x in g.of)
    && g1.of == g.of && g1.parents.Keys == g.parents.Keys
    && (forall d :: g1.Parents(d) == g.Parents(d) + (if d in kids then {c} else {}))
    && (forall d :: d in kids <==> d != c && g.Calls(e, c, d))
    && g1.leaves == (if kids != {} && base < next then g.leaves - {c} else g.leaves)
    && g1.rank == FinalRank(f0, c, base, next)
  }

  /** Exactly the members that reach the callee stay. */
  lemma KeptExactly(e0: Edges, e: Edges, f0: Forest, c: SccId, u: Vertex, v: Vertex, base: SccId, next: SccId,
                    g: Forest)
    requires SplitStart(e0, e, f0, c, u, v, base) && Splitting(e0, e, f0, c, v, base, next, g)
    requires forall x :: x in f0.of ==> x in g.of
    ensures forall x :: g.Has(x, c) <==> f0.Has(x, c) && Reach(e, x, v)
  {
    forall x
      ensures g.Has(x, c) <==> f0.Has(x, c) && Reach(e, x, v)
    {
      assert f0.Has(v, c);
      if f0.Has(x, c) && Reach(e, x, v) && !g.Has(x, c) {
        SettledClosed(e0, e, f0, c, v, base, next, g);
        assert x in Settled(f0, c, g);
        ClosedReach(e, Settled(f0, c, g), x, v);
      }
    }
  }

  lemma SettledClosed(e0: Edges, e: Edges, f0: Forest, c: SccId, v: Vertex, base: SccId, next: SccId, g: Forest)
    requires SplitForest(e0, e, f0, c, base, next, g)
    ensures Closed(e, Settled(f0, c, g))
  {
    var low := SettledForest(f0, c, base, next, g);
    assert low.of.Keys == Settled(f0, c, g);
    GroupsClosed(e, low);
  }

  /** Which component a node can be in, and where that ranks. */
  lemma FinalHas(e0: Edges, e: Edges, f0: Forest, c: SccId, u: Vertex, v: Vertex, base: SccId, next: SccId, g: Forest,
                 x: Vertex, d: SccId)
    requires SplitStart(e0, e, f0, c, u, v, base) && Splitting(e0, e, f0, c, v, base, next, g) && g.Has(x, d)
    ensures f0.Has(x, f0.of[x])
    ensures f0.of[x] != c ==> d == f0.of[x] && d in f0.rank
    ensures f0.of[x] == c ==> d == c || base <= d < next
  {
    assert f0.Has(x, f0.of[x]);
    if f0.of[x] != c { assert g.Has(x, f0.of[x]); }
  }

  lemma FinalEdge(e0: Edges, e: Edges, f0: Forest, c: SccId, u: Vertex, v: Vertex, base: SccId, next: SccId,
                  g: Forest, x: Vertex, y: Vertex, a: SccId, b: SccId)
    requires SplitStart(e0, e, f0, c, u, v, base) && Splitting(e0, e, f0, c, v, base, next, g)
    requires g.Has(x, a) && g.Has(y, b) && Edge(e, x, y)
    ensures var r := FinalRank(f0, c, base, next); a in r && b in r && r[b] <= r[a] && (r[a] == r[b] ==> a == b)
  {
    FinalHas(e0, e, f0, c, u, v, base, next, g, x, a);
    FinalHas(e0, e, f0, c, u, v, base, next, g, y, b);
    assert Edge(e0, x, y);
    if base <= a < next {
      var low := SettledForest(f0, c, base, next, g);
      SettledHas(e, f0, c, v, base, next, g);
      SettledClosed(e0, e, f0, c, v, base, next, g);
      assert x in Settled(f0, c, g);
      assert low.Has(x, a) && low.Has(y, b);
      assert low.Rank(b) <= low.Rank(a);
    }
  }

  lemma FinalLinked(e0: Edges, e: Edges, f0: Forest, c: SccId, u: Vertex, v: Vertex, base: SccId, next: SccId,
                    g: Forest, g1: Forest, kids: set<SccId>)
    requires SplitStart(e0, e, f0, c, u, v, base) && Splitting(e0, e, f0, c, v, base, next, g)
    requires SplitFinal(e, f0, c, base, next, g, g1, kids)
    ensures g1.Linked(e)
  {
    hide FinalRank, SplitTables, SplitForest, Erased;
    forall x, y | x in g1.of && Edge(e, x, y)
      ensures y in g1.of && g1.Rank(g1.of[y]) <= g1.Rank(g1.of[x])
    {
      assert x in f0.of && Edge(e0, x, y) && y in f0.of;
      assert g.Has(x, g.of[x]) && g.Has(y, g.of[y]);
      FinalEdge(e0, e, f0, c, u, v, base, next, g, x, y, g.of[x], g.of[y]);
    }
    forall x, y, d | g1.Has(x, d) && g1.Has(y, d)
      ensures Mutual(e, x, y)
    {
      assert g.Has(x, d) && g.Has(y, d);
      FinalMutual(e0, e, f0, c, u, v, base, next, g, x, y, d);
    }
    forall a, b | a in g1.rank && b in g1.rank && g1.Rank(a) == g1.Rank(b)
      ensures a == b
    {
      FinalRanksDiffer(e0, e, f0, c, u, v, base, next, a, b);
    }
  }

  lemma FinalRanksDiffer(e0: Edges, e: Edges, f0: Forest, c: SccId, u: Vertex, v: Vertex, base: SccId, next: SccId,
                         a: SccId, b: SccId)
    requires SplitStart(e0, e, f0, c, u, v, base) && base <= next
    requires var r := FinalRank(f0, c, base, next); a in r && b in r && r[a] == r[b]
    ensures a == b
  {
  }

  lemma FinalMutual(e0: Edges, e: Edges, f0: Forest, c: SccId, u: Vertex, v: Vertex, base: SccId, next: SccId,
                    g: Forest, x: Vertex, y: Vertex, d: SccId)
    requires SplitStart(e0, e, f0, c, u, v, base) && Splitting(e0, e, f0, c, v, base, next, g)
    requires g.Has(x, d) && g.Has(y, d)
    ensures Mutual(e, x, y)
  {
    hide SplitTables, Erased;
    FinalHas(e0, e, f0, c, u, v, base, next, g, x, d);
    FinalHas(e0, e, f0, c, u, v, base, next, g, y, d);
    if base <= d < next {
      var low := SettledForest(f0, c, base, next, g);
      SettledHas(e, f0, c, v, base, next, g);
      assert low.Has(x, d) && low.Has(y, d);
    } else if d == c {
      CalleeReachesAll(e0, e, f0, c, u, v, base, x);
      CalleeReachesAll(e0, e, f0, c, u, v, base, y);
      ReachTrans(e, x, v, y);
      ReachTrans(e, y, v, x);
    } else {
      OthersStay(e0, e, f0, c, u, v, base, x, y);
      OthersStay(e0, e, f0, c, u, v, base, y, x);
    }
  }

  lemma FinalPartition(e0: Edges, e: Edges, f0: Forest, c: SccId, u: Vertex, v: Vertex, base: SccId, next: SccId,
                       g: Forest, g1: Forest, kids: set<SccId>)
    requires SplitStart(e0, e, f0, c, u, v, base) && Splitting(e0, e, f0, c, v, base, next, g)
    requires SplitFinal(e, f0, c, base, next, g, g1, kids)
    ensures g1.Partition()
  {
    hide SplitForest, Erased, Forest.Linked, Forest.ParentsLater, SettledForest, Forest.Calls;
    assert g1.parents.Keys == g1.rank.Keys;
    forall x, d | g1.Has(x, d)
      ensures d in g1.rank
    {
      assert g.Has(x, d);
      FinalHas(e0, e, f0, c, u, v, base, next, g, x, d);
    }
    forall d | d in g1.rank
      ensures exists x :: g1.Has(x, d)
    {
      if base <= d < next {
        var low := SettledForest(f0, c, base, next, g);
        SettledFacts(e0, e, f0, c, u, v, base, next, g);
        assert d in low.rank;
        var x :| low.Has(x, d);
        assert g1.Has(x, d);
      } else if d == c {
        assert g1.Has(v, c);
      } else {
        var x :| f0.Has(x, d);
        assert g.Has(x, f0.of[x]) && g1.Has(x, d);
      }
    }
  }

  lemma FinalLater(e0: Edges, e: Edges, f0: Forest, c: SccId, u: Vertex, v: Vertex, base: SccId, next: SccId,
                   g: Forest, g1: Forest, kids: set<SccId>)
    requires SplitStart(e0, e, f0, c, u, v, base) && Splitting(e0, e, f0, c, v, base, next, g)
    requires SplitFinal(e, f0, c, base, next, g, g1, kids)
    ensures g1.ParentsLater()
  {
    hide Splitting, SplitStart, FinalRank, Forest.Has;
    forall d, p | d in g1.rank && p in g1.Parents(d)
      ensures p in g1.rank && g1.Rank(d) < g1.Rank(p)
    {
      if d in kids && p == c {
        var x, y :| g.Has(x, c) && g.Has(y, d) && Edge(e, x, y);
        FinalEdge(e0, e, f0, c, u, v, base, next, g, x, y, c, d);
      } else {
        assert p in g.Parents(d);
        FinalOldParent(e0, e, f0, c, u, v, base, next, g, d, p);
      }
    }
  }

  lemma FinalOldParent(e0: Edges, e: Edges, f0: Forest, c: SccId, u: Vertex, v: Vertex, base: SccId, next: SccId,
                       g: Forest, d: SccId, p: SccId)
    requires SplitStart(e0, e, f0, c, u, v, base) && Splitting(e0, e, f0, c, v, base, next, g) && p in g.Parents(d)
    requires d in FinalRank(f0, c, base, next)
    ensures var r := FinalRank(f0, c, base, next); p in r && r[d] < r[p]
  {
    if d in f0.rank {
      hide SplitNodes, SplitForest, Erased, Forest.Linked;
      OldParentRanked(f0, c, base, next, g, d, p);
    } else {
      hide SplitNodes, Erased, Forest.Linked, Forest.Partition;
      NewParentRanked(e0, e, f0, c, v, base, next, g, d, p);
    }
  }

  lemma OldParentRanked(f0: Forest, c: SccId, base: SccId, next: SccId, g: Forest, d: SccId, p: SccId)
    requires f0.ParentsLater() && c in f0.rank && base <= next && SplitTables(f0, c, base, next, g)
    requires forall b :: b in f0.rank ==> b < base
    requires d in f0.rank && p in g.Parents(d)
    ensures var r := FinalRank(f0, c, base, next); p in r && r[d] < r[p]
  {
    if p in f0.rank {
      assert p in f0.Parents(d);
      assert f0.Rank(d) < f0.Rank(p);
    } else {
      assert f0.Rank(d) < f0.Rank(c);
    }
  }

  lemma NewParentRanked(e0: Edges, e: Edges, f0: Forest, c: SccId, v: Vertex, base: SccId, next: SccId, g: Forest,
                        d: SccId, p: SccId)
    requires base <= next && SplitTables(f0, c, base, next, g) && SplitForest(e0, e, f0, c, base, next, g)
    requires forall b :: b in f0.rank ==> b < base
    requires base <= d < next && p in g.Parents(d)
    ensures var r := FinalRank(f0, c, base, next); p in r && r[d] < r[p]
  {
    hide Forest.Partition, Forest.Linked;
    var low, ids := SettledForest(f0, c, base, next, g), SettledIds(f0, c, base, next);
    assert p in ids && d in ids;
    assert low.Parents(d) == g.Parents(d) * ids;
    assert low.Rank(d) < low.Rank(p);
  }

  // ---------------------------------------------------------------- parents at the end

  /** Every call into the old component from another one lands on a member that still reaches the
      callee, so that it stays in c. */
  ghost predicate CallersKept(e: Edges, f0: Forest, c: SccId, v: Vertex) {
    forall x, y {:trigger Edge(e, x, y)} ::
        x in f0.of && f0.of[x] != c && f0.Has(y, c) && Edge(e, x, y) ==> Reach(e, y, v)
  }

  ghost predicate SplitDone(e0: Edges, e: Edges, f0: Forest, c: SccId, u: Vertex, v: Vertex, base: SccId, next: SccId,
                            g: Forest, g1: Forest, kids: set<SccId>) {
    && SplitStart(e0, e, f0, c, u, v, base) && Splitting(e0, e, f0, c, v, base, next, g)
    && SplitFinal(e, f0, c, base, next, g, g1, kids)
  }

  lemma FinalSameHas(e: Edges, f: Forest, g: Forest, a: SccId, b: SccId)
    requires f.of == g.of
    ensures f.Calls(e, a, b) <==> g.Calls(e, a, b)
  {
    SameOf(e, f, g, a, b);
  }

  lemma ExactAmongSettled(e0: Edges, e: Edges, f0: Forest, c: SccId, u: Vertex, v: Vertex, base: SccId, next: SccId,
                          g: Forest, g1: Forest, kids: set<SccId>, d: SccId, p: SccId)
    requires SplitDone(e0, e, f0, c, u, v, base, next, g, g1, kids) && f0.ParentsExact(e0)
    requires d in SettledIds(f0, c, base, next) && p in SettledIds(f0, c, base, next)
    ensures g1.ExactAt(e, d, p)
  {
    hide SplitNodes, SplitTables, Erased, Forest.Partition, Forest.Linked, Forest.ParentsLater, SplitForest,
         Forest.Calls;
    var low, ids := SettledForest(f0, c, base, next, g), SettledIds(f0, c, base, next);
    SettledFacts(e0, e, f0, c, u, v, base, next, g);
    assert low.ExactAt(e, d, p);
    SettledCalls(e, low, g, ids, p, d);
    FinalSameHas(e, g, g1, p, d);
  }

  lemma SettledFacts(e0: Edges, e: Edges, f0: Forest, c: SccId, u: Vertex, v: Vertex, base: SccId, next: SccId,
                     g: Forest)
    requires SplitStart(e0, e, f0, c, u, v, base) && Splitting(e0, e, f0, c, v, base, next, g)
    ensures var low, ids := SettledForest(f0, c, base, next, g), SettledIds(f0, c, base, next);
            && (forall x, d :: low.Has(x, d) <==> g.Has(x, d) && d in ids)
            && (forall d :: low.Parents(d) == if d in ids then g.Parents(d) * ids else {})
            && low.rank.Keys == ids && c !in ids && low.leaves == g.leaves * ids && base <= next
            && low.of.Keys == Settled(f0, c, g) && Closed(e, Settled(f0, c, g)) && low.Valid(e)
            && (f0.ParentsExact(e0) ==> low.ParentsExact(e)) && (f0.LeavesExact(e0) ==> low.LeavesExact(e))
  {
    hide SettledForest, Settled, Forest.Linked, Forest.ParentsLater, Forest.ParentsExact, Forest.LeavesExact,
         Forest.Has, SplitTables, Erased, Closed;
    SettledHas(e, f0, c, v, base, next, g);
    SettledShape(f0, c, base, next, g);
    SettledKeys(f0, c, base, next, g);
    SettledClosed(e0, e, f0, c, v, base, next, g);
    assert f0.Has(u, c);
  }

  /** Calls out of a settled component lead to settled components. */
  lemma SettledCallsFrom(e: Edges, low: Forest, g: Forest, ids: set<SccId>, a: SccId, b: SccId)
    requires forall x, d :: low.Has(x, d) <==> g.Has(x, d) && d in ids
    requires a in ids && Closed(e, low.of.Keys)
    ensures low.Calls(e, a, b) <==> g.Calls(e, a, b)
    ensures g.Calls(e, a, b) ==> b in ids
  {
    if low.Calls(e, a, b) {
      var x, y :| low.Has(x, a) && low.Has(y, b) && Edge(e, x, y);
      assert g.Has(x, a) && g.Has(y, b);
    }
    if g.Calls(e, a, b) {
      var x, y :| g.Has(x, a) && g.Has(y, b) && Edge(e, x, y);
      assert low.Has(x, a) && y in low.of && low.Has(y, low.of[y]);
      assert g.Has(y, low.of[y]);
    }
  }

  lemma SettledCalls(e: Edges, low: Forest, g: Forest, ids: set<SccId>, a: SccId, b: SccId)
    requires forall x, d :: low.Has(x, d) <==> g.Has(x, d) && d in ids
    requires a in ids && b in ids
    ensures low.Calls(e, a, b) <==> g.Calls(e, a, b)
  {
    if low.Calls(e, a, b) {
      var x, y :| low.Has(x, a) && low.Has(y, b) && Edge(e, x, y);
      assert g.Has(x, a) && g.Has(y, b);
    }
    if g.Calls(e, a, b) {
      var x, y :| g.Has(x, a) && g.Has(y, b) && Edge(e, x, y);
      assert low.Has(x, a) && low.Has(y, b);
    }
  }

  lemma SettledOrLeft(f0: Forest, c: SccId, g: Forest, x: Vertex)
    requires x in g.of && f0.Has(x, c)
    ensures g.Has(x, c) || x in Settled(f0, c, g)
  {
  }

  /** c is listed as a parent exactly of what its remaining members call. */
  lemma ExactForC(e0: Edges, e: Edges, f0: Forest, c: SccId, u: Vertex, v: Vertex, base: SccId, next: SccId,
                  g: Forest, g1: Forest, kids: set<SccId>, d: SccId)
    requires SplitDone(e0, e, f0, c, u, v, base, next, g, g1, kids) && f0.ParentsExact(e0) && d != c
    ensures g1.ExactAt(e, d, c)
  {
    hide SplitForest;
    FinalSameHas(e, g, g1, c, d);
    if c in g.Parents(d) {
      assert d in f0.rank && c in f0.Parents(d) by { OldParentOnly(f0, c, base, next, g, d); }
      assert f0.ExactAt(e0, d, c);
      var x, y :| f0.Has(x, c) && f0.Has(y, d) && Edge(e0, x, y);
      assert Edge(e, x, y) && y in Below(f0, c) && g.Has(y, d);
      assert x in g.of;
      assert g.Has(x, c) || x in Settled(f0, c, g) by { SettledOrLeft(f0, c, g, x); }
    }
  }

  lemma OldParentOnly(f0: Forest, c: SccId, base: SccId, next: SccId, g: Forest, d: SccId)
    requires SplitTables(f0, c, base, next, g) && c < base && f0.parents.Keys == f0.rank.Keys && c in g.Parents(d)
    ensures d in f0.rank && c in f0.Parents(d)
  {
    assert d in g.parents;
  }

  lemma OldGroups(e0: Edges, e: Edges, f0: Forest, c: SccId, u: Vertex, v: Vertex, base: SccId, next: SccId, g: Forest,
                  d: SccId)
    requires SplitStart(e0, e, f0, c, u, v, base) && Splitting(e0, e, f0, c, v, base, next, g)
    requires forall x :: x in f0.of ==> x in g.of
    requires d in f0.rank && d != c
    ensures forall x :: g.Has(x, d) <==> f0.Has(x, d)
  {
    forall x
      ensures g.Has(x, d) <==> f0.Has(x, d)
    {
      if g.Has(x, d) { FinalHas(e0, e, f0, c, u, v, base, next, g, x, d); }
    }
  }

  /** What has left c does not reach the callee any more, so no caller from outside keeps it. */
  lemma NewNotCalled(e0: Edges, e: Edges, f0: Forest, c: SccId, u: Vertex, v: Vertex, base: SccId, next: SccId,
                     g: Forest, x: Vertex, y: Vertex, p: SccId, d: SccId)
    requires SplitStart(e0, e, f0, c, u, v, base) && Splitting(e0, e, f0, c, v, base, next, g)
             && CallersKept(e, f0, c, v)
    requires forall z :: g.Has(z, c) <==> f0.Has(z, c) && Reach(e, z, v)
    requires f0.Has(x, p) && p != c && g.Has(y, d) && d !in f0.rank && d != c
    ensures !Edge(e, x, y)
  {
    hide SplitStart, Splitting, Reach;
    FinalHas(e0, e, f0, c, u, v, base, next, g, y, d);
    assert Edge(e, x, y) && f0.Has(y, c) ==> Reach(e, y, v);
  }


  /** Components that call c are listed with what they call, as long as CallersKept holds. */
  lemma ExactForCaller(e0: Edges, e: Edges, f0: Forest, c: SccId, u: Vertex, v: Vertex, base: SccId, next: SccId,
                       g: Forest, g1: Forest, kids: set<SccId>, d: SccId, p: SccId)
    requires SplitDone(e0, e, f0, c, u, v, base, next, g, g1, kids) && f0.ParentsExact(e0) && CallersKept(e, f0, c, v)
    requires p in f0.rank && f0.Rank(p) > f0.Rank(c) && d in g1.rank
    ensures g1.ExactAt(e, d, p)
  {
    hide SplitForest, Erased, Forest.Linked, Forest.ParentsLater;
    FinalSameHas(e, g, g1, p, d);
    OldGroups(e0, e, f0, c, u, v, base, next, g, p);
    KeptExactly(e0, e, f0, c, u, v, base, next, g);
    if d in f0.rank {
      assert f0.ExactAt(e0, d, p);
      if d != c { OldGroups(e0, e, f0, c, u, v, base, next, g, d); }
      if f0.Calls(e0, p, d) {
        var x, y :| f0.Has(x, p) && f0.Has(y, d) && Edge(e0, x, y);
        assert Edge(e, x, y) && g.Has(x, p);
        assert g.Has(y, d);
      }
      if g.Calls(e, p, d) {
        var x, y :| g.Has(x, p) && g.Has(y, d) && Edge(e, x, y);
        assert f0.Has(x, p) && f0.Has(y, d) && Edge(e0, x, y);
      }
    } else {
      forall x, y | g.Has(x, p) && g.Has(y, d)
        ensures !Edge(e, x, y)
      {
        NewNotCalled(e0, e, f0, c, u, v, base, next, g, x, y, p, d);
      }
    }
  }

  /** Nothing at or below c is listed as, or is, a caller of something above it. */
  lemma ExactUpwards(e0: Edges, e: Edges, f0: Forest, c: SccId, u: Vertex, v: Vertex, base: SccId, next: SccId,
                     g: Forest, g1: Forest, kids: set<SccId>, d: SccId, p: SccId)
    requires SplitDone(e0, e, f0, c, u, v, base, next, g, g1, kids) && g1.Linked(e) && g1.ParentsLater()
    requires d in g1.rank && p in g1.rank && g1.Rank(p) <= g1.Rank(d)
    ensures g1.ExactAt(e, d, p)
  {
    hide Splitting, SplitStart;
    forall x, y | g1.Has(x, p) && g1.Has(y, d) && p != d
      ensures !Edge(e, x, y)
    {
    }
  }

  lemma FinalParentsExact(e0: Edges, e: Edges, f0: Forest, c: SccId, u: Vertex, v: Vertex, base: SccId, next: SccId,
                          g: Forest, g1: Forest, kids: set<SccId>)
    requires SplitDone(e0, e, f0, c, u, v, base, next, g, g1, kids) && f0.ParentsExact(e0) && CallersKept(e, f0, c, v)
    ensures g1.ParentsExact(e)
  {
    hide Splitting, SplitStart, CallersKept, Forest.Linked, Forest.ParentsLater;
    FinalLinked(e0, e, f0, c, u, v, base, next, g, g1, kids);
    FinalLater(e0, e, f0, c, u, v, base, next, g, g1, kids);
    SplittingBase(e0, e, f0, c, v, base, next, g);
    forall d, p | d in g1.rank && p in g1.rank
      ensures g1.ExactAt(e, d, p)
    {
      if g1.Rank(p) <= g1.Rank(d) {
        ExactUpwards(e0, e, f0, c, u, v, base, next, g, g1, kids, d, p);
      } else if p == c {
        ExactForC(e0, e, f0, c, u, v, base, next, g, g1, kids, d);
      } else if p in f0.rank && f0.Rank(p) > f0.Rank(c) {
        ExactForCaller(e0, e, f0, c, u, v, base, next, g, g1, kids, d, p);
      } else {
        BelowCaller(e0, e, f0, c, u, v, base, next, d, p);
        ExactAmongSettled(e0, e, f0, c, u, v, base, next, g, g1, kids, d, p);
      }
    }
  }

  lemma SplittingBase(e0: Edges, e: Edges, f0: Forest, c: SccId, v: Vertex, base: SccId, next: SccId, g: Forest)
    requires Splitting(e0, e, f0, c, v, base, next, g)
    ensures base <= next
  {
  }

  lemma BelowCaller(e0: Edges, e: Edges, f0: Forest, c: SccId, u: Vertex, v: Vertex, base: SccId, next: SccId,
                    d: SccId, p: SccId)
    requires SplitStart(e0, e, f0, c, u, v, base) && base <= next && p != c
             && !(p in f0.rank && f0.Rank(p) > f0.Rank(c))
    requires var r := FinalRank(f0, c, base, next); d in r && p in r && r[d] < r[p]
    ensures d in SettledIds(f0, c, base, next) && p in SettledIds(f0, c, base, next)
  {
    hide Forest.Partition, Forest.ParentsLater;
    assert c in f0.rank && (p in f0.rank ==> f0.Rank(p) != f0.Rank(c));
  }

  /** A call from another component to a member that leaves c goes unlisted. */
  lemma MissedParent(e0: Edges, e: Edges, f0: Forest, c: SccId, u: Vertex, v: Vertex, base: SccId, next: SccId,
                     g: Forest, g1: Forest, kids: set<SccId>, x: Vertex, y: Vertex)
    requires SplitDone(e0, e, f0, c, u, v, base, next, g, g1, kids)
    requires x in f0.of && f0.of[x] != c && f0.Has(y, c) && Edge(e, x, y) && !Reach(e, y, v)
    ensures !g1.ParentsExact(e)
  {
    hide Splitting, SplitStart, FinalRank, Reach, Forest.Valid;
    KeptExactly(e0, e, f0, c, u, v, base, next, g);
    var p, d := f0.of[x], g.of[y];
    LeaverPlace(e0, e, f0, c, u, v, base, next, g, x, y);
    assert g1.Has(x, p) && g1.Has(y, d) && g1.Calls(e, p, d);
    assert d in FinalRank(f0, c, base, next)
      && p in FinalRank(f0, c, base, next) by { FinalEdge(e0, e, f0, c, u, v, base, next, g, x, y, p, d); }
    assert !g1.ExactAt(e, d, p);
  }

  /** The new component of a member that leaves has no old parent. */
  lemma LeaverPlace(e0: Edges, e: Edges, f0: Forest, c: SccId, u: Vertex, v: Vertex, base: SccId, next: SccId,
                    g: Forest, x: Vertex, y: Vertex)
    requires SplitStart(e0, e, f0, c, u, v, base) && Splitting(e0, e, f0, c, v, base, next, g)
    requires x in f0.of && f0.of[x] != c && f0.Has(y, c) && y in g.of && !g.Has(y, c)
    ensures g.Has(x, f0.of[x]) && base <= g.of[y] < next && f0.of[x] != g.of[y] && f0.of[x] !in g.Parents(g.of[y])
  {
    hide SplitForest, Erased, Forest.Linked, Forest.ParentsLater;
    assert f0.Has(x, f0.of[x]);
  }

  // ---------------------------------------------------------------- leaves at the end

  /** If anything left c, then c calls some new component. */
  lemma CallsNew(e0: Edges, e: Edges, f0: Forest, c: SccId, u: Vertex, v: Vertex, base: SccId, next: SccId,
                 g: Forest, g1: Forest, kids: set<SccId>)
    requires SplitDone(e0, e, f0, c, u, v, base, next, g, g1, kids) && base < next
    ensures kids != {}
  {
    hide SplitTables, Erased;
    SettledFacts(e0, e, f0, c, u, v, base, next, g);
    var low := SettledForest(f0, c, base, next, g);
    assert base in low.rank && low.Partition();
    var y :| low.Has(y, base);
    assert g.Has(y, base);
    FinalHas(e0, e, f0, c, u, v, base, next, g, y, base);
    CalleeReachesAll(e0, e, f0, c, u, v, base, y);
    if kids == {} {
      var t := g.Members(c);
      forall a, b | a in t && Edge(e, a, b)
        ensures b in t
      {
        assert g.Has(a, c) && Edge(e0, a, b);
        assert f0.Has(a, f0.of[a]) && b in f0.of;
        assert g.Has(b, g.of[b]);
        assert g.of[b] != c ==> g.Calls(e, c, g.of[b]);
      }
      assert v in t && y !in t;
      ClosedReach(e, t, v, y);
    }
  }

  lemma FinalLeaves(e0: Edges, e: Edges, f0: Forest, c: SccId, u: Vertex, v: Vertex, base: SccId, next: SccId,
                    g: Forest, g1: Forest, kids: set<SccId>)
    requires SplitDone(e0, e, f0, c, u, v, base, next, g, g1, kids) && f0.LeavesExact(e0) && g1.Partition()
    ensures g1.LeavesExact(e)
  {
    hide SplitForest, Erased, SplitNodes, Forest.Linked, Forest.ParentsLater, Forest.Partition;
    assert g1.leaves <= g1.rank.Keys;
    forall d | d in g1.rank
      ensures d in g1.leaves <==> g1.IsLeaf(e, d)
    {
      if d == c {
        LeafForC(e0, e, f0, c, u, v, base, next, g, g1, kids);
      } else if d in f0.rank && f0.Rank(d) > f0.Rank(c) {
        LeafForCaller(e0, e, f0, c, u, v, base, next, g, g1, kids, d);
      } else {
        LeafSettled(e0, e, f0, c, u, v, base, next, g, g1, kids, d);
      }
    }
  }

  lemma LeafForC(e0: Edges, e: Edges, f0: Forest, c: SccId, u: Vertex, v: Vertex, base: SccId, next: SccId,
                 g: Forest, g1: Forest, kids: set<SccId>)
    requires SplitDone(e0, e, f0, c, u, v, base, next, g, g1, kids) && f0.LeavesExact(e0) && g1.Partition()
    ensures c in g1.leaves <==> g1.IsLeaf(e, c)
  {
    hide SplitForest, Erased;
    assert f0.IsLeaf(e0, c) <==> c in f0.leaves;
    forall d
      ensures g1.Calls(e, c, d) && d != c <==> d in kids
    {
      FinalSameHas(e, g, g1, c, d);
    }
    forall d | d in kids
      ensures d in g1.rank
    {
      var x, y :| g.Has(x, c) && g.Has(y, d) && Edge(e, x, y);
      assert g1.Has(y, d);
    }
    if base < next {
      CallsNew(e0, e, f0, c, u, v, base, next, g, g1, kids);
      var d :| d in kids;
      assert g1.Calls(e, c, d);
    } else {
      forall x
        ensures g.Has(x, c) <==> f0.Has(x, c)
      {
        if f0.Has(x, c) { assert g.of[x] == c; }
        if g.Has(x, c) { FinalHas(e0, e, f0, c, u, v, base, next, g, x, c); }
      }
      LeafSameCalls(e0, e, f0, c, u, v, base, next, g, g1, kids);
    }
  }

  lemma LeafSameCalls(e0: Edges, e: Edges, f0: Forest, c: SccId, u: Vertex, v: Vertex, base: SccId, next: SccId,
                      g: Forest, g1: Forest, kids: set<SccId>)
    requires SplitDone(e0, e, f0, c, u, v, base, next, g, g1, kids)
    requires forall x :: g.Has(x, c) <==> f0.Has(x, c)
    ensures f0.IsLeaf(e0, c) <==> kids == {}
  {
    hide SplitForest, Erased, SplitTables;
    if d :| d in kids {
      var x, y :| g.Has(x, c) && g.Has(y, d) && Edge(e, x, y);
      assert f0.Has(x, c) && Edge(e0, x, y) && f0.Has(y, f0.of[y]);
      assert f0.of[y] != c by { assert f0.of[y] == c ==> f0.Has(y, c) && g.Has(y, c); }
      assert f0.Calls(e0, c, f0.of[y]);
    }
    if d :| d in f0.rank && d != c && f0.Calls(e0, c, d) {
      var x, y :| f0.Has(x, c) && f0.Has(y, d) && Edge(e0, x, y);
      assert g.Has(x, c) && g.Has(y, d) && Edge(e, x, y);
      assert g.Calls(e, c, d);
    }
  }

  lemma LeafForCaller(e0: Edges, e: Edges, f0: Forest, c: SccId, u: Vertex, v: Vertex, base: SccId, next: SccId,
                      g: Forest, g1: Forest, kids: set<SccId>, d: SccId)
    requires SplitDone(e0, e, f0, c, u, v, base, next, g, g1, kids) && f0.LeavesExact(e0) && g1.Partition()
    requires d in f0.rank && f0.Rank(d) > f0.Rank(c)
    ensures d in g1.leaves <==> g1.IsLeaf(e, d)
  {
    hide SplitForest, Erased, Forest.Linked, Forest.ParentsLater;
    assert f0.IsLeaf(e0, d) <==> d in f0.leaves;
    OldGroups(e0, e, f0, c, u, v, base, next, g, d);
    if b :| b in f0.rank && b != d && f0.Calls(e0, d, b) {
      var x, y :| f0.Has(x, d) && f0.Has(y, b) && Edge(e0, x, y);
      assert Edge(e, x, y) && g.Has(x, d) && g.Has(y, g.of[y]);
      FinalHas(e0, e, f0, c, u, v, base, next, g, y, g.of[y]);
      assert g1.Has(x, d) && g1.Has(y, g.of[y]) && g1.Calls(e, d, g.of[y]);
    }
    if b :| b in g1.rank && b != d && g1.Calls(e, d, b) {
      var x, y :| g1.Has(x, d) && g1.Has(y, b) && Edge(e, x, y);
      assert g.Has(x, d) && g.Has(y, b);
      FinalHas(e0, e, f0, c, u, v, base, next, g, y, b);
      assert f0.Has(x, d) && f0.Has(y, f0.of[y]) && Edge(e0, x, y) && f0.Calls(e0, d, f0.of[y]);
    }
  }

  lemma LeafSettled(e0: Edges, e: Edges, f0: Forest, c: SccId, u: Vertex, v: Vertex, base: SccId, next: SccId,
                    g: Forest, g1: Forest, kids: set<SccId>, d: SccId)
    requires SplitDone(e0, e, f0, c, u, v, base, next, g, g1, kids) && f0.LeavesExact(e0) && g1.Partition()
    requires d in g1.rank && d != c && !(d in f0.rank && f0.Rank(d) > f0.Rank(c))
    ensures d in g1.leaves <==> g1.IsLeaf(e, d)
  {
    hide Splitting, SplitStart, SettledForest, SettledIds, Settled, FinalRank, Forest.Partition, Forest.Valid,
         Forest.Calls, Forest.Has, Closed;
    var low, ids := SettledForest(f0, c, base, next, g), SettledIds(f0, c, base, next);
    SettledFacts(e0, e, f0, c, u, v, base, next, g);
    DRank(e0, e, f0, c, u, v, base, next, d);
    IdsRanked(f0, c, base, next);
    assert d in low.leaves <==> low.IsLeaf(e, d);
    forall b | b != d
      ensures low.Calls(e, d, b) <==> g1.Calls(e, d, b)
      ensures g1.Calls(e, d, b) ==> b in ids
    {
      FinalSameHas(e, g, g1, d, b);
      SettledCallsFrom(e, low, g, ids, d, b);
    }
  }

  lemma IdsRanked(f0: Forest, c: SccId, base: SccId, next: SccId)
    ensures SettledIds(f0, c, base, next) <= FinalRank(f0, c, base, next).Keys
  {
  }

  lemma DRank(e0: Edges, e: Edges, f0: Forest, c: SccId, u: Vertex, v: Vertex, base: SccId, next: SccId, d: SccId)
    requires SplitStart(e0, e, f0, c, u, v, base) && base <= next && d in FinalRank(f0, c, base, next)
    requires d != c && !(d in f0.rank && f0.Rank(d) > f0.Rank(c))
    ensures d in SettledIds(f0, c, base, next)
  {
    hide Forest.Partition, Forest.ParentsLater;
    assert d in f0.rank ==> f0.Rank(d) != f0.Rank(c);
  }

  // ---------------------------------------------------------------- the result

  /** What removeIntraSCCEdge leaves behind is valid: c keeps exactly the members that reach the
      callee, the others are in components of their own, calls lead down, the leaf list stays
      exact, and the parent sets stay exact if and only if every call into the old component
      from outside lands on a member that stays. */
  lemma SplitResult(e0: Edges, e: Edges, f0: Forest, c: SccId, u: Vertex, v: Vertex, base: SccId, next: SccId,
                    g: Forest, g1: Forest, kids: set<SccId>)
    requires SplitDone(e0, e, f0, c, u, v, base, next, g, g1, kids)
    ensures g1.Valid(e)
    ensures forall x :: g1.Has(x, c) <==> f0.Has(x, c) && Reach(e, x, v)
    ensures f0.ParentsExact(e0) ==> (g1.ParentsExact(e) <==> CallersKept(e, f0, c, v))
    ensures f0.LeavesExact(e0) ==> g1.LeavesExact(e)
  {
    hide Forest.Partition, Forest.Linked, Forest.ParentsLater, Splitting, SplitStart, Forest.LeavesExact,
         Forest.ParentsExact;
    FinalPartition(e0, e, f0, c, u, v, base, next, g, g1, kids);
    FinalLinked(e0, e, f0, c, u, v, base, next, g, g1, kids);
    FinalLater(e0, e, f0, c, u, v, base, next, g, g1, kids);
    KeptExactly(e0, e, f0, c, u, v, base, next, g);
    assert forall x :: g1.Has(x, c) <==> g.Has(x, c);
    if f0.ParentsExact(e0) {
      if CallersKept(e, f0, c, v) {
        FinalParentsExact(e0, e, f0, c, u, v, base, next, g, g1, kids);
      } else {
        var x, y :| x in f0.of && f0.of[x] != c && f0.Has(y, c) && Edge(e, x, y) && !Reach(e, y, v);
        MissedParent(e0, e, f0, c, u, v, base, next, g, g1, kids, x, y);
      }
    }
    if f0.LeavesExact(e0) {
      FinalLeaves(e0, e, f0, c, u, v, base, next, g, g1, kids);
    }
  }

  /** The condition can fail although everything was exact: x and y call each other and a calls x.
      Without the edge from x to y, function x leaves the component of y and a goes unlisted. */
  lemma CallerCanBeMissed(a: Vertex, x: Vertex, y: Vertex)
    requires a != x && a != y && x != y
    ensures var e0: Edges, e: Edges, f0 := {(a, x), (x, y), (y, x)}, {(a, x), (y, x)}, CallerAndPair(a, x, y);
            SplitStart(e0, e, f0, 0, x, y, 2) && f0.ParentsExact(e0) && f0.LeavesExact(e0) && !CallersKept(e, f0, 0, y)
  {
    hide Forest.Valid, Reach;
    var e0: Edges, e: Edges := {(a, x), (x, y), (y, x)}, {(a, x), (y, x)};
    var f0 := CallerAndPair(a, x, y);
    CallerAndPairValid(e0, a, x, y);
    assert f0.Has(a, 1) && f0.Has(x, 0) && f0.Has(y, 0) && Edge(e0, a, x);
    assert f0.Calls(e0, 1, 0) && !f0.Calls(e0, 0, 1);
    if Reach(e, x, y) {
      ClosedReach(e, {x}, x, y);
    }
    assert Edge(e, a, x);
  }
}
