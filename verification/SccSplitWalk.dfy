// The walk of SCC::internalDFS over the members of a component that is being taken apart.
module SccSplitWalk {
  import opened Digraph
  import opened Maps
  import opened TarjanWalk
  import opened WalkStacks
  import opened SccForest
  import opened SccSplit

  /** The component c, before and after losing the edge (u, v); new components start at base. */
  datatype Case = Case(e0: Edges, e: Edges, f0: Forest, c: SccId, u: Vertex, v: Vertex, base: SccId)
  {
    ghost predicate Start() {
      SplitStart(e0, e, f0, c, u, v, base)
    }

    ghost predicate Inv(next: SccId, g: Forest) {
      Splitting(e0, e, f0, c, v, base, next, g)
    }

    ghost function SettledIn(g: Forest): set<Vertex> {
      Settled(f0, c, g)
    }

    /** A member that has no component at the moment. */
    ghost predicate Loose(g: Forest, x: Vertex) {
      f0.Has(x, c) && x !in g.of
    }
  }

  /** Fields of placed members are -1; those of loose members are the walk's.  In the walk's own
      numbers a member that has rejoined c counts as unvisited: it is never descended into. */
  ghost predicate NumbersAgree(k: Case, g: Forest, dfs: Numbers, low: Numbers, w: Walk) {
    && dfs.Keys == w.dfs.Keys && low.Keys == w.dfs.Keys
    && (forall x :: k.Loose(g, x) ==> At(dfs, x) == w.D(x))
    && (forall x :: x in w.Active() ==> k.Loose(g, x) && At(low, x) == w.L(x))
    && (forall x :: x in g.of ==> At(dfs, x) == At(low, x) == -1)
  }

  /** Scanned edges into components below c have had c erased there. */
  ghost predicate ScanErased(k: Case, g: Forest, w: Walk) {
    forall x, y {:trigger Edge(w.scan, x, y)} ::
        Edge(w.scan, x, y) && y in Below(k.f0, k.c) ==> k.c !in g.Parents(k.f0.of[y])
  }

  /** Every component lists its members once. */
  ghost predicate Placed(k: Case, nodes: map<SccId, seq<Vertex>>, next: SccId, g: Forest) {
    && nodes.Keys == k.f0.rank.Keys + NewIds(k.base, next)
    && forall d :: d in nodes ==> Distinct(nodes[d]) && Elements(nodes[d]) == g.Members(d)
  }

  ghost predicate Inner(k: Case, cal: CalleeLists, g: Forest, next: SccId, dfs: Numbers, low: Numbers,
                        stack: seq<Frame>, pending: seq<Vertex>, w: Walk) {
    && k.Start() && k.Inv(next, g)
    && Exploring(cal, k.e, k.SettledIn(g), stack, pending, w)
    && NumbersAgree(k, g, dfs, low, w) && ScanErased(k, g, w)
  }

  // ---------------------------------------------------------------- steps

  /** A callee of a loose member is loose, or has rejoined c, or is settled. */
  lemma CalleeCases(k: Case, g: Forest, next: SccId, x: Vertex, y: Vertex)
    requires k.Start() && k.Inv(next, g) && k.Loose(g, x) && Edge(k.e, x, y)
    ensures k.Loose(g, y) || g.Has(y, k.c) || (y in k.SettledIn(g) && y in g.of && g.of[y] in g.parents)
    ensures y in Below(k.f0, k.c) ==> y in g.of && g.of[y] == k.f0.of[y]
    ensures y in g.of && g.of[y] != k.c ==> y in k.SettledIn(g)
  {
    MembersCall(k.e0, k.e, k.f0, k.c, k.u, k.v, k.base, x, y);
    if y in Below(k.f0, k.c) {
      assert k.f0.Has(y, k.f0.of[y]) && g.Has(y, k.f0.of[y]);
    }
  }

  lemma InnerVisit(k: Case, cal: CalleeLists, g: Forest, next: SccId, dfs: Numbers, low: Numbers,
                   stack: seq<Frame>, pending: seq<Vertex>, w: Walk, n: Vertex, it: nat, x: Vertex)
    requires Inner(k, cal, g, next, dfs, low, stack + [Frame(n, it)], pending, w)
    requires n in cal && it < |cal[n]| && cal[n][it] == Some(x) && k.Loose(g, x) && At(dfs, x) == 0
    ensures Inner(k, cal, g, next, dfs[x := w.next], low[x := w.next], stack + [Frame(n, it)] + [Frame(x, 0)], pending,
              Descend(w, x))
    ensures x !in w.Active() && Descend(w, x).Active() == w.Active() + {x}
  {
    hide Splitting, SplitStart, Exploring;
    ExploringKeys(cal, k.e, k.SettledIn(g), stack + [Frame(n, it)], pending, w);
    VisitStep(cal, k.e, k.SettledIn(g), stack, pending, w, n, it, it, x);
    assert x in w.dfs;
  }

  lemma ExploringKeys(cal: CalleeLists, e: Edges, formed: set<Vertex>, stack: seq<Frame>, pending: seq<Vertex>, w: Walk)
    requires Exploring(cal, e, formed, stack, pending, w)
    ensures w.dfs.Keys == w.low.Keys == cal.Keys && formed + w.Active() <= cal.Keys && Lists(cal, e)
  {
  }

  lemma InnerStart(k: Case, cal: CalleeLists, g: Forest, next: SccId, dfs: Numbers, low: Numbers, w: Walk, x: Vertex)
    requires Inner(k, cal, g, next, dfs, low, [], [], w) && k.Loose(g, x) && x in cal && At(dfs, x) == 0
    ensures Inner(k, cal, g, next, dfs[x := 1], low[x := 1], [] + [Frame(x, 0)], [], Descend(w.(next := 1), x))
    ensures Descend(w.(next := 1), x).next == 2 && Descend(w.(next := 1), x).Active() == {x}
  {
    hide Splitting, SplitStart, Exploring;
    ExploringKeys(cal, k.e, k.SettledIn(g), [], [], w);
    StartStep(cal, k.e, k.SettledIn(g), [], w, x);
  }

  lemma InnerLower(k: Case, cal: CalleeLists, g: Forest, next: SccId, dfs: Numbers, low: Numbers, low': Numbers,
                   stack: seq<Frame>, pending: seq<Vertex>, w: Walk, n: Vertex, it: nat, x: Vertex)
    requires Inner(k, cal, g, next, dfs, low, stack + [Frame(n, it)], pending, w)
    requires n in cal && it < |cal[n]| && cal[n][it] == Some(x) && k.Loose(g, x) && At(dfs, x) != 0
    requires low' == if At(low, x) >= 0 && At(low, x) < At(low, n) then low[n := At(low, x)] else low
    ensures Inner(k, cal, g, next, dfs, low', stack + [Frame(n, it + 1)], pending, Scan(w, n, x))
    ensures Scan(w, n, x).Active() == w.Active() && Scan(w, n, x).next == w.next
  {
    hide Splitting, SplitStart, Exploring;
    ExploringKeys(cal, k.e, k.SettledIn(g), stack + [Frame(n, it)], pending, w);
    LooseUnsettled(k, g, x);
    LooseNumbers(cal, k.e, k.SettledIn(g), stack + [Frame(n, it)], pending, w);
    ScanStep(cal, k.e, k.SettledIn(g), stack, pending, w, n, it, x);
    TopInPath(cal, k.e, k.SettledIn(g), stack, pending, w, n, it);
    assert Scan(w, n, x).Active() == w.Active();
    AddedEdge(w.scan, n, x);
    LooseNotBelow(k, g, x);
  }

  lemma LooseNotBelow(k: Case, g: Forest, x: Vertex)
    requires k.Loose(g, x)
    ensures x !in Below(k.f0, k.c)
  {
  }

  lemma InnerSkip(k: Case, cal: CalleeLists, g: Forest, next: SccId, dfs: Numbers, low: Numbers,
                  stack: seq<Frame>, pending: seq<Vertex>, w: Walk, n: Vertex, it: nat)
    requires Inner(k, cal, g, next, dfs, low, stack + [Frame(n, it)], pending, w)
    requires n in cal && it < |cal[n]| && cal[n][it] == None
    ensures Inner(k, cal, g, next, dfs, low, stack + [Frame(n, it + 1)], pending, w)
  {
    hide Splitting, SplitStart, Exploring;
    SkipStep(cal, k.e, k.SettledIn(g), stack, pending, w, n, it);
  }

  /** A callee in a settled component: c is erased from that component's parents. */
  lemma InnerErase(k: Case, cal: CalleeLists, g: Forest, g': Forest, next: SccId, dfs: Numbers, low: Numbers,
                   stack: seq<Frame>, pending: seq<Vertex>, w: Walk, n: Vertex, it: nat, x: Vertex, d: SccId)
    requires Inner(k, cal, g, next, dfs, low, stack + [Frame(n, it)], pending, w)
    requires n in cal && it < |cal[n]| && cal[n][it] == Some(x) && g.Has(x, d) && d != k.c && d in g.parents
    requires g' == g.(parents := g.parents[d := g.parents[d] - {k.c}])
    requires x in k.SettledIn(g) && (x in Below(k.f0, k.c) ==> k.f0.of[x] == d)
    ensures Inner(k, cal, g', next, dfs, low, stack + [Frame(n, it + 1)], pending, Scan(w, n, x))
    ensures Scan(w, n, x).Active() == w.Active() && Scan(w, n, x).next == w.next
  {
    hide Splitting, SplitStart, Exploring, Below;
    SplitErase(k.e0, k.e, k.f0, k.c, k.u, k.v, k.base, next, g, g', d);
    SettledKept(k, g, g');
    ExploringKeys(cal, k.e, k.SettledIn(g), stack + [Frame(n, it)], pending, w);
    SettledNumber(cal, k.e, k.SettledIn(g), stack + [Frame(n, it)], pending, w, x);
    ScanStep(cal, k.e, k.SettledIn(g), stack, pending, w, n, it, x);
    TopInPath(cal, k.e, k.SettledIn(g), stack, pending, w, n, it);
    assert Scan(w, n, x).Active() == w.Active() && Scan(w, n, x).dfs == w.dfs && Scan(w, n, x).low == w.low;
    AddedEdge(w.scan, n, x);
    assert forall b :: g'.Parents(b) == if b == d then g.Parents(b) - {k.c} else g.Parents(b);
    assert forall b :: k.Loose(g', b) <==> k.Loose(g, b);
  }

  lemma SettledKept(k: Case, g: Forest, g': Forest)
    requires g'.of == g.of
    ensures k.SettledIn(g') == k.SettledIn(g)
  {
  }

  lemma SettledNumber(cal: CalleeLists, e: Edges, formed: set<Vertex>, stack: seq<Frame>, pending: seq<Vertex>,
                      w: Walk, x: Vertex)
    requires Exploring(cal, e, formed, stack, pending, w) && x in formed
    ensures w.D(x) == w.L(x) == -1
  {
  }

  lemma InnerPend(k: Case, cal: CalleeLists, g: Forest, next: SccId, dfs: Numbers, low: Numbers,
                  stack: seq<Frame>, pending: seq<Vertex>, w: Walk, n: Vertex)
    requires n in cal && Inner(k, cal, g, next, dfs, low, stack + [Frame(n, |cal[n]|)], pending, w)
    requires w.L(n) != w.D(n)
    ensures |stack| > 0 && Inner(k, cal, g, next, dfs, low, stack, pending + [n], Pend(w, n))
    ensures Pend(w, n).Active() == w.Active()
  {
    hide Splitting, SplitStart, Exploring;
    PendStep(cal, k.e, k.SettledIn(g), stack, pending, w, n);
  }

  lemma LooseUnsettled(k: Case, g: Forest, y: Vertex)
    requires k.Loose(g, y)
    ensures y !in k.SettledIn(g)
  {
  }

  lemma LooseNumbers(cal: CalleeLists, e: Edges, formed: set<Vertex>, stack: seq<Frame>, pending: seq<Vertex>, w: Walk)
    requires Exploring(cal, e, formed, stack, pending, w)
    ensures forall y :: y !in formed && y !in w.Active() ==> w.D(y) == 0
  {
  }

  /** Loose members outside the walk have not been numbered. */
  lemma LooseUnnumbered(k: Case, cal: CalleeLists, g: Forest, next: SccId, dfs: Numbers, low: Numbers,
                        stack: seq<Frame>, pending: seq<Vertex>, w: Walk)
    requires Inner(k, cal, g, next, dfs, low, stack, pending, w)
    ensures forall y :: k.Loose(g, y) && y !in w.Active() ==> At(dfs, y) == 0
  {
    hide Splitting, SplitStart, Exploring;
    LooseNumbers(cal, k.e, k.SettledIn(g), stack, pending, w);
    forall y | k.Loose(g, y) && y !in w.Active()
      ensures At(dfs, y) == 0
    {
      LooseUnsettled(k, g, y);
    }
  }

  // ---------------------------------------------------------------- the short cut

  /** A walk over which nothing has been explored yet. */
  ghost function FreshWalk(cal: CalleeLists, formed: set<Vertex>): Walk {
    var m: Numbers := Assigned(Assigned(map[], cal.Keys, 0), formed, -1);
    Walk({}, {}, {}, m, m, 1)
  }

  lemma FreshExploring(cal: CalleeLists, e: Edges, formed: set<Vertex>)
    requires Lists(cal, e) && formed <= cal.Keys
    ensures Exploring(cal, e, formed, [], [], FreshWalk(cal, formed))
    ensures FreshWalk(cal, formed).Active() == {} && FreshWalk(cal, formed).scan == {}
  {
  }

  lemma FlushSettled(k: Case, g: Forest, g': Forest, s: set<Vertex>)
    requires g'.of == Joined(g.of, s, k.c) && forall y :: y in s ==> k.Loose(g, y)
    ensures k.SettledIn(g') == k.SettledIn(g)
    ensures forall y :: k.Loose(g', y) <==> k.Loose(g, y) && y !in s
  {
    forall y
      ensures y in k.SettledIn(g') <==> y in k.SettledIn(g)
    {
    }
  }

  lemma KeptReach(k: Case, next: SccId, g: Forest, x: Vertex)
    requires k.Inv(next, g) && g.Has(x, k.c)
    ensures Reach(k.e, x, k.v)
  {
  }

  /** Everything active reaches the end of the path, and with it the callee. */
  lemma FlushReach(k: Case, cal: CalleeLists, g: Forest, next: SccId, stack: seq<Frame>, pending: seq<Vertex>,
                   w: Walk, n: Vertex, it: nat, x: Vertex)
    requires Exploring(cal, k.e, k.SettledIn(g), stack + [Frame(n, it)], pending, w) && k.Inv(next, g)
    requires n in cal && it < |cal[n]| && cal[n][it] == Some(x) && g.Has(x, k.c)
    ensures forall y :: y in w.Active() ==> Reach(k.e, y, k.v)
  {
    hide Splitting, SplitNodes, StackFits, PendingFits;
    hide SplitTables, SplitForest, Erased;
    TopInPath(cal, k.e, k.SettledIn(g), stack, pending, w, n, it);
    KeptReach(k, next, g, x);
    ExploringKeys(cal, k.e, k.SettledIn(g), stack + [Frame(n, it)], pending, w);
    forall y | y in w.Active()
      ensures Reach(k.e, y, k.v)
    {
      ActiveReachesTop(k.e, k.SettledIn(g), w, n, y);
      ReachStep(k.e, n, x, k.v);
      ReachTrans(k.e, y, n, k.v);
    }
  }

  lemma JoinedKeys(of: map<Vertex, SccId>, s: set<Vertex>, c: SccId)
    ensures Joined(of, s, c).Keys == of.Keys + s
  {
  }

  lemma MarkedAt(m: Numbers, s: set<Vertex>)
    ensures forall y :: At(Marked(m, s), y) == if y in s then -1 else At(m, y)
    ensures Marked(m, s).Keys == m.Keys + s
  {
  }

  lemma FreshAt(cal: CalleeLists, formed: set<Vertex>)
    requires formed <= cal.Keys
    ensures var w := FreshWalk(cal, formed);
            && w.Active() == {} && w.dfs.Keys == cal.Keys
            && forall y :: w.D(y) == w.L(y) == if y in formed then -1 else 0
  {
  }

  lemma FlushNumbers(k: Case, cal: CalleeLists, g: Forest, g': Forest, dfs: Numbers, low: Numbers, w: Walk,
                     s: set<Vertex>)
    requires NumbersAgree(k, g, dfs, low, w) && w.dfs.Keys == cal.Keys && s == w.Active() && s <= cal.Keys
    requires g'.of == Joined(g.of, s, k.c) && k.SettledIn(g') == k.SettledIn(g) <= cal.Keys
    requires forall y :: y !in k.SettledIn(g) && y !in s ==> w.D(y) == 0
    ensures NumbersAgree(k, g', Marked(dfs, s), Marked(low, s), FreshWalk(cal, k.SettledIn(g')))
  {
    hide FreshWalk, Marked, Joined, Settled, At;
    JoinedKeys(g.of, s, k.c);
    MarkedAt(dfs, s);
    MarkedAt(low, s);
    FreshAt(cal, k.SettledIn(g'));
    var w' := FreshWalk(cal, k.SettledIn(g'));
    forall y | k.Loose(g', y)
      ensures At(Marked(dfs, s), y) == w'.D(y)
    {
      LooseUnsettled(k, g', y);
      assert y !in s && k.Loose(g, y);
    }
  }

  /** The short cut of internalDFS: everything active rejoins c, and no node does that cannot
      reach the callee, since the invariant still holds. */
  lemma InnerFlush(k: Case, cal: CalleeLists, g: Forest, g': Forest, next: SccId, dfs: Numbers, low: Numbers,
                   stack: seq<Frame>, pending: seq<Vertex>, w: Walk, n: Vertex, it: nat, x: Vertex, s: set<Vertex>)
    requires Inner(k, cal, g, next, dfs, low, stack + [Frame(n, it)], pending, w)
    requires n in cal && it < |cal[n]| && cal[n][it] == Some(x) && g.Has(x, k.c)
    requires s == w.Active() && g' == g.(of := Joined(g.of, s, k.c))
    ensures Inner(k, cal, g', next, Marked(dfs, s), Marked(low, s), [], [], FreshWalk(cal, k.SettledIn(g')))
    ensures FreshWalk(cal, k.SettledIn(g')).Active() == {}
  {
    hide Splitting, SplitStart, Exploring, FreshWalk, Joined, Marked, Reach, Settled;
    ExploringKeys(cal, k.e, k.SettledIn(g), stack + [Frame(n, it)], pending, w);
    FlushReach(k, cal, g, next, stack, pending, w, n, it, x);
    SplitFlush(k.e0, k.e, k.f0, k.c, k.u, k.v, k.base, next, g, g', s);
    FlushSettled(k, g, g', s);
    LooseNumbers(cal, k.e, k.SettledIn(g), stack + [Frame(n, it)], pending, w);
    FlushNumbers(k, cal, g, g', dfs, low, w, s);
    FreshExploring(cal, k.e, k.SettledIn(g'));
  }

  // ---------------------------------------------------------------- forming a component

  /** Everything a component calls below c has lost c as a parent. */
  lemma FormedErased(k: Case, cal: CalleeLists, g: Forest, stack: seq<Frame>, pending: seq<Vertex>, w: Walk, n: Vertex)
    requires n in cal && Exploring(cal, k.e, k.SettledIn(g), stack + [Frame(n, |cal[n]|)], pending, w)
    requires w.L(n) == w.D(n) && ScanErased(k, g, w)
    ensures forall x, y {:trigger Edge(k.e, x, y)} ::
              x in Component(w, n) && Edge(k.e, x, y) && y in Below(k.f0, k.c) ==>
              k.c !in g.Parents(k.f0.of[y])
  {
    hide StackFits, PendingFits, Lists, NodeFields, Below;
    RootOfWalk(cal, k.e, k.SettledIn(g), stack, pending, w, n);
    forall x, y | x in Component(w, n) && Edge(k.e, x, y) && y in Below(k.f0, k.c)
      ensures Edge(w.scan, x, y)
    {
    }
  }

  lemma FormNumbers(k: Case, g: Forest, g': Forest, dfs: Numbers, low: Numbers, w: Walk, w': Walk, s: set<Vertex>,
                    d: SccId)
    requires NumbersAgree(k, g, dfs, low, w) && s <= w.Active() && s <= w.dfs.Keys && g'.of == Joined(g.of, s, d)
    requires w'.dfs == Marked(w.dfs, s) && w'.low == Marked(w.low, s) && w'.Active() == w.Active() - s
    ensures NumbersAgree(k, g', Marked(dfs, s), Marked(low, s), w')
  {
    hide Marked, Joined, At;
    MarkedAt(dfs, s);
    MarkedAt(low, s);
    MarkedAt(w.dfs, s);
    MarkedAt(w.low, s);
    JoinedKeys(g.of, s, d);
  }

  lemma FormScan(k: Case, g: Forest, g': Forest, next: SccId, s: set<Vertex>, ns: seq<Vertex>, kids: set<SccId>,
                 w: Walk, w': Walk)
    requires ScanErased(k, g, w) && w'.scan == w.scan && Formed(k.e, g, g', next, s, ns, kids) && k.c < next
    ensures ScanErased(k, g', w')
  {
  }

  lemma CaseFacts(k: Case, g: Forest, next: SccId)
    requires k.Start() && k.Inv(next, g)
    ensures k.c < k.base <= next && Closed(k.e, k.SettledIn(g))
    ensures forall y :: y in k.SettledIn(g) ==> y in g.of
    ensures forall y :: y in g.of ==> g.of[y] in g.parents
    ensures next !in g.parents
  {
    SettledClosed(k.e0, k.e, k.f0, k.c, k.v, k.base, next, g);
    forall y | y in g.of
      ensures g.of[y] in g.parents
    {
      assert k.f0.Has(y, k.f0.of[y]);
      if k.f0.of[y] != k.c { assert g.Has(y, k.f0.of[y]); }
    }
  }

  /** A root inside c with nothing left to scan: its component becomes a new one. */
  lemma InnerForm(k: Case, cal: CalleeLists, g: Forest, g': Forest, next: SccId, dfs: Numbers, low: Numbers,
                  stack: seq<Frame>, pending: seq<Vertex>, w: Walk, w': Walk, n: Vertex, cut: nat, s: set<Vertex>,
                  ns: seq<Vertex>, kids: set<SccId>)
    requires n in cal && Inner(k, cal, g, next, dfs, low, stack + [Frame(n, |cal[n]|)], pending, w)
    requires w.L(n) == w.D(n) && CutAt(pending, w, n, cut) && s == Component(w, n)
    requires Formed(k.e, g, g', next, s, ns, kids) && g'.rank == g.rank
    requires w' == Form(w, n, Marked(w.dfs, s), Marked(w.low, s))
    ensures Inner(k, cal, g', next + 1, Marked(dfs, s), Marked(low, s), stack, pending[..cut], w')
    ensures w'.Active() == w.Active() - s && w'.next == w.next
  {
    hide Splitting, SplitStart, Exploring, Marked, Settled, Component, IsScc, Formed, ScanErased, Below;
    CaseFacts(k, g, next);
    ExploringKeys(cal, k.e, k.SettledIn(g), stack + [Frame(n, |cal[n]|)], pending, w);
    FormedErased(k, cal, g, stack, pending, w, n);
    var cut' := RootCut(cal, k.e, k.SettledIn(g), stack, pending, w, n);
    FormStep(cal, k.e, k.SettledIn(g), stack, pending, w, n, cut, Marked(w.dfs, s), Marked(w.low, s));
    assert FormsInside(k.e, k.f0, k.c, next, g, g', s, ns, kids);
    SplitForm(k.e0, k.e, k.f0, k.c, k.u, k.v, k.base, next, g, g', s, ns, kids);
    FormSettled(k, next, g, g', s, ns, kids);
    FormedOf(k.e, g, g', next, s, ns, kids);
    FormNumbers(k, g, g', dfs, low, w, w', s, next);
    FormScan(k, g, g', next, s, ns, kids, w, w');
  }

  lemma FormedOf(e: Edges, g: Forest, g': Forest, next: SccId, s: set<Vertex>, ns: seq<Vertex>, kids: set<SccId>)
    requires Formed(e, g, g', next, s, ns, kids)
    ensures g'.of == Joined(g.of, s, next)
  {
  }

  lemma FormSettled(k: Case, next: SccId, g: Forest, g': Forest, s: set<Vertex>, ns: seq<Vertex>, kids: set<SccId>)
    requires k.Start() && k.Inv(next, g) && FormsInside(k.e, k.f0, k.c, next, g, g', s, ns, kids)
    ensures k.SettledIn(g') == k.SettledIn(g) + s
  {
    FormNodes(k.e0, k.e, k.f0, k.c, k.u, k.v, k.base, next, g, g', s, ns, kids);
  }
}
