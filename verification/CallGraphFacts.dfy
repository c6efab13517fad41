// Facts about the tables of LazyCallGraph that its methods appeal to, and the specifications of
// what a whole post-order walk and the splitting of a component produce.
module CallGraphFacts {
  import opened Digraph
  import opened Maps
  import opened TarjanWalk
  import opened WalkStacks
  import opened SccForest
  import opened SccAncestors
  import opened SccUpdates
  import opened SccSplit
  import opened SccSplitWalk

  /** The members that formSCC takes: the root and the nodes above `cut` on the stack. */
  function Taken(rootN: Vertex, nodeStack: seq<Vertex>, cut: nat): set<Vertex>
    requires cut <= |nodeStack|
  {
    {rootN} + Elements(nodeStack[cut..])
  }

  /** The root and the nodes above it are unformed, and call only formed nodes and one another. */
  ghost predicate CanForm(cal: CalleeLists, e: Edges, of: map<Vertex, SccId>, ids: set<SccId>, dfs: Numbers,
                          rootN: Vertex, nodeStack: seq<Vertex>, cut: nat) {
    && cut <= |nodeStack| && rootN in cal && rootN in dfs && rootN !in nodeStack && Distinct(nodeStack)
    && (forall k :: 0 <= k < |nodeStack| ==> nodeStack[k] in cal && nodeStack[k] in dfs)
    && (forall k :: 0 <= k < cut ==> dfs[nodeStack[k]] <= dfs[rootN])
    && (forall k :: cut <= k < |nodeStack| ==> dfs[nodeStack[k]] > dfs[rootN])
    && Taken(rootN, nodeStack, cut) !! of.Keys
    && (forall v :: v in of ==> of[v] in ids)
    && (forall u, v :: u in Taken(rootN, nodeStack, cut) && Edge(e, u, v) ==>
          v in of || v in Taken(rootN, nodeStack, cut))
  }

  /** The fields that SCC::insert writes. */
  datatype Tables = Tables(dfs: Numbers, low: Numbers, of: map<Vertex, SccId>, nodes: map<SccId, seq<Vertex>>)

  /** t is t0 after the nodes s have been put into c, once each. */
  ghost predicate PutIn(t0: Tables, t: Tables, c: SccId, s: set<Vertex>) {
    && t.dfs == Marked(t0.dfs, s) && t.low == Marked(t0.low, s) && t.of == Joined(t0.of, s, c)
    && c in t0.nodes && c in t.nodes && t.nodes == t0.nodes[c := t.nodes[c]]
    && Distinct(t.nodes[c]) && Elements(t.nodes[c]) == Elements(t0.nodes[c]) + s
  }

  lemma PutNothing(t: Tables, c: SccId)
    requires c in t.nodes && Distinct(t.nodes[c])
    ensures PutIn(t, t, c, {})
  {
  }

  lemma PutThen(t0: Tables, t1: Tables, t2: Tables, c: SccId, s: set<Vertex>, r: set<Vertex>)
    requires PutIn(t0, t1, c, s) && PutIn(t1, t2, c, r)
    ensures PutIn(t0, t2, c, s + r)
  {
    hide Marked, Joined, Distinct, Elements;
    MarkedTwice(t0.dfs, s, r);
    MarkedTwice(t0.low, s, r);
    JoinedTwice(t0.of, s, r, c);
  }

  lemma PutOne(t0: Tables, c: SccId, n: Vertex)
    requires c in t0.nodes && Distinct(t0.nodes[c]) && n !in Elements(t0.nodes[c])
    ensures PutIn(t0, Tables(t0.dfs[n := -1], t0.low[n := -1], t0.of[n := c], t0.nodes[c := t0.nodes[c] + [n]]), c, {n})
  {
    assert t0.dfs[n := -1] == Marked(t0.dfs, {n});
    assert t0.low[n := -1] == Marked(t0.low, {n});
    assert t0.of[n := c] == Joined(t0.of, {n}, c);
    assert Elements(t0.nodes[c] + [n]) == Elements(t0.nodes[c]) + {n};
  }

  lemma PutFacts(t0: Tables, t: Tables, c: SccId, s: set<Vertex>)
    requires PutIn(t0, t, c, s)
    ensures c in t0.nodes && c in t.nodes && Distinct(t.nodes[c]) && Elements(t.nodes[c]) == Elements(t0.nodes[c]) + s
    ensures t.dfs.Keys == t0.dfs.Keys + s && forall v :: v in t0.dfs && v !in s ==> t.dfs[v] == t0.dfs[v]
  {
  }

  lemma LastElement(ns: seq<Vertex>)
    requires |ns| > 0 && Distinct(ns)
    ensures var rest, n := ns[..|ns| - 1], ns[|ns| - 1];
            Elements(ns) == Elements(rest) + {n} && n !in Elements(rest) && Distinct(rest)
  {
    var rest, n := ns[..|ns| - 1], ns[|ns| - 1];
    assert ns == rest + [n];
  }

  lemma NotElement(n: Vertex, ns: seq<Vertex>)
    requires n !in ns
    ensures n !in Elements(ns)
  {
  }

  lemma NoElements()
    ensures Elements([]) == {} && Distinct([])
  {
  }

  lemma AboveNone(ns: seq<Vertex>)
    ensures Elements(ns[|ns|..]) == {} && ns[..|ns|] == ns
  {
  }

  lemma AboveNot(n: Vertex, ns: seq<Vertex>)
    requires n !in ns
    ensures forall k :: 0 <= k <= |ns| ==> n !in Elements(ns[k..])
  {
    forall k | 0 <= k <= |ns|
      ensures n !in ns[k..]
    {
      assert forall i :: 0 <= i < |ns[k..]| ==> ns[k..][i] == ns[k + i];
    }
  }

  lemma AboveNext(ns: seq<Vertex>, k: nat)
    requires k < |ns|
    ensures Elements(ns[k..]) == Elements(ns[k + 1..]) + {ns[k]}
    ensures ns[..k + 1][..k] == ns[..k] && ns[..k + 1][k] == ns[k]
  {
    assert ns[k..] == [ns[k]] + ns[k + 1..];
  }

  /** Nodes other than n, and outside the ones taken, are not affected by taking n. */
  lemma NotAmong(rest: seq<Vertex>, n: Vertex, taken: set<Vertex>)
    requires n !in Elements(rest) && taken !! Elements(rest)
    ensures forall k :: 0 <= k < |rest| ==> rest[k] !in taken + {n}
  {
    forall k | 0 <= k < |rest|
      ensures rest[k] !in taken + {n}
    {
      assert rest[k] in Elements(rest);
    }
  }

  lemma CanFormFacts(cal: CalleeLists, e: Edges, of: map<Vertex, SccId>, ids: set<SccId>, dfs: Numbers,
                     rootN: Vertex, nodeStack: seq<Vertex>, cut: nat)
    requires CanForm(cal, e, of, ids, dfs, rootN, nodeStack, cut)
    ensures cut <= |nodeStack| && Distinct(nodeStack) && rootN in dfs && rootN !in nodeStack
    ensures forall k :: 0 <= k < |nodeStack| ==> nodeStack[k] in dfs
    ensures forall k :: 0 <= k < cut ==> dfs[nodeStack[k]] <= dfs[rootN]
    ensures forall k :: cut <= k < |nodeStack| ==> dfs[nodeStack[k]] > dfs[rootN]
    ensures rootN !in Elements(nodeStack[cut..])
  {
    AboveNot(rootN, nodeStack);
  }

  lemma PutTaken(t0: Tables, t: Tables, c: SccId, rootN: Vertex, nodeStack: seq<Vertex>, cut: nat)
    requires cut <= |nodeStack| && PutIn(t0, t, c, Elements(nodeStack[cut..]) + {rootN}) && t0.nodes[c] == []
    ensures var s := Taken(rootN, nodeStack, cut);
            && t.dfs == Marked(t0.dfs, s) && t.low == Marked(t0.low, s) && t.of == Joined(t0.of, s, c)
            && c in t.nodes && t.nodes == t0.nodes[c := t.nodes[c]]
            && Distinct(t.nodes[c]) && Elements(t.nodes[c]) == s
  {
    assert Elements(nodeStack[cut..]) + {rootN} == Taken(rootN, nodeStack, cut);
  }

  /** The members of the new component are functions whose callees all have a component now. */
  lemma FormReady(cal: CalleeLists, e: Edges, of: map<Vertex, SccId>, ids: set<SccId>, dfs: Numbers,
                  rootN: Vertex, nodeStack: seq<Vertex>, cut: nat, c: SccId, ns: seq<Vertex>, of': map<Vertex, SccId>)
    requires CanForm(cal, e, of, ids, dfs, rootN, nodeStack, cut)
    requires Elements(ns) == Taken(rootN, nodeStack, cut) && of' == Joined(of, Taken(rootN, nodeStack, cut), c)
    ensures forall u :: u in ns ==> u in cal
    ensures forall u, v :: u in ns && Edge(e, u, v) ==> v in of' && of'[v] in ids + {c}
  {
    var s := Taken(rootN, nodeStack, cut);
    forall u | u in ns
      ensures u in cal && u in s
    {
      assert u in Elements(ns);
      if u != rootN {
        var i :| 0 <= i < |nodeStack[cut..]| && nodeStack[cut..][i] == u;
        assert nodeStack[cut + i] == u;
      }
    }
  }

  /** Every entry is on the list or has been met. */
  ghost predicate EntriesOk(entries: set<Vertex>, left: seq<Vertex>, functions: set<Vertex>, known: set<Vertex>) {
    && (forall x :: x in left ==> x in entries)
    && (forall x :: x in entries ==> x in functions && (x in left || x in known))
  }

  lemma EntriesGrow(entries: set<Vertex>, left: seq<Vertex>, functions: set<Vertex>, known: set<Vertex>,
                    known': set<Vertex>)
    requires EntriesOk(entries, left, functions, known) && known <= known'
    ensures EntriesOk(entries, left, functions, known')
  {
  }

  lemma EntryMet(entries: set<Vertex>, left: seq<Vertex>, functions: set<Vertex>, known: set<Vertex>, x: Vertex)
    requires EntriesOk(entries, left + [x], functions, known)
    ensures EntriesOk(entries, left, functions, known + {x}) && x in entries && x in functions
  {
    assert x in left + [x];
  }

  lemma RootReady(cal: CalleeLists, e: Edges, f: Forest, stack: seq<Frame>, pending: seq<Vertex>, w: Walk, n: Vertex)
    returns (cut: nat)
    requires n in cal && Exploring(cal, e, f.of.Keys, stack + [Frame(n, |cal[n]|)], pending, w)
    requires w.L(n) == w.D(n) && f.Valid(e)
    ensures CutAt(pending, w, n, cut) && CanForm(cal, e, f.of, f.parents.Keys, w.dfs, n, pending, cut)
    ensures Lists(cal, e) && Taken(n, pending, cut) == Component(w, n)
    ensures IsScc(e, Component(w, n)) && Closed(e, f.of.Keys + Component(w, n))
    ensures Component(w, n) != {} && Component(w, n) !! f.of.Keys
  {
    hide Exploring, Forest.Linked, Forest.ParentsLater, IsScc, Component, Distinct;
    TopInPath(cal, e, f.of.Keys, stack, pending, w, n, |cal[n]|);
    GroupsClosed(e, f);
    ExploringKeys(cal, e, f.of.Keys, stack + [Frame(n, |cal[n]|)], pending, w);
    PendingActive(cal, e, f.of.Keys, stack + [Frame(n, |cal[n]|)], pending, w);
    RootInside(w, n);
    cut := RootCut(cal, e, f.of.Keys, stack, pending, w, n);
  }

  lemma RootInside(w: Walk, n: Vertex)
    ensures n in Component(w, n)
  {
  }

  lemma FreshId(e: Edges, f: Forest, nodes: map<SccId, seq<Vertex>>, nextSCC: SccId, nextRank: int)
    requires f.Valid(e) && Tabled(f, nodes, nextSCC, nextRank)
    ensures nextSCC !in nodes && nextSCC !in f.parents && nextSCC !in f.leaves && nextSCC !in f.rank
  {
  }

  lemma WalkDone(cal: CalleeLists, e: Edges, of: map<Vertex, SccId>, of': map<Vertex, SccId>, stack: seq<Frame>,
                 pending: seq<Vertex>, w: Walk, n: Vertex, cut: nat, dfs: Numbers, low: Numbers, c: SccId)
    requires n in cal && Exploring(cal, e, of.Keys, stack + [Frame(n, |cal[n]|)], pending, w)
    requires w.L(n) == w.D(n) && CutAt(pending, w, n, cut)
    requires dfs == Marked(w.dfs, Component(w, n))
    requires low == Marked(w.low, Component(w, n))
    requires of' == Joined(of, Component(w, n), c)
    ensures Exploring(cal, e, of'.Keys, stack, pending[..cut], Form(w, n, dfs, low))
    ensures of'.Keys + Form(w, n, dfs, low).Active() == of.Keys + w.Active() && n in of' && n !in of
  {
    hide Exploring, Marked, Joined, CutAt;
    TopInPath(cal, e, of.Keys, stack, pending, w, n, |cal[n]|);
    FormStep(cal, e, of.Keys, stack, pending, w, n, cut, dfs, low);
    JoinedKeys(of, Component(w, n), c);
    ActiveApart(cal, e, of.Keys, stack + [Frame(n, |cal[n]|)], pending, w);
    assert n in Component(w, n) && Component(w, n) <= w.Active();
  }

  lemma ActiveApart(cal: CalleeLists, e: Edges, formed: set<Vertex>, stack: seq<Frame>, pending: seq<Vertex>, w: Walk)
    requires Exploring(cal, e, formed, stack, pending, w)
    ensures w.Active() !! formed
  {
  }

  /** Formed does not speak of ranks. */
  lemma FormedRanked(e: Edges, f: Forest, g: Forest, r: map<SccId, int>, c: SccId, s: set<Vertex>,
                     ns: seq<Vertex>, kids: set<SccId>)
    requires Formed(e, f, g, c, s, ns, kids)
    ensures Formed(e, f, g.(rank := r), c, s, ns, kids)
  {
  }

  lemma GroupsDone(e: Edges, f: Forest, f': Forest, nodes: map<SccId, seq<Vertex>>, c: SccId, s: set<Vertex>,
                   ns: seq<Vertex>, kids: set<SccId>, nextRank: int)
    requires f.Valid(e) && Tabled(f, nodes, c, nextRank)
    requires IsScc(e, s) && Closed(e, f.of.Keys + s)
    requires Formed(e, f, f', c, s, ns, kids) && f'.rank == f.rank[c := nextRank]
    ensures f'.Valid(e) && Tabled(f', nodes[c := ns], c + 1, nextRank + 1)
    ensures f.ParentsExact(e) ==> f'.ParentsExact(e)
    ensures f.LeavesExact(e) ==> f'.LeavesExact(e)
  {
    hide Forest.Partition, Forest.Linked, Forest.ParentsLater, Forest.ParentsExact, Forest.LeavesExact;
    hide Formed, Extends, Closed, IsScc;
    GroupsClosed(e, f);
    FreshId(e, f, nodes, c, nextRank);
    FormedTabled(e, f, f', c, s, nodes, ns, kids, nextRank);
    FormedExtends(e, f, f', c, s, ns, kids);
    ExtendsValid(e, f, f', c, s, kids);
  }

  /** Forming a root's component, as one step on the walk and on the tables. */
  lemma FormedWalk(w: Walk, n: Vertex, dfs: Numbers, low: Numbers)
    ensures Form(w, n, dfs, low).dfs == dfs && Form(w, n, dfs, low).low == low && Form(w, n, dfs, low).next == w.next
  {
    hide Component;
  }

  lemma RootDone(cal: CalleeLists, e: Edges, f: Forest, f1: Forest, f': Forest, nodes: map<SccId, seq<Vertex>>,
                 c: SccId,
                 ns: seq<Vertex>, kids: set<SccId>, nextRank: int, stack: seq<Frame>, pending: seq<Vertex>,
                 w: Walk, n: Vertex, cut: nat, dfs: Numbers, low: Numbers)
    requires n in cal && Exploring(cal, e, f.of.Keys, stack + [Frame(n, |cal[n]|)], pending, w)
    requires w.L(n) == w.D(n) && CutAt(pending, w, n, cut) && f.Valid(e) && Tabled(f, nodes, c, nextRank)
    requires dfs == Marked(w.dfs, Component(w, n)) && low == Marked(w.low, Component(w, n))
    requires IsScc(e, Component(w, n)) && Closed(e, f.of.Keys + Component(w, n))
    requires Formed(e, f, f1, c, Component(w, n), ns, kids) && f' == f1.(rank := f.rank[c := nextRank])
    ensures Exploring(cal, e, f'.of.Keys, stack, pending[..cut], Form(w, n, dfs, low))
    ensures f'.of.Keys + Form(w, n, dfs, low).Active() == f.of.Keys + w.Active() && n in f'.of && n !in f.of
    ensures f'.Valid(e) && Tabled(f', nodes[c := ns], c + 1, nextRank + 1)
    ensures f.ParentsExact(e) ==> f'.ParentsExact(e)
    ensures f.LeavesExact(e) ==> f'.LeavesExact(e)
  {
    hide Exploring, CutAt, Forest.Valid, Tabled, Marked, IsScc, Closed, Component, Formed, Forest.ParentsExact,
         Forest.LeavesExact;
    FormedOf(e, f, f1, c, Component(w, n), ns, kids);
    WalkDone(cal, e, f.of, f'.of, stack, pending, w, n, cut, dfs, low, c);
    FormedRanked(e, f, f1, f'.rank, c, Component(w, n), ns, kids);
    GroupsDone(e, f, f', nodes, c, Component(w, n), ns, kids, nextRank);
  }

  ghost predicate ReachableFrom(e: Edges, s: set<Vertex>, v: Vertex) {
    exists x :: x in s && Reach(e, x, v)
  }

  ghost predicate AllReachable(e: Edges, s: set<Vertex>, k: set<Vertex>) {
    forall v {:trigger ReachableFrom(e, s, v)} :: v in k ==> ReachableFrom(e, s, v)
  }

  lemma ReachableStep(e: Edges, s: set<Vertex>, k: set<Vertex>, u: Vertex, v: Vertex)
    requires AllReachable(e, s, k) && u in k && Edge(e, u, v)
    ensures AllReachable(e, s, k + {v})
  {
    assert ReachableFrom(e, s, u);
    var x :| x in s && Reach(e, x, u);
    ReachEdge(e, u, v);
    ReachTrans(e, x, u, v);
  }

  lemma SelfReachable(e: Edges, s: set<Vertex>)
    ensures AllReachable(e, s, s)
  {
    forall v | v in s
      ensures ReachableFrom(e, s, v)
    {
      ReachRefl(e, v);
    }
  }

  lemma FewerReachable(e: Edges, s: set<Vertex>, k: set<Vertex>, k': set<Vertex>)
    requires AllReachable(e, s, k) && k' <= k
    ensures AllReachable(e, s, k')
  {
  }

  lemma EntryReachable(e: Edges, s: set<Vertex>, k: set<Vertex>, n: Vertex)
    requires AllReachable(e, s, k) && n in s
    ensures AllReachable(e, s, k + {n})
  {
    ReachRefl(e, n);
    assert ReachableFrom(e, s, n);
  }

  lemma ReachableOnwards(e: Edges, s: set<Vertex>, k: set<Vertex>, k': set<Vertex>)
    requires AllReachable(e, s, k) && AllReachable(e, k, k')
    ensures AllReachable(e, s, k')
  {
    forall v | v in k'
      ensures ReachableFrom(e, s, v)
    {
      assert ReachableFrom(e, k, v);
      var u :| u in k && Reach(e, u, v);
      assert ReachableFrom(e, s, u);
      var x :| x in s && Reach(e, x, u);
      ReachTrans(e, x, u, v);
    }
  }

  lemma NothingActive(cal: CalleeLists, e: Edges, formed: set<Vertex>, pending: seq<Vertex>, w: Walk)
    requires Exploring(cal, e, formed, [], pending, w)
    ensures w.Active() == {}
  {
    assert forall v :: v !in w.Active();
  }

  lemma NumbersTotal(cal: CalleeLists, e: Edges, formed: set<Vertex>, stack: seq<Frame>, pending: seq<Vertex>, w: Walk)
    requires Exploring(cal, e, formed, stack, pending, w)
    ensures w.dfs.Keys == w.low.Keys == cal.Keys && formed + w.Active() <= cal.Keys
    ensures forall v :: v in w.dfs && w.dfs[v] != 0 ==> v in formed + w.Active()
  {
  }

  ghost predicate InGroup(nodes: map<SccId, seq<Vertex>>, c: SccId, v: Vertex) {
    c in nodes && v in nodes[c]
  }

  ghost predicate InSome(nodes: map<SccId, seq<Vertex>>, sccs: seq<SccId>, v: Vertex) {
    exists i :: 0 <= i < |sccs| && InGroup(nodes, sccs[i], v)
  }

  /** `sccs` visits the call graph in post-order: exactly the functions that an entry reaches are
      in a group, no function is in two groups or twice in one, every group is a strongly
      connected component, and calls lead only into the same or an earlier group. */
  ghost predicate IsPostOrder(e: Edges, entries: set<Vertex>, nodes: map<SccId, seq<Vertex>>, sccs: seq<SccId>) {
    && (forall v {:trigger ReachableFrom(e, entries, v)} :: ReachableFrom(e, entries, v) <==> InSome(nodes, sccs, v))
    && (forall i, j, v :: 0 <= i < j < |sccs| ==> !(InGroup(nodes, sccs[i], v) && InGroup(nodes, sccs[j], v)))
    && (forall i :: 0 <= i < |sccs| ==>
          sccs[i] in nodes && Distinct(nodes[sccs[i]]) && IsScc(e, Elements(nodes[sccs[i]])))
    && (forall i, u, v :: 0 <= i < |sccs| && InGroup(nodes, sccs[i], u) && Edge(e, u, v) ==>
          InSome(nodes, sccs[..i + 1], v))
  }

  /** The components in use are those listed, in increasing rank. */
  ghost predicate RankedInOrder(rank: map<SccId, int>, nextRank: int, sccs: seq<SccId>) {
    && (forall c :: c in rank <==> c in sccs)
    && (forall i, j :: 0 <= i < j < |sccs| ==> rank[sccs[i]] < rank[sccs[j]])
    && (forall i :: 0 <= i < |sccs| ==> rank[sccs[i]] < nextRank)
  }

  lemma RankedNext(rank: map<SccId, int>, nextRank: int, sccs: seq<SccId>, c: SccId)
    requires RankedInOrder(rank, nextRank, sccs) && c !in rank
    ensures RankedInOrder(rank[c := nextRank], nextRank + 1, sccs + [c])
  {
    var s := sccs + [c];
    assert forall i :: 0 <= i < |sccs| ==> s[i] == sccs[i] && s[i] in rank;
  }

  lemma RankedBefore(rank: map<SccId, int>, nextRank: int, sccs: seq<SccId>, i: nat, j: nat)
    requires RankedInOrder(rank, nextRank, sccs) && i < |sccs| && j < |sccs| && rank[sccs[j]] <= rank[sccs[i]]
    ensures j <= i
  {
  }

  lemma KeysTabled(f: Forest, nodes: map<SccId, seq<Vertex>>, nextSCC: SccId, nextRank: int)
    requires Tabled(f, nodes, nextSCC, nextRank)
    ensures f.rank.Keys == nodes.Keys
  {
  }

  lemma FoundInOrder(e: Edges, f: Forest, nodes: map<SccId, seq<Vertex>>, nextSCC: SccId, nextRank: int,
                     sccs: seq<SccId>, v: Vertex)
    returns (i: nat)
    requires f.Valid(e) && Tabled(f, nodes, nextSCC, nextRank) && RankedInOrder(f.rank, nextRank, sccs) && v in f.of
    ensures i < |sccs| && f.of[v] == sccs[i] && InGroup(nodes, sccs[i], v)
  {
    assert f.Has(v, f.of[v]);
    i :| 0 <= i < |sccs| && sccs[i] == f.of[v];
    assert v in Elements(nodes[sccs[i]]);
  }

  lemma GroupHas(f: Forest, nodes: map<SccId, seq<Vertex>>, nextSCC: SccId, nextRank: int, c: SccId, v: Vertex)
    requires Tabled(f, nodes, nextSCC, nextRank) && InGroup(nodes, c, v)
    ensures f.Has(v, c)
  {
    assert v in Elements(nodes[c]);
  }

  /** When no component is left to form, those formed are a post-order of all that is reachable. */
  lemma WalkComplete(e: Edges, entries: set<Vertex>, f: Forest, nodes: map<SccId, seq<Vertex>>,
                     nextSCC: SccId, nextRank: int, sccs: seq<SccId>)
    requires f.Valid(e) && Tabled(f, nodes, nextSCC, nextRank) && RankedInOrder(f.rank, nextRank, sccs)
    requires entries <= f.of.Keys && AllReachable(e, entries, f.of.Keys)
    ensures IsPostOrder(e, entries, nodes, sccs)
  {
    hide Forest.Partition, Forest.Linked, Forest.ParentsLater;
    GroupsClosed(e, f);
    forall v
      ensures ReachableFrom(e, entries, v) <==> InSome(nodes, sccs, v)
    {
      if ReachableFrom(e, entries, v) {
        var x :| x in entries && Reach(e, x, v);
        ClosedReach(e, f.of.Keys, x, v);
        var i := FoundInOrder(e, f, nodes, nextSCC, nextRank, sccs, v);
      }
      if InSome(nodes, sccs, v) {
        var i :| 0 <= i < |sccs| && InGroup(nodes, sccs[i], v);
        GroupHas(f, nodes, nextSCC, nextRank, sccs[i], v);
      }
    }
    forall i, j, v | 0 <= i < j < |sccs| && InGroup(nodes, sccs[i], v) && InGroup(nodes, sccs[j], v)
      ensures false
    {
      GroupHas(f, nodes, nextSCC, nextRank, sccs[i], v);
      GroupHas(f, nodes, nextSCC, nextRank, sccs[j], v);
    }
    forall i | 0 <= i < |sccs|
      ensures sccs[i] in nodes && Distinct(nodes[sccs[i]]) && IsScc(e, Elements(nodes[sccs[i]]))
    {
      assert sccs[i] in f.rank;
      GroupsAreSccs(e, f, sccs[i]);
    }
    forall i, u, v | 0 <= i < |sccs| && InGroup(nodes, sccs[i], u) && Edge(e, u, v)
      ensures InSome(nodes, sccs[..i + 1], v)
    {
      GroupHas(f, nodes, nextSCC, nextRank, sccs[i], u);
      EdgeGoesDown(e, f, u, v);
      var j := FoundInOrder(e, f, nodes, nextSCC, nextRank, sccs, v);
      RankedBefore(f.rank, nextRank, sccs, i, j);
      assert sccs[..i + 1][j] == sccs[j];
    }
  }

  /** c is a proper ancestor of something on the worklist. */
  ghost predicate AnyBelow(f: Forest, c: SccId, worklist: seq<SccId>) {
    exists i :: 0 <= i < |worklist| && ProperAncestor(f, c, worklist[i])
  }

  lemma AnyBelowPush(f: Forest, c: SccId, worklist: seq<SccId>, x: SccId)
    ensures AnyBelow(f, c, worklist + [x]) <==> AnyBelow(f, c, worklist) || ProperAncestor(f, c, x)
  {
    var w := worklist + [x];
    assert forall i :: 0 <= i < |worklist| ==> w[i] == worklist[i];
    assert w[|worklist|] == x;
    if i :| 0 <= i < |worklist| && ProperAncestor(f, c, worklist[i]) {
      assert ProperAncestor(f, c, w[i]);
    }
  }

  /** The work of n pushes at k each. */
  function Budget(n: nat, k: nat): nat {
    n * k
  }

  lemma BudgetStep(n: nat, k: nat)
    ensures Budget(n + 1, k) == Budget(n, k) + k
  {
  }

  lemma NoBudget(k: nat)
    ensures Budget(0, k) == 0
  {
  }

  ghost predicate AnyOf(f: Forest, c: SccId, s: set<SccId>) {
    exists p :: p in s && ProperAncestor(f, c, p)
  }

  lemma AnyOfAdd(f: Forest, c: SccId, s: set<SccId>, x: SccId)
    ensures AnyOf(f, c, s + {x}) <==> AnyOf(f, c, s) || ProperAncestor(f, c, x)
  {
  }

  lemma NoneOf(f: Forest, c: SccId)
    ensures !AnyOf(f, c, {})
  {
  }

  lemma NoneBelow(f: Forest, c: SccId)
    ensures !AnyBelow(f, c, [])
  {
  }

  /** All parents of x together cost less than x. */
  lemma ParentsWork(e: Edges, f: Forest, x: SccId) returns (k: nat)
    requires f.Valid(e) && x in f.rank
    ensures forall p :: p in f.Parents(x) ==> p in f.rank && Steps(|Later(f, p)|) <= k
    ensures Budget(|f.Parents(x)|, k) < Steps(|Later(f, x)|)
  {
    hide Forest.Partition, Forest.Linked, Steps, Budget, Later;
    if f.Parents(x) == {} {
      k := 0;
      NoBudget(k);
    } else {
      var q :| q in f.Parents(x);
      ParentsCheaper(f, x, q);
      var n := |Later(f, x)|;
      k := Steps(n - 1);
      forall p | p in f.Parents(x)
        ensures p in f.rank && Steps(|Later(f, p)|) <= k
      {
        ParentsCheaper(f, x, p);
      }
      StepsCover(|f.Parents(x)|, n);
    }
  }

  lemma StepsCover(m: nat, n: nat)
    requires m <= n && n > 0
    ensures Budget(m, Steps(n - 1)) < Steps(n)
  {
    BudgetGrows(m, n, Steps(n - 1));
  }

  lemma BudgetGrows(m: nat, n: nat, k: nat)
    requires m <= n
    ensures Budget(m, k) <= Budget(n, k)
  {
  }

  lemma ExploringLists(cal: CalleeLists, e: Edges, formed: set<Vertex>, stack: seq<Frame>, pending: seq<Vertex>,
                       w: Walk)
    requires Exploring(cal, e, formed, stack, pending, w)
    ensures Lists(cal, e)
  {
  }

  lemma AddsOutside(e: Edges, e': Edges, u: Vertex, v: Vertex, s: set<Vertex>)
    requires Adds(e, e', u, v) && u in s
    ensures SameOutside(e, e', s)
  {
  }

  lemma DropsOutside(e: Edges, e': Edges, u: Vertex, v: Vertex, s: set<Vertex>)
    requires Drops(e, e', u, v) && u in s
    ensures SameOutside(e, e', s)
  {
  }

  lemma ExactParent(e: Edges, f: Forest, c: SccId, p: SccId)
    requires f.ParentsExact(e) && c in f.rank && p in f.rank && p in f.Parents(c)
    ensures f.Calls(e, p, c)
  {
    assert f.ExactAt(e, c, p);
  }

  lemma MoreParentsValid(e: Edges, f: Forest, f': Forest, c: SccId, p: SccId)
    requires f.Valid(e) && c in f.rank && p in f.rank && f.Rank(c) < f.Rank(p)
    requires f' == f.(parents := f.parents[c := f.Parents(c) + {p}])
    ensures f'.Valid(e)
  {
    assert forall v, d :: f'.Has(v, d) <==> f.Has(v, d);
    assert forall d :: f'.Rank(d) == f.Rank(d);
  }

  lemma HasRank(e: Edges, f: Forest, v: Vertex)
    requires f.Valid(e) && v in f.of
    ensures f.of[v] in f.rank
  {
    assert f.Has(v, f.of[v]);
  }

  /** A new call between components, to a descendant; the caller's component becomes a parent. */
  lemma OutgoingDone(e: Edges, e': Edges, f: Forest, f': Forest, u: Vertex, v: Vertex)
    requires f.Valid(e) && Adds(e, e', u, v) && u in f.of && v in f.of && f.of[u] != f.of[v]
             && ProperAncestor(f, f.of[u], f.of[v])
    requires f.of[v] in f.parents && f' == f.(parents := f.parents[f.of[v] := f.parents[f.of[v]] + {f.of[u]}])
    ensures f'.Valid(e')
    ensures f.ParentsExact(e) ==> f'.ParentsExact(e')
    ensures f.ParentsExact(e) && f.LeavesExact(e) ==> f'.LeavesExact(e')
  {
    hide Forest.Partition, Forest.Linked, Forest.ParentsExact, Forest.LeavesExact, Adds, ProperAncestor;
    HasRank(e, f, u);
    HasRank(e, f, v);
    var x := AncestorFacts(f, f.of[u], f.of[v]);
    ParentsTotal(e, f, f.of[v]);
    AddsValid(e, e', f, u, v);
    MoreParentsValid(e', f, f', f.of[v], f.of[u]);
    OutgoingInsertExact(e, e', f, f', u, v);
    if f.ParentsExact(e) {
      ExactParent(e, f, x, f.of[u]);
      OutgoingInsertLeaves(e, e', f, f', u, v, x);
    }
  }

  lemma SameTables(f: Forest, f': Forest, nodes: map<SccId, seq<Vertex>>, nextSCC: SccId, nextRank: int)
    requires Tabled(f, nodes, nextSCC, nextRank) && f'.of == f.of && f'.rank == f.rank
    requires forall c :: c in f'.leaves ==> c in f.leaves || c in f.rank
    ensures Tabled(f', nodes, nextSCC, nextRank)
  {
    assert forall d :: f'.Members(d) == f.Members(d);
  }

  lemma ValidPartition(e: Edges, f: Forest)
    requires f.Valid(e)
    ensures f.Partition()
  {
  }

  lemma SameLeaf(e: Edges, f: Forest, f': Forest, c: SccId)
    requires f'.of == f.of && f'.rank == f.rank
    ensures f.IsLeaf(e, c) <==> f'.IsLeaf(e, c)
  {
    forall d
      ensures f.Calls(e, c, d) <==> f'.Calls(e, c, d)
    {
      SameOf(e, f, f', c, d);
    }
  }

  lemma CallsMeansNoLeaf(e: Edges, f: Forest, c: SccId, d: SccId)
    requires d in f.rank && c != d
    ensures f.Calls(e, c, d) ==> !f.IsLeaf(e, c)
  {
  }

  lemma SameCalls(f: Forest, f': Forest, e: Edges, c: SccId, d: SccId)
    requires f'.of == f.of && f'.rank == f.rank && d in f.rank
    ensures f'.Calls(e, c, d) == f.Calls(e, c, d) && f'.IsLeaf(e, c) == f.IsLeaf(e, c)
    ensures f.Calls(e, c, d) && c != d ==> !f.IsLeaf(e, c)
  {
  }

  lemma InterDone(e: Edges, e': Edges, f: Forest, f': Forest, u: Vertex, v: Vertex, c: SccId, d: SccId,
                  toCallee: bool, outside: bool)
    requires f.Valid(e) && Drops(e, e', u, v) && Edge(e, u, v) && f.Has(u, c) && f.Has(v, d) && c != d
    requires (toCallee <==> f.Calls(e', c, d)) && (!toCallee ==> (outside <==> !f.IsLeaf(e', c)))
    requires d in f.parents && f'.of == f.of && f'.rank == f.rank
    requires f'.parents == if toCallee then f.parents else f.parents[d := f.parents[d] - {c}]
    requires f'.leaves == if outside then f.leaves else f.leaves + {c}
    ensures f'.Valid(e')
    ensures f.ParentsExact(e) ==> f'.ParentsExact(e')
    ensures f.LeavesExact(e) ==> (f'.LeavesExact(e') <==> (toCallee ==> outside))
  {
    hide Forest.Valid, Forest.LeavesExact, Forest.ParentsExact;
    InterDropValid(e, e', f, u, v);
    FewerParentsValid(e', f, f');
    if f.ParentsExact(e) {
      InterDropExact(e, e', f, f', u, v);
    }
    if f.LeavesExact(e) {
      ValidPartition(e, f);
      InterDropLeaves(e, e', f, f', u, v);
      SameLeaf(e', f, f', c);
      CallsMeansNoLeaf(e', f, c, d);
      NotLeafBefore(e, f, u, v, c, d);
    }
  }

  lemma NotLeafBefore(e: Edges, f: Forest, u: Vertex, v: Vertex, c: SccId, d: SccId)
    requires f.Partition() && f.LeavesExact(e) && Edge(e, u, v) && f.Has(u, c) && f.Has(v, d) && c != d
    ensures c !in f.leaves && d in f.rank
  {
    assert f.Calls(e, c, d);
    assert f.IsLeaf(e, c) <==> c in f.leaves;
  }

  /** The members of a component are functions whose callees are formed. */
  lemma MembersOf(cal: CalleeLists, e: Edges, f: Forest, nodes: map<SccId, seq<Vertex>>, nextSCC: SccId, nextRank: int,
                  c: SccId)
    requires Lists(cal, e) && f.Valid(e) && f.of.Keys <= cal.Keys && Tabled(f, nodes, nextSCC, nextRank) && c in nodes
    ensures Elements(nodes[c]) == f.Members(c) && forall n :: n in nodes[c] ==> n in cal && n in f.of
    ensures forall n, k :: n in nodes[c] && n in cal && 0 <= k < |cal[n]| && cal[n][k].Some? ==> cal[n][k].value in f.of
  {
    hide Forest.Partition, Forest.ParentsLater;
    forall n | n in nodes[c]
      ensures n in cal && n in f.of
    {
      assert n in Elements(nodes[c]);
    }
  }

  lemma ParentsTotal(e: Edges, f: Forest, c: SccId)
    requires f.Valid(e) && c in f.rank
    ensures c in f.parents && f.parents[c] == f.Parents(c)
  {
  }

  lemma MembersListed(f: Forest, nodes: map<SccId, seq<Vertex>>, nextSCC: SccId, nextRank: int, c: SccId)
    requires Tabled(f, nodes, nextSCC, nextRank) && c in nodes
    ensures forall v :: v in nodes[c] <==> f.Has(v, c)
  {
    assert forall v :: v in nodes[c] <==> v in Elements(nodes[c]);
  }

  lemma EdgeGoesDown(e: Edges, f: Forest, u: Vertex, v: Vertex)
    requires f.Valid(e) && u in f.of && Edge(e, u, v)
    ensures v in f.of && f.Rank(f.of[v]) <= f.Rank(f.of[u])
  {
  }

  lemma ChildListed(cal: CalleeLists, e: Edges, formed: set<Vertex>, stack: seq<Frame>, pending: seq<Vertex>, w: Walk,
                    n: Vertex, i: nat)
    requires Exploring(cal, e, formed, stack, pending, w) && n in cal && i < |cal[n]| && cal[n][i].Some?
    ensures Edge(e, n, cal[n][i].value) && cal[n][i].value in w.dfs && cal[n][i].value in w.low
  {
  }

  // ---------------------------------------------------------------- taking a component apart

  /** Only numbers of members of the component differ. */
  ghost predicate OnlyMembers(k: Case, m: Numbers, m': Numbers) {
    forall x :: !k.f0.Has(x, k.c) ==> At(m', x) == At(m, x)
  }

  lemma OnlyMembersThen(k: Case, m: Numbers, m': Numbers, m'': Numbers)
    requires OnlyMembers(k, m, m') && OnlyMembers(k, m', m'')
    ensures OnlyMembers(k, m, m'')
  {
  }

  lemma OnlyMarked(k: Case, m: Numbers, s: set<Vertex>)
    requires forall x :: x in s ==> k.f0.Has(x, k.c)
    ensures OnlyMembers(k, m, Marked(m, s))
  {
    MarkedAt(m, s);
  }

  function StackNodes(stack: seq<Frame>): (ns: seq<Vertex>)
    ensures |ns| == |stack| && forall i :: 0 <= i < |ns| ==> ns[i] == stack[i].node
  {
    seq(|stack|, i requires 0 <= i < |stack| => stack[i].node)
  }

  lemma MarkedTwice(m: Numbers, s: set<Vertex>, t: set<Vertex>)
    ensures Marked(Marked(m, s), t) == Marked(m, s + t)
  {
  }

  lemma JoinedTwice(of: map<Vertex, SccId>, s: set<Vertex>, t: set<Vertex>, c: SccId)
    ensures Joined(Joined(of, s, c), t, c) == Joined(of, s + t, c)
  {
  }

  /** The two stacks and the node in hand hold the active nodes, each once. */
  lemma ActiveListed(cal: CalleeLists, e: Edges, formed: set<Vertex>, stack: seq<Frame>, pending: seq<Vertex>,
                     w: Walk, n: Vertex, it: nat)
    requires Exploring(cal, e, formed, stack + [Frame(n, it)], pending, w)
    ensures w.Active() == {n} + Elements(pending) + Elements(StackNodes(stack))
    ensures Distinct(pending) && Distinct(StackNodes(stack))
    ensures n !in pending && n !in StackNodes(stack) && Elements(pending) !! Elements(StackNodes(stack))
  {
    var s, ns := stack + [Frame(n, it)], StackNodes(stack);
    assert s[|stack|] == Frame(n, it);
    assert forall i :: 0 <= i < |stack| ==> s[i] == stack[i];
    assert forall i :: 0 <= i < |stack| ==> ns[i] in w.path && w.D(ns[i]) < w.D(n);
    forall v | v in w.path
      ensures v == n || v in ns
    {
      assert OnStack(s, v);
      var i :| 0 <= i < |s| && s[i].node == v;
      if i < |stack| { assert ns[i] == v; }
    }
  }

  lemma PlacedJoin(k: Case, nodes: map<SccId, seq<Vertex>>, nodes': map<SccId, seq<Vertex>>, next: SccId,
                   g: Forest, g': Forest, s: set<Vertex>)
    requires Placed(k, nodes, next, g) && k.c in nodes && k.c in nodes' && nodes' == nodes[k.c := nodes'[k.c]]
    requires g'.of == Joined(g.of, s, k.c) && s !! g.of.Keys
    requires Distinct(nodes'[k.c]) && Elements(nodes'[k.c]) == Elements(nodes[k.c]) + s
    ensures Placed(k, nodes', next, g')
  {
    hide Distinct, Elements;
    assert g'.Members(k.c) == g.Members(k.c) + s;
    forall d | d in nodes && d != k.c
      ensures g'.Members(d) == g.Members(d)
    {
    }
  }

  lemma PlacedForm(k: Case, nodes: map<SccId, seq<Vertex>>, nodes': map<SccId, seq<Vertex>>, next: SccId,
                   g: Forest, g': Forest, s: set<Vertex>)
    requires Placed(k, nodes, next, g) && next in nodes' && nodes' == nodes[next := nodes'[next]] && k.base <= next
    requires next !in nodes && g'.of == Joined(g.of, s, next) && s !! g.of.Keys
    requires forall x :: x in g.of ==> g.of[x] != next
    requires Distinct(nodes'[next]) && Elements(nodes'[next]) == s
    ensures Placed(k, nodes', next + 1, g')
  {
    hide Distinct, Elements;
    assert NewIds(k.base, next + 1) == NewIds(k.base, next) + {next};
    assert g'.Members(next) == s;
    forall d | d in nodes
      ensures g'.Members(d) == g.Members(d)
    {
    }
  }

  lemma PlacedAt(k: Case, nodes: map<SccId, seq<Vertex>>, next: SccId, g: Forest, d: SccId)
    requires Placed(k, nodes, next, g) && d in nodes
    ensures Distinct(nodes[d]) && Elements(nodes[d]) == g.Members(d)
  {
  }

  lemma ActiveLoose(k: Case, cal: CalleeLists, g: Forest, next: SccId, dfs: Numbers, low: Numbers,
                    stack: seq<Frame>, pending: seq<Vertex>, w: Walk)
    requires Inner(k, cal, g, next, dfs, low, stack, pending, w)
    ensures w.Active() !! g.of.Keys
    ensures forall y :: y in w.Active() ==> k.f0.Has(y, k.c)
  {
    hide Splitting, SplitStart, Exploring;
    var a := w.Active();
    assert forall y :: y in a ==> k.Loose(g, y);
    forall y | y in g.of
      ensures y !in a
    {
    }
  }

  lemma PlacedKeys(k: Case, nodes: map<SccId, seq<Vertex>>, next: SccId, g: Forest)
    requires Placed(k, nodes, next, g) && k.Start() && k.base <= next
    ensures next !in nodes
  {
  }

  lemma InnerBegin(k: Case, cal: CalleeLists, g: Forest, next: SccId, dfs: Numbers, low: Numbers, w: Walk, x: Vertex)
    requires Inner(k, cal, g, next, dfs, low, [], [], w) && k.Loose(g, x) && x in dfs && dfs[x] == 0
    ensures x in cal && k.f0.Has(x, k.c)
    ensures Inner(k, cal, g, next, dfs[x := 1], low[x := 1], [] + [Frame(x, 0)], [], Descend(w.(next := 1), x))
    ensures Descend(w.(next := 1), x).next == 2 && Descend(w.(next := 1), x).Active() == {x}
  {
    hide Splitting, SplitStart, Exploring;
    ExploringKeys(cal, k.e, k.SettledIn(g), [], [], w);
    InnerStart(k, cal, g, next, dfs, low, w, x);
  }

  lemma MembersMapped(g: Forest, c: SccId)
    ensures g.Members(c) <= g.of.Keys
  {
  }

  /** A root inside the component is ready to be formed. */
  lemma InnerReady(k: Case, cal: CalleeLists, g: Forest, next: SccId, dfs: Numbers, low: Numbers,
                   stack: seq<Frame>, pending: seq<Vertex>, w: Walk, n: Vertex) returns (cut: nat)
    requires n in cal && Inner(k, cal, g, next, dfs, low, stack + [Frame(n, |cal[n]|)], pending, w)
    requires w.L(n) == w.D(n)
    ensures CutAt(pending, w, n, cut) && CanForm(cal, k.e, g.of, g.parents.Keys, dfs, n, pending, cut)
    ensures Lists(cal, k.e) && Taken(n, pending, cut) == Component(w, n) && Component(w, n) <= w.Active()
    ensures Component(w, n) !! g.of.Keys && Component(w, n) != {}
  {
    hide Splitting, SplitStart, Exploring, Settled, Component, IsScc, ScanErased, Distinct;
    CaseFacts(k, g, next);
    ExploringKeys(cal, k.e, k.SettledIn(g), stack + [Frame(n, |cal[n]|)], pending, w);
    TopInPath(cal, k.e, k.SettledIn(g), stack, pending, w, n, |cal[n]|);
    PendingActive(cal, k.e, k.SettledIn(g), stack + [Frame(n, |cal[n]|)], pending, w);
    cut := RootCut(cal, k.e, k.SettledIn(g), stack, pending, w, n);
    RootInside(w, n);
  }

  lemma PendingActive(cal: CalleeLists, e: Edges, formed: set<Vertex>, stack: seq<Frame>, pending: seq<Vertex>, w: Walk)
    requires Exploring(cal, e, formed, stack, pending, w)
    ensures forall i :: 0 <= i < |pending| ==> pending[i] in w.Active()
  {
  }

  /** How the inner loop sees a callee of the node in hand. */
  lemma InnerChild(k: Case, cal: CalleeLists, g: Forest, next: SccId, dfs: Numbers, low: Numbers,
                   stack: seq<Frame>, pending: seq<Vertex>, w: Walk, n: Vertex, it: nat, x: Vertex)
    requires Inner(k, cal, g, next, dfs, low, stack + [Frame(n, it)], pending, w)
    requires n in cal && it < |cal[n]| && cal[n][it] == Some(x)
    ensures x in dfs && x in low && n in low && x in cal && k.f0.Has(n, k.c)
    ensures x !in g.of ==> k.Loose(g, x)
    ensures x in g.of && g.of[x] != k.c ==>
              x in k.SettledIn(g) && g.of[x] in g.parents && (x in Below(k.f0, k.c) ==> k.f0.of[x] == g.of[x])
  {
    hide Splitting, SplitStart, Exploring, Settled, ScanErased, Below;
    ExploringKeys(cal, k.e, k.SettledIn(g), stack + [Frame(n, it)], pending, w);
    TopInPath(cal, k.e, k.SettledIn(g), stack, pending, w, n, it);
    ActiveLoose(k, cal, g, next, dfs, low, stack + [Frame(n, it)], pending, w);
    assert n in w.Active();
    assert Edge(k.e, n, x);
    CalleeCases(k, g, next, n, x);
  }

  lemma PlacedSame(k: Case, nodes: map<SccId, seq<Vertex>>, next: SccId, g: Forest, g': Forest)
    requires Placed(k, nodes, next, g) && g'.of == g.of
    ensures Placed(k, nodes, next, g')
  {
    assert forall d :: g'.Members(d) == g.Members(d);
  }

  lemma OnlyMember(k: Case, m: Numbers, x: Vertex, d: int)
    requires k.f0.Has(x, k.c)
    ensures OnlyMembers(k, m, m[x := d])
  {
  }

  lemma SameNumbersOnly(k: Case, m: Numbers)
    ensures OnlyMembers(k, m, m)
  {
  }

  function Ids(s: seq<SccId>): set<SccId> {
    set d | d in s
  }

  lemma IdsAppend(s: seq<SccId>, c: SccId)
    ensures Ids(s + [c]) == Ids(s) + {c} && Ids(s + []) == Ids(s)
  {
    assert s + [] == s;
  }

  lemma IdsWithout(s: seq<SccId>, c: SccId)
    ensures Ids(Without(s, c)) == Ids(s) - {c}
  {
  }

  /** The numbers of the components formed in between, in the order they were formed. */
  function InOrder(from: SccId, to: SccId): (r: seq<SccId>)
    requires from <= to
    ensures |r| == to - from && forall i :: 0 <= i < |r| ==> r[i] == from + i
  {
    seq(to - from, i requires 0 <= i < to - from => from + i)
  }

  lemma InOrderNone(from: SccId)
    ensures InOrder(from, from) == []
  {
  }

  lemma InOrderNext(from: SccId, to: SccId)
    requires from <= to
    ensures InOrder(from, to) + [to] == InOrder(from, to + 1)
  {
  }

  lemma InOrderThen(from: SccId, mid: SccId, to: SccId)
    requires from <= mid <= to
    ensures InOrder(from, mid) + InOrder(mid, to) == InOrder(from, to)
  {
  }

  lemma PopFrame(stack: seq<Frame>)
    requires |stack| > 0
    ensures stack[..|stack| - 1] + [Frame(stack[|stack| - 1].node, stack[|stack| - 1].it)] == stack
  {
  }

  lemma InnerPlace(k: Case, cal: CalleeLists, g: Forest, next: SccId, dfs: Numbers, low: Numbers,
                   stack: seq<Frame>, pending: seq<Vertex>, w: Walk, n: Vertex, it: nat)
    requires Inner(k, cal, g, next, dfs, low, stack + [Frame(n, it)], pending, w)
    ensures n in cal && it <= |cal[n]| && n in w.Active() && n in dfs && n in low && k.f0.Has(n, k.c)
    ensures dfs[n] == w.D(n) && low[n] == w.L(n)
  {
    hide Splitting, SplitStart, Exploring, Settled, ScanErased, Below;
    ExploringKeys(cal, k.e, k.SettledIn(g), stack + [Frame(n, it)], pending, w);
    TopInPath(cal, k.e, k.SettledIn(g), stack, pending, w, n, it);
    assert n in w.Active();
  }

  lemma HasElement(s: seq<Vertex>)
    ensures s != [] ==> exists x :: x in s
  {
    if s != [] { assert s[0] in s; }
  }

  lemma InnerEmpty(k: Case, cal: CalleeLists, g: Forest, next: SccId, dfs: Numbers, low: Numbers,
                   pending: seq<Vertex>, w: Walk)
    requires Inner(k, cal, g, next, dfs, low, [], pending, w)
    ensures w.Active() == {} && pending == []
  {
    hide Splitting, SplitStart, Settled, ScanErased, Below, NumbersAgree;
    NothingActive(cal, k.e, k.SettledIn(g), pending, w);
    PendingActive(cal, k.e, k.SettledIn(g), [], pending, w);
    HasElement(pending);
  }

  /** The numbers after the nodes s have been taken out of their component. */
  ghost function Zeroed(m: Numbers, s: set<Vertex>): Numbers {
    Assigned(m, s, 0)
  }

  /** What the caller of removeIntraSCCEdge sees: c keeps exactly the members that reach v, every
      other member is in one of `sccs`, each of those is a strongly connected component, and calls
      among the members that left lead into the same or an earlier one. */
  ghost predicate IsSplit(e: Edges, members: seq<Vertex>, c: SccId, v: Vertex, nodes: map<SccId, seq<Vertex>>,
                          sccs: seq<SccId>) {
    && c in nodes && c !in sccs && (forall i, j :: 0 <= i < j < |sccs| ==> sccs[i] != sccs[j])
    && (forall x :: x in nodes[c] <==> x in members && Reach(e, x, v))
    && IsScc(e, Elements(nodes[c]))
    && (forall x {:trigger InSome(nodes, sccs, x)} :: InSome(nodes, sccs, x) <==> x in members && !Reach(e, x, v))
    && (forall i :: 0 <= i < |sccs| ==> sccs[i] in nodes && IsScc(e, Elements(nodes[sccs[i]])))
    && (forall i, x, y :: 0 <= i < |sccs| && InGroup(nodes, sccs[i], x) && Edge(e, x, y) && y in members ==>
          InSome(nodes, sccs[..i + 1], y))
  }

  lemma CaseStart(e0: Edges, e: Edges, f0: Forest, nodes: map<SccId, seq<Vertex>>, nextSCC: SccId, nextRank: int,
                  c: SccId, u: Vertex, v: Vertex) returns (k: Case)
    requires f0.Valid(e0) && Tabled(f0, nodes, nextSCC, nextRank) && Drops(e0, e, u, v) && Edge(e0, u, v)
    requires f0.Has(u, c) && f0.Has(v, c) && u != v
    ensures k == Case(e0, e, f0, c, u, v, nextSCC) && k.Start() && c in nodes && c in f0.parents
    ensures v in nodes[c] && Elements(nodes[c]) == f0.Members(c)
  {
    k := Case(e0, e, f0, c, u, v, nextSCC);
    assert v in f0.Members(c);
  }

  lemma ApartNumbers(k: Case, cal: CalleeLists, g: Forest, dfs: Numbers, low: Numbers, w: Walk, s: set<Vertex>)
    requires k.Start() && s == k.f0.Members(k.c) && g.of == k.f0.of - s + map[k.v := k.c]
    requires k.f0.of.Keys <= cal.Keys && w.dfs.Keys == w.low.Keys == cal.Keys
    requires (forall x :: x in k.f0.of ==> w.D(x) == w.L(x) == -1) && k.v in s && k.SettledIn(g) <= cal.Keys
    requires dfs == Zeroed(w.dfs, s)[k.v := -1] && low == Zeroed(w.low, s)[k.v := -1]
    ensures NumbersAgree(k, g, dfs, low, FreshWalk(cal, k.SettledIn(g)))
    ensures OnlyMembers(k, w.dfs, dfs) && OnlyMembers(k, w.low, low)
  {
    hide SplitStart, FreshWalk, Settled, Zeroed;
    FreshAt(cal, k.SettledIn(g));
    ZeroedAt(w.dfs, s);
    ZeroedAt(w.low, s);
    assert forall x :: x in s ==> x in k.f0.of && k.f0.of[x] == k.c;
    var w' := FreshWalk(cal, k.SettledIn(g));
    forall x | k.Loose(g, x)
      ensures At(dfs, x) == w'.D(x)
    {
      LooseUnsettled(k, g, x);
      assert x in s && x != k.v;
    }
  }

  lemma ZeroedAt(m: Numbers, s: set<Vertex>)
    ensures forall y :: At(Zeroed(m, s), y) == if y in s then 0 else At(m, y)
    ensures Zeroed(m, s).Keys == m.Keys + s
  {
  }

  lemma ApartPlaced(k: Case, nodes: map<SccId, seq<Vertex>>, nodes': map<SccId, seq<Vertex>>, nextRank: int, g: Forest)
    requires k.Start() && Tabled(k.f0, nodes, k.base, nextRank) && nodes' == nodes[k.c := [k.v]]
    requires g.of == k.f0.of - k.f0.Members(k.c) + map[k.v := k.c]
    ensures Placed(k, nodes', k.base, g) && k.c in nodes'
  {
    hide Forest.Valid;
    assert NewIds(k.base, k.base) == {};
    assert g.Members(k.c) == {k.v};
    assert Elements([k.v]) == {k.v};
    forall d | d in nodes && d != k.c
      ensures g.Members(d) == k.f0.Members(d)
    {
    }
  }

  /** The component has been dissolved, except for the callee. */
  lemma Apart(k: Case, cal: CalleeLists, stack: seq<Frame>, pending: seq<Vertex>, w: Walk, nodes: map<SccId,
              seq<Vertex>>,
              nodes': map<SccId, seq<Vertex>>, nextRank: int, g: Forest, dfs: Numbers, low: Numbers, s: set<Vertex>)
    returns (w': Walk)
    requires k.Start() && s == k.f0.Members(k.c) && g == k.f0.(of := k.f0.of - s + map[k.v := k.c])
    requires Exploring(cal, k.e, k.f0.of.Keys, stack, pending, w)
    requires dfs == Zeroed(w.dfs, s)[k.v := -1] && low == Zeroed(w.low, s)[k.v := -1]
    requires Tabled(k.f0, nodes, k.base, nextRank) && nodes' == nodes[k.c := [k.v]]
    ensures Inner(k, cal, g, k.base, dfs, low, [], [], w') && Placed(k, nodes', k.base, g) && k.c in nodes'
    ensures OnlyMembers(k, w.dfs, dfs) && OnlyMembers(k, w.low, low)
  {
    hide SplitStart, Splitting, Tabled, Placed, Exploring, Zeroed, OnlyMembers, NumbersAgree, Settled;
    ExploringKeys(cal, k.e, k.f0.of.Keys, stack, pending, w);
    FormedNumbers(cal, k.e, k.f0.of.Keys, stack, pending, w);
    SplitInit(k.e0, k.e, k.f0, k.c, k.u, k.v, k.base, g);
    ApartPlaced(k, nodes, nodes', nextRank, g);
    CaseFacts(k, g, k.base);
    w' := FreshWalk(cal, k.SettledIn(g));
    StartHas(k);
    forall x | x in k.SettledIn(g)
      ensures x in cal
    {
      assert x in g.of && x in k.f0.of.Keys;
    }
    ApartNumbers(k, cal, g, dfs, low, w, s);
    FreshExploring(cal, k.e, k.SettledIn(g));
  }

  lemma StartHas(k: Case)
    requires k.Start()
    ensures k.v in k.f0.of && k.v in k.f0.Members(k.c)
  {
  }

  lemma FormedNumbers(cal: CalleeLists, e: Edges, formed: set<Vertex>, stack: seq<Frame>, pending: seq<Vertex>, w: Walk)
    requires Exploring(cal, e, formed, stack, pending, w)
    ensures forall x :: x in formed ==> w.D(x) == w.L(x) == -1
  {
  }

  lemma Restored(k: Case, g: Forest, dfs: Numbers, low: Numbers, w: Walk, m: Numbers, l: Numbers)
    requires NumbersAgree(k, g, dfs, low, w) && (forall x :: x in k.f0.of ==> x in g.of)
    requires OnlyMembers(k, m, dfs) && OnlyMembers(k, l, low) && m.Keys == w.dfs.Keys == l.Keys
    requires forall x :: x in k.f0.of ==> At(m, x) == At(l, x) == -1
    ensures dfs == m && low == l
  {
    forall x | x in dfs
      ensures At(dfs, x) == At(m, x) && At(low, x) == At(l, x)
    {
      if k.f0.Has(x, k.c) { assert x in g.of; }
    }
    assert forall x :: x in dfs ==> dfs[x] == m[x] && low[x] == l[x];
  }

  /** The walk that was suspended before finds its numbers as it left them. */
  lemma Undisturbed(k: Case, cal: CalleeLists, stack: seq<Frame>, pending: seq<Vertex>, w0: Walk, g: Forest,
                    next: SccId,
                    dfs: Numbers, low: Numbers, w: Walk)
    requires Exploring(cal, k.e, k.f0.of.Keys, stack, pending, w0) && Inner(k, cal, g, next, dfs, low, [], [], w)
    requires g.of.Keys == k.f0.of.Keys && OnlyMembers(k, w0.dfs, dfs) && OnlyMembers(k, w0.low, low)
    ensures dfs == w0.dfs && low == w0.low
  {
    hide Exploring, OnlyMembers, NumbersAgree, ScanErased, Splitting, SplitStart;
    ExploringKeys(cal, k.e, k.f0.of.Keys, stack, pending, w0);
    FormedNumbers(cal, k.e, k.f0.of.Keys, stack, pending, w0);
    ExploringKeys(cal, k.e, k.SettledIn(g), [], [], w);
    Restored(k, g, dfs, low, w, w0.dfs, w0.low);
  }

  lemma UpdateIsUnion<A, B>(m: map<A, B>, a: A, b: B)
    ensures m[a := b] == m + map[a := b]
  {
  }

  lemma UpdateTwice<A, B>(m: map<A, B>, a: A, b: B, b': B)
    ensures m[a := b][a := b'] == m[a := b']
  {
  }

  lemma SplitTabled(k: Case, nodes: map<SccId, seq<Vertex>>, nodes': map<SccId, seq<Vertex>>, next: SccId,
                    nextRank: int,
                    g: Forest, g1: Forest, kids: set<SccId>)
    requires k.Start() && Tabled(k.f0, nodes, k.base, nextRank) && Placed(k, nodes', next, g)
    requires k.Inv(next, g) && SplitFinal(k.e, k.f0, k.c, k.base, next, g, g1, kids)
    ensures Tabled(g1, nodes', next, nextRank + (next - k.base))
  {
    hide SplitStart, Splitting, Distinct, Elements, FinalRank, Forest.Members, Forest.Parents, Forest.Rank;
    SameOfMembers(g, g1);
    LeavesBelow(k, next, g);
    RanksBelow(k.f0, k.c, k.base, next, nodes, nextRank);
    KeysTabled(k.f0, nodes, k.base, nextRank);
    RankOf(g1, FinalRank(k.f0, k.c, k.base, next));
  }

  lemma RankOf(g: Forest, r: map<SccId, int>)
    requires g.rank == r
    ensures forall d :: d in r ==> g.Rank(d) == r[d]
  {
  }

  lemma SameOfMembers(f: Forest, g: Forest)
    requires g.of == f.of
    ensures forall d :: g.Members(d) == f.Members(d)
  {
  }

  lemma LeavesBelow(k: Case, next: SccId, g: Forest)
    requires k.Inv(next, g) && k.Start()
    ensures k.base <= next && (forall d :: d in g.leaves ==> d < next) && k.c in k.f0.rank
  {
  }

  lemma RanksBelow(f: Forest, c: SccId, base: SccId, next: SccId, nodes: map<SccId, seq<Vertex>>, nextRank: int)
    requires Tabled(f, nodes, base, nextRank) && c in f.rank && base <= next
    ensures var r := FinalRank(f, c, base, next);
            r.Keys == f.rank.Keys + NewIds(base, next)
              && forall d :: d in r ==> d < next && r[d] < nextRank + (next - base)
  {
    assert forall d :: d in f.rank ==> d in nodes && f.Rank(d) < nextRank && d < base;
  }

  lemma SplitOrder(k: Case, next: SccId, g: Forest, g1: Forest, kids: set<SccId>, x: Vertex, y: Vertex, a: SccId)
    requires SplitDone(k.e0, k.e, k.f0, k.c, k.u, k.v, k.base, next, g, g1, kids)
    requires g1.Has(x, a) && k.base <= a < next && Edge(k.e, x, y) && k.f0.Has(y, k.c)
    ensures y in g1.of && k.base <= g1.of[y] <= a
  {
    hide Forest.Valid, SplitTables, Erased, SplitForest;
    assert g.Has(x, a) && g.Has(y, g.of[y]);
    FinalEdge(k.e0, k.e, k.f0, k.c, k.u, k.v, k.base, next, g, x, y, a, g.of[y]);
    FinalHas(k.e0, k.e, k.f0, k.c, k.u, k.v, k.base, next, g, y, g.of[y]);
  }

  lemma SplitMembers(k: Case, members: seq<Vertex>, nodes': map<SccId, seq<Vertex>>, next: SccId,
                     g: Forest, g1: Forest, kids: set<SccId>)
    requires SplitDone(k.e0, k.e, k.f0, k.c, k.u, k.v, k.base, next, g, g1, kids)
    requires Placed(k, nodes', next, g) && Elements(members) == k.f0.Members(k.c)
    ensures forall d, x :: InGroup(nodes', d, x) ==> g1.Has(x, d)
    ensures forall d, x :: d in nodes' && g1.Has(x, d) ==> InGroup(nodes', d, x)
    ensures forall x :: x in members <==> k.f0.Has(x, k.c)
    ensures forall x :: x in members ==> x in g1.of && (g1.of[x] == k.c || k.base <= g1.of[x] < next)
    ensures forall d, x :: k.base <= d < next && InGroup(nodes', d, x) ==> x in members
    ensures nodes'.Keys == g1.rank.Keys && forall d :: k.base <= d < next ==> d in nodes'
    ensures k.c in nodes' && k.c < k.base <= next
  {
    hide Forest.Valid, SplitTables, Erased, SplitForest;
    forall d, x
      ensures InGroup(nodes', d, x) <==> d in nodes' && g1.Has(x, d)
    {
      if d in nodes' {
        assert x in nodes'[d] <==> x in Elements(nodes'[d]);
        assert g1.Has(x, d) <==> x in g.Members(d);
      }
    }
    forall x
      ensures x in members <==> k.f0.Has(x, k.c)
    {
      assert x in members <==> x in Elements(members);
    }
    forall d, x | k.base <= d < next && InGroup(nodes', d, x)
      ensures x in members
    {
      assert g.Has(x, d);
      FinalHas(k.e0, k.e, k.f0, k.c, k.u, k.v, k.base, next, g, x, d);
    }
  }

  /** What SplitMembers says, in short. */
  ghost predicate Regrouped(k: Case, members: seq<Vertex>, nodes: map<SccId, seq<Vertex>>, next: SccId, f: Forest) {
    && (forall d, x :: InGroup(nodes, d, x) ==> f.Has(x, d))
    && (forall d, x :: d in nodes && f.Has(x, d) ==> InGroup(nodes, d, x))
    && (forall x :: x in members ==> x in f.of && (f.of[x] == k.c || k.base <= f.of[x] < next))
    && (forall d, x :: k.base <= d < next && InGroup(nodes, d, x) ==> x in members)
    && nodes.Keys == f.rank.Keys && (forall d :: k.base <= d < next ==> d in nodes)
    && k.c in nodes && k.c < k.base <= next
  }

  lemma RegroupedSccs(k: Case, members: seq<Vertex>, nodes: map<SccId, seq<Vertex>>, next: SccId, f: Forest, d: SccId)
    requires Regrouped(k, members, nodes, next, f) && f.Valid(k.e) && d in nodes
    ensures IsScc(k.e, Elements(nodes[d]))
  {
    hide IsScc, Forest.Valid;
    GroupsAreSccs(k.e, f, d);
    forall x
      ensures x in Elements(nodes[d]) <==> x in f.Members(d)
    {
      assert x in nodes[d] <==> InGroup(nodes, d, x);
      assert f.Has(x, d) <==> x in f.Members(d);
    }
    assert Elements(nodes[d]) == f.Members(d);
  }

  lemma RegroupedPlaces(k: Case, members: seq<Vertex>, nodes: map<SccId, seq<Vertex>>, next: SccId, f: Forest,
                        x: Vertex)
    requires Regrouped(k, members, nodes, next, f) && (f.Has(x, k.c) <==> x in members && Reach(k.e, x, k.v))
    ensures x in nodes[k.c] <==> x in members && Reach(k.e, x, k.v)
    ensures InSome(nodes, InOrder(k.base, next), x) <==> x in members && !Reach(k.e, x, k.v)
  {
    hide Reach;
    var sccs := InOrder(k.base, next);
    assert x in nodes[k.c] <==> InGroup(nodes, k.c, x);
    if x in members && !Reach(k.e, x, k.v) {
      var d := f.of[x];
      assert f.Has(x, d) && sccs[d - k.base] == d && InGroup(nodes, sccs[d - k.base], x);
    }
    if InSome(nodes, sccs, x) {
      var i :| 0 <= i < |sccs| && InGroup(nodes, sccs[i], x);
      assert f.Has(x, sccs[i]);
    }
  }

  lemma RegroupedEdges(k: Case, members: seq<Vertex>, nodes: map<SccId, seq<Vertex>>, next: SccId, f: Forest,
                       i: nat, x: Vertex, y: Vertex)
    requires Regrouped(k, members, nodes, next, f) && i < next - k.base && y in f.of && k.base <= f.of[y] <= k.base + i
    ensures InSome(nodes, InOrder(k.base, next)[..i + 1], y)
  {
    var sccs := InOrder(k.base, next);
    var j := f.of[y] - k.base;
    assert f.Has(y, f.of[y]);
    assert sccs[..i + 1][j] == f.of[y] && InGroup(nodes, sccs[..i + 1][j], y);
  }

  lemma SplitRegrouped(k: Case, members: seq<Vertex>, nodes': map<SccId, seq<Vertex>>, next: SccId,
                       g: Forest, g1: Forest, kids: set<SccId>)
    requires SplitDone(k.e0, k.e, k.f0, k.c, k.u, k.v, k.base, next, g, g1, kids)
    requires Placed(k, nodes', next, g) && Elements(members) == k.f0.Members(k.c)
    ensures Regrouped(k, members, nodes', next, g1)
    ensures forall x :: x in members <==> k.f0.Has(x, k.c)
  {
    SplitMembers(k, members, nodes', next, g, g1, kids);
  }

  lemma RegroupedFacts(k: Case, members: seq<Vertex>, nodes: map<SccId, seq<Vertex>>, next: SccId, f: Forest)
    requires Regrouped(k, members, nodes, next, f)
    ensures k.c in nodes && k.c < k.base <= next && (forall d :: k.base <= d < next ==> d in nodes)
    ensures forall d, x :: InGroup(nodes, d, x) ==> f.Has(x, d)
  {
  }

  lemma SplitListed(k: Case, members: seq<Vertex>, nodes': map<SccId, seq<Vertex>>, next: SccId,
                    g: Forest, g1: Forest, kids: set<SccId>)
    requires SplitDone(k.e0, k.e, k.f0, k.c, k.u, k.v, k.base, next, g, g1, kids) && g1.Valid(k.e)
    requires forall x :: g1.Has(x, k.c) <==> k.f0.Has(x, k.c) && Reach(k.e, x, k.v)
    requires Placed(k, nodes', next, g) && Elements(members) == k.f0.Members(k.c)
    ensures k.base <= next && IsSplit(k.e, members, k.c, k.v, nodes', InOrder(k.base, next))
  {
    hide SplitDone, Placed, IsScc, Reach, Forest.Valid, Elements, InSome, Regrouped, InGroup;
    SplitRegrouped(k, members, nodes', next, g, g1, kids);
    var sccs := InOrder(k.base, next);
    RegroupedFacts(k, members, nodes', next, g1);
    forall d | d in nodes'
      ensures IsScc(k.e, Elements(nodes'[d]))
    {
      RegroupedSccs(k, members, nodes', next, g1, d);
    }
    forall x
      ensures x in nodes'[k.c] <==> x in members && Reach(k.e, x, k.v)
      ensures InSome(nodes', sccs, x) <==> x in members && !Reach(k.e, x, k.v)
    {
      RegroupedPlaces(k, members, nodes', next, g1, x);
    }
    forall i, x, y | 0 <= i < |sccs| && InGroup(nodes', sccs[i], x) && Edge(k.e, x, y) && y in members
      ensures InSome(nodes', sccs[..i + 1], y)
    {
      SplitOrder(k, next, g, g1, kids, x, y, sccs[i]);
      RegroupedEdges(k, members, nodes', next, g1, i, x, y);
    }
  }

  /** The other components keep their members. */
  lemma OthersListed(k: Case, nodes: map<SccId, seq<Vertex>>, nodes': map<SccId, seq<Vertex>>, next: SccId,
                     nextRank: int, g: Forest, d: SccId)
    requires k.Start() && Tabled(k.f0, nodes, k.base, nextRank) && Placed(k, nodes', next, g) && k.Inv(next, g)
    requires (forall x :: x in k.f0.of ==> x in g.of) && d in nodes && d != k.c
    ensures d in nodes' && Elements(nodes'[d]) == Elements(nodes[d])
  {
    hide SplitStart, Splitting;
    OldGroups(k.e0, k.e, k.f0, k.c, k.u, k.v, k.base, next, g, d);
    assert g.Members(d) == k.f0.Members(d) by { SameMembers(g, k.f0, d); }
  }

  lemma SameMembers(f: Forest, g: Forest, d: SccId)
    requires forall x :: f.Has(x, d) <==> g.Has(x, d)
    ensures f.Members(d) == g.Members(d)
  {
    forall x
      ensures x in f.Members(d) <==> x in g.Members(d)
    {
      assert f.Has(x, d) <==> g.Has(x, d);
    }
  }

  function Without(s: seq<SccId>, c: SccId): (r: seq<SccId>)
    ensures forall d :: d in r <==> d in s && d != c
  {
    if s == [] then [] else (if s[0] == c then [] else [s[0]]) + Without(s[1..], c)
  }

  lemma ZeroedAdd(m: Numbers, s: set<Vertex>, x: Vertex)
    ensures Zeroed(m, s)[x := 0] == Zeroed(m, s + {x})
  {
  }

  /** What has no component after the worklist is done: nothing. */
  lemma NothingLoose(k: Case, g: Forest, next: SccId, members: seq<Vertex>)
    requires k.Start() && k.Inv(next, g) && Elements(members) == k.f0.Members(k.c)
    requires forall x :: x in members ==> x in g.of
    ensures forall x :: x in k.f0.of ==> x in g.of
    ensures g.of.Keys == k.f0.of.Keys
  {
    hide Forest.Valid, SplitTables, SplitForest, Erased;
    forall x | x in k.f0.of
      ensures x in g.of
    {
      if k.f0.of[x] == k.c { assert x in Elements(members); } else { assert g.Has(x, k.f0.of[x]); }
    }
    forall x | x in g.of
      ensures x in k.f0.of
    {
    }
    assert forall x :: x in g.of.Keys <==> x in k.f0.of.Keys;
  }

  /** The members left in c, with callees that all have components. */
  lemma ReadyToConnect(k: Case, cal: CalleeLists, nodes: map<SccId, seq<Vertex>>, next: SccId, g: Forest)
    requires k.Start() && k.Inv(next, g) && Placed(k, nodes, next, g) && k.c in nodes && Lists(cal, k.e)
    requires g.of.Keys == k.f0.of.Keys
    ensures forall x :: x in nodes[k.c] ==> x in g.of
    ensures forall x, y :: x in nodes[k.c] && Edge(k.e, x, y) ==> y in g.of && g.of[y] in g.parents
  {
    hide Splitting, Lists;
    CaseFacts(k, g, next);
    forall x | x in nodes[k.c]
      ensures x in g.of
      ensures forall y :: Edge(k.e, x, y) ==> y in g.of && g.of[y] in g.parents
    {
      assert x in Elements(nodes[k.c]) && x in g.Members(k.c);
      forall y | Edge(k.e, x, y)
        ensures y in g.of
      {
        assert Edge(k.e0, x, y);
      }
    }
  }

  lemma KidsCalled(e: Edges, f: Forest, c: SccId, ns: seq<Vertex>, kids: set<SccId>)
    requires KidsOf(e, f.of, ns, c, kids) && Elements(ns) == f.Members(c)
    ensures forall d :: d in kids <==> d != c && f.Calls(e, c, d)
  {
    forall d
      ensures CallsGroup(e, f.of, ns, d) <==> f.Calls(e, c, d)
    {
      if CallsGroup(e, f.of, ns, d) {
        var x, y :| x in ns && Edge(e, x, y) && y in f.of && f.of[y] == d;
        assert x in Elements(ns) && f.Has(x, c) && f.Has(y, d);
      }
      if f.Calls(e, c, d) {
        var x, y :| f.Has(x, c) && f.Has(y, d) && Edge(e, x, y);
        assert x in f.Members(c) && x in Elements(ns);
      }
    }
  }

  /** Connecting c again completes the split. */
  lemma Connected(k: Case, nodes: map<SccId, seq<Vertex>>, next: SccId, g: Forest, g1: Forest, kids: set<SccId>)
    requires k.Start() && k.Inv(next, g) && Placed(k, nodes, next, g) && k.c in nodes && g.of.Keys == k.f0.of.Keys
    requires KidsOf(k.e, g.of, nodes[k.c], k.c, kids)
    requires g1.of == g.of && g1.parents.Keys == g.parents.Keys
    requires forall d :: d in g.parents ==> g1.parents[d] == g.parents[d] + (if d in kids then {k.c} else {})
    requires g1.leaves == (if kids != {} && k.base < next then g.leaves - {k.c} else g.leaves)
    requires g1.rank == FinalRank(k.f0, k.c, k.base, next)
    ensures SplitDone(k.e0, k.e, k.f0, k.c, k.u, k.v, k.base, next, g, g1, kids)
  {
    hide Splitting, SplitStart, KidsOf, FinalRank, Placed, Settled, Forest.Members, Elements, Distinct;
    CaseFacts(k, g, next);
    PlacedAt(k, nodes, next, g, k.c);
    KidsCalled(k.e, g, k.c, nodes[k.c], kids);
    KidsHaveParents(k.e, g, k.c, kids);
    Finished(k.e, k.f0, k.c, k.base, next, g, g1, kids);
  }

  lemma Finished(e: Edges, f0: Forest, c: SccId, base: SccId, next: SccId, g: Forest, g1: Forest, kids: set<SccId>)
    requires g.of.Keys == f0.of.Keys && g1.of == g.of && g1.parents.Keys == g.parents.Keys && kids <= g.parents.Keys
    requires forall d :: d in g.parents ==> g1.parents[d] == g.parents[d] + (if d in kids then {c} else {})
    requires forall d :: d in kids <==> d != c && g.Calls(e, c, d)
    requires g1.leaves == (if kids != {} && base < next then g.leaves - {c} else g.leaves)
    requires g1.rank == FinalRank(f0, c, base, next)
    ensures SplitFinal(e, f0, c, base, next, g, g1, kids)
  {
    hide FinalRank, Forest.Calls;
  }

  lemma KidsHaveParents(e: Edges, g: Forest, c: SccId, kids: set<SccId>)
    requires forall d :: d in kids ==> g.Calls(e, c, d)
    requires forall y :: y in g.of ==> g.of[y] in g.parents
    ensures kids <= g.parents.Keys
  {
    forall d | d in kids
      ensures d in g.parents
    {
      var x, y :| g.Has(x, c) && g.Has(y, d) && Edge(e, x, y);
    }
  }

  /** A member is in a component exactly if it has a number. */
  lemma MemberLoose(k: Case, cal: CalleeLists, g: Forest, next: SccId, dfs: Numbers, low: Numbers, w: Walk,
                    members: seq<Vertex>, n: Vertex)
    requires Inner(k, cal, g, next, dfs, low, [], [], w) && Elements(members) == k.f0.Members(k.c) && n in members
    requires k.f0.of.Keys <= cal.Keys
    ensures n in dfs && (if dfs[n] == 0 then k.Loose(g, n) else n in g.of)
  {
    hide Splitting, SplitStart, Exploring, ScanErased, Settled;
    assert n in k.f0.Members(k.c) by { assert n in Elements(members); }
    InnerEmpty(k, cal, g, next, dfs, low, [], w);
    LooseUnnumbered(k, cal, g, next, dfs, low, [], [], w);
    ExploringKeys(cal, k.e, k.SettledIn(g), [], [], w);
    assert k.f0.Has(n, k.c) && n in cal;
    if n !in g.of {
      assert k.Loose(g, n) && n !in w.Active();
    } else {
      assert At(dfs, n) == -1;
    }
  }

  /** Everything the caller is told about the split. */
  lemma SplitEnds(k: Case, members: seq<Vertex>, nodes: map<SccId, seq<Vertex>>, nodes': map<SccId, seq<Vertex>>,
                  next: SccId, nextRank: int, g: Forest, g1: Forest, kids: set<SccId>)
    requires SplitDone(k.e0, k.e, k.f0, k.c, k.u, k.v, k.base, next, g, g1, kids) && k.base <= next
    requires Tabled(k.f0, nodes, k.base, nextRank) && Placed(k, nodes', next, g)
             && Elements(members) == k.f0.Members(k.c)
    ensures g1.Valid(k.e) && Tabled(g1, nodes', next, nextRank + (next - k.base))
    ensures IsSplit(k.e, members, k.c, k.v, nodes', InOrder(k.base, next))
    ensures nodes'.Keys == nodes.Keys + Ids(InOrder(k.base, next))
    ensures forall d :: d in nodes && d != k.c ==> d in nodes' && Elements(nodes'[d]) == Elements(nodes[d])
    ensures k.f0.ParentsExact(k.e0) ==> (g1.ParentsExact(k.e) <==> CallersKept(k.e, k.f0, k.c, k.v))
    ensures k.f0.LeavesExact(k.e0) ==> g1.LeavesExact(k.e)
  {
    hide Splitting, SplitStart, SplitFinal, Forest.Valid, Tabled, IsSplit, Forest.ParentsExact, Forest.LeavesExact,
         CallersKept;
    SplitResult(k.e0, k.e, k.f0, k.c, k.u, k.v, k.base, next, g, g1, kids);
    SplitListed(k, members, nodes', next, g, g1, kids);
    SplitTabled(k, nodes, nodes', next, nextRank, g, g1, kids);
    AllPlaced(k, next, g, g1, kids);
    forall d | d in nodes && d != k.c
      ensures d in nodes' && Elements(nodes'[d]) == Elements(nodes[d])
    {
      OthersListed(k, nodes, nodes', next, nextRank, g, d);
    }
    KeysTabled(k.f0, nodes, k.base, nextRank);
    assert NewIds(k.base, next) == Ids(InOrder(k.base, next)) by { NewIdsListed(k.base, next); }
  }

  lemma NewIdsListed(base: SccId, next: SccId)
    requires base <= next
    ensures NewIds(base, next) == Ids(InOrder(base, next))
  {
    forall d: SccId
      ensures d in NewIds(base, next) <==> d in InOrder(base, next)
    {
      if base <= d < next { assert InOrder(base, next)[d - base] == d; }
    }
  }

  lemma AllPlaced(k: Case, next: SccId, g: Forest, g1: Forest, kids: set<SccId>)
    requires SplitDone(k.e0, k.e, k.f0, k.c, k.u, k.v, k.base, next, g, g1, kids)
    ensures forall x :: x in k.f0.of ==> x in g.of
  {
  }

  lemma InOld(f: Forest, x: Vertex, y: Vertex, c: SccId)
    requires x in f.of && y in f.of && f.of[x] == c == f.of[y]
    ensures f.Has(x, c) && f.Has(y, c)
  {
  }

  // ---------------------------------------------------------------- a new graph

  /** The edges that the slots list. */
  ghost function ListedEdges(cal: CalleeLists): (e: Edges)
    ensures forall u: Vertex, v: Vertex :: Edge(e, u, v) <==> u in cal && v in cal && Some(v) in cal[u]
  {
    set u, v | u in cal && v in cal && Some(v) in cal[u] :: (u, v)
  }

  ghost function AllZero(cal: CalleeLists): Numbers {
    Assigned(map[], cal.Keys, 0)
  }

  lemma NothingExplored(cal: CalleeLists, w: Walk)
    requires forall u, k :: u in cal && 0 <= k < |cal[u]| && cal[u][k].Some? ==> cal[u][k].value in cal
    requires w == Walk({}, {}, {}, AllZero(cal), AllZero(cal), 0)
    ensures Exploring(cal, ListedEdges(cal), {}, [], [], w) && w.Active() == {}
  {
    var e := ListedEdges(cal);
    assert forall u, k :: u in cal && 0 <= k < |cal[u]| && cal[u][k].Some? ==> Some(cal[u][k].value) in cal[u];
  }

  lemma NothingFormed(e: Edges)
    ensures var f := Forest(map[], map[], {}, map[]);
            f.Valid(e) && f.ParentsExact(e) && f.LeavesExact(e) && Tabled(f, map[], 0, 0)
  {
  }

  // ---------------------------------------------------------------- connecting a component to those it calls

  lemma MovedOver(all: set<SccId>, rest: set<SccId>, p: SccId)
    requires rest <= all && p in rest
    ensures all - (rest - {p}) == (all - rest) + {p} && |rest - {p}| == |rest| - 1
  {
  }

  /** The components in `kids` have gained c as a parent. */
  ghost predicate Gained(ps: map<SccId, set<SccId>>, ps': map<SccId, set<SccId>>, kids: set<SccId>, c: SccId) {
    ps'.Keys == ps.Keys && forall d :: d in ps ==> ps'[d] == ps[d] + (if d in kids then {c} else {})
  }

  lemma GainedNothing(ps: map<SccId, set<SccId>>, c: SccId)
    ensures Gained(ps, ps, {}, c)
  {
  }

  lemma GainedKeys(ps: map<SccId, set<SccId>>, ps': map<SccId, set<SccId>>, kids: set<SccId>, c: SccId)
    requires Gained(ps, ps', kids, c)
    ensures ps'.Keys == ps.Keys
  {
  }

  lemma GainedThen(ps: map<SccId, set<SccId>>, ps1: map<SccId, set<SccId>>, ps2: map<SccId, set<SccId>>,
                   kids: set<SccId>,
                   more: set<SccId>, c: SccId)
    requires Gained(ps, ps1, kids, c) && Gained(ps1, ps2, more, c)
    ensures Gained(ps, ps2, kids + more, c)
  {
  }

  /** A new component has no parents yet, and is a parent of those it calls. */
  lemma NewGained(e: Edges, of: map<Vertex, SccId>, ns: seq<Vertex>, ps: map<SccId, set<SccId>>, ps': map<SccId,
                  set<SccId>>,
                  kids: set<SccId>, c: SccId)
    requires c !in ps && Gained(ps[c := {}], ps', kids, c) && KidsOf(e, of, ns, c, kids)
    ensures ps'.Keys == ps.Keys + {c} && ps'[c] == {}
    ensures forall d :: d in ps ==> ps'[d] == ps[d] + (if d in kids then {c} else {})
  {
    hide CallsGroup;
  }

  /** The components, other than c, that the first i of these functions call. */
  ghost predicate KidsUpTo(e: Edges, of: map<Vertex, SccId>, ns: seq<Vertex>, i: int, c: SccId, kids: set<SccId>) {
    && 0 <= i <= |ns|
    && (forall d :: d in kids ==> d != c && CallsGroup(e, of, ns, d))
    && forall k, v :: 0 <= k < i && Edge(e, ns[k], v) ==> v in of && (of[v] == c || of[v] in kids)
  }

  lemma KidsNone(e: Edges, of: map<Vertex, SccId>, ns: seq<Vertex>, c: SccId)
    ensures KidsUpTo(e, of, ns, 0, c, {})
  {
  }

  lemma KidsNext(e: Edges, of: map<Vertex, SccId>, ns: seq<Vertex>, i: nat, c: SccId, kids: set<SccId>,
                 more: set<SccId>)
    requires i < |ns| && KidsUpTo(e, of, ns, i, c, kids) && KidsUpTo(e, of, [ns[i]], 1, c, more)
    ensures KidsUpTo(e, of, ns, i + 1, c, kids + more)
  {
    forall d | d in more
      ensures d != c && CallsGroup(e, of, ns, d)
    {
      var u, v :| u in [ns[i]] && Edge(e, u, v) && v in of && of[v] == d;
      assert u in ns;
    }
    forall k, v | 0 <= k < i + 1 && Edge(e, ns[k], v)
      ensures v in of && (of[v] == c || of[v] in kids + more)
    {
      if k == i { assert Edge(e, [ns[i]][0], v); }
    }
  }

  lemma KidsAll(e: Edges, of: map<Vertex, SccId>, ns: seq<Vertex>, c: SccId, kids: set<SccId>)
    requires KidsUpTo(e, of, ns, |ns|, c, kids)
    ensures KidsOf(e, of, ns, c, kids)
  {
    forall d | d != c && CallsGroup(e, of, ns, d)
      ensures d in kids
    {
      var u, v :| u in ns && Edge(e, u, v) && v in of && of[v] == d;
      var k :| 0 <= k < |ns| && ns[k] == u;
    }
  }
}
