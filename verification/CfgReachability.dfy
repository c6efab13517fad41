// CFG.cpp: may control get from one block, or instruction, to another?
module CfgReachability {
  import opened Digraph
  import opened ControlFlow
  import opened Options
  import opened Sets

  // ---------------------------------------------------------------- what other analyses provide

  /** For every block in a loop, the blocks of the outermost loop around it, and the exits of that loop. */
  datatype LoopInfo = LoopInfo(outermost: map<Vertex, set<Vertex>>, exits: map<Vertex, seq<Vertex>>)

  /** A path with at least one edge. */
  ghost predicate Onward(g: Graph, u: Vertex, v: Vertex) {
    exists x :: Edge(EdgesOf(g), u, x) && Reach(EdgesOf(g), x, v)
  }

  ghost predicate IsLoopInfo(g: Graph, li: LoopInfo) {
    && (forall b :: b in li.outermost ==> b in li.outermost[b] && b in li.exits && b in g.succ)
    && (forall b, c :: b in li.outermost && c in li.outermost[b] ==>
          c in li.outermost && li.outermost[c] == li.outermost[b] && Onward(g, b, c))
    && (forall b, v ::
         b in li.outermost && v in li.exits[b] ==> exists m :: m in li.outermost[b] && Edge(EdgesOf(g), m, v))
    && (forall b, m, v ::
         b in li.outermost && m in li.outermost[b] && Edge(EdgesOf(g), m, v) && v !in li.outermost[b] ==>
          v in li.exits[b])
  }

  datatype DomInfo = DomInfo(reachable: set<Vertex>, dominates: set<(Vertex, Vertex)>)

  ghost predicate IsDomInfo(g: Graph, dt: DomInfo) {
    && (forall b :: b in dt.reachable <==> b in g.succ && Live(g, b))
    && (forall a, b :: b in dt.reachable ==> ((a, b) in dt.dominates <==> Dominates(g, a, b)))
  }

  ghost predicate Known(g: Graph, dt: Option<DomInfo>, li: Option<LoopInfo>) {
    && WellFormed(g) && (dt.Some? ==> IsDomInfo(g, dt.value)) && (li.Some? ==> IsLoopInfo(g, li.value))
  }

  predicate LoopContainsBoth(li: LoopInfo, a: Vertex, b: Vertex) {
    a in li.outermost && b in li.outermost && li.outermost[a] == li.outermost[b]
  }

  // ---------------------------------------------------------------- the walk

  ghost predicate ReachesFrom(g: Graph, start: seq<Vertex>, x: Vertex) {
    exists w :: w in start && Reach(EdgesOf(g), w, x)
  }

  /** What has been walked is closed up to the worklist, and does not contain the block looked for. */
  ghost predicate Walked(g: Graph, covered: set<Vertex>, work: seq<Vertex>, start: seq<Vertex>, stop: Vertex) {
    && stop !in covered
    && (forall u, v {:trigger Edge(EdgesOf(g), u, v)} ::
         u in covered && Edge(EdgesOf(g), u, v) ==> v in covered || v in work)
    && (forall w :: w in start ==> w in covered || w in work)
    && (forall x :: x in work ==> x in g.succ && ReachesFrom(g, start, x))
  }

  lemma FromStart(g: Graph, start: seq<Vertex>)
    ensures forall x :: x in start ==> ReachesFrom(g, start, x)
  {
    forall x | x in start
      ensures ReachesFrom(g, start, x)
    {
      ReachRefl(EdgesOf(g), x);
    }
  }

  lemma FromOn(g: Graph, start: seq<Vertex>, x: Vertex, y: Vertex)
    requires ReachesFrom(g, start, x) && Reach(EdgesOf(g), x, y)
    ensures ReachesFrom(g, start, y)
  {
    hide Reach;
    var w :| w in start && Reach(EdgesOf(g), w, x);
    ReachTrans(EdgesOf(g), w, x, y);
  }

  /** An empty worklist: nothing leads to the block looked for. */
  lemma WalkedAll(g: Graph, covered: set<Vertex>, start: seq<Vertex>, stop: Vertex)
    requires Walked(g, covered, [], start, stop)
    ensures forall w :: w in start ==> !Reach(EdgesOf(g), w, stop)
  {
    forall w | w in start
      ensures !Reach(EdgesOf(g), w, stop)
    {
      if Reach(EdgesOf(g), w, stop) {
        ClosedReach(EdgesOf(g), covered, w, stop);
      }
    }
  }

  /** A block that is in no loop: go on to its successors. */
  lemma WalkBlock(g: Graph, covered: set<Vertex>, work: seq<Vertex>, start: seq<Vertex>, stop: Vertex)
    requires WellFormed(g) && work != [] && Walked(g, covered, work, start, stop)
    requires work[|work| - 1] != stop && work[|work| - 1] in g.succ
    ensures var b := work[|work| - 1];
            Walked(g, covered + {b}, work[..|work| - 1] + g.succ[b], start, stop)
  {
    hide ReachesFrom, Reach;
    var b := work[|work| - 1];
    var rest := work[..|work| - 1];
    var work' := rest + g.succ[b];
    InRest(work);
    assert b in work;
    forall x | x in work'
      ensures x in g.succ && ReachesFrom(g, start, x)
    {
      if x in g.succ[b] {
        assert Edge(EdgesOf(g), b, x);
        ReachEdge(EdgesOf(g), b, x);
        FromOn(g, start, b, x);
      } else {
        assert x in rest;
      }
    }
  }

  lemma InRest(work: seq<Vertex>)
    requires work != []
    ensures forall x :: x in work <==> x in work[..|work| - 1] || x == work[|work| - 1]
  {
    assert work == work[..|work| - 1] + [work[|work| - 1]];
  }

  /** A block in a loop that does not contain the block looked for: go on to the exits of the loop. */
  lemma WalkLoop(g: Graph, li: LoopInfo, covered: set<Vertex>, work: seq<Vertex>, start: seq<Vertex>, stop: Vertex)
    requires WellFormed(g) && IsLoopInfo(g, li) && work != [] && Walked(g, covered, work, start, stop)
    requires work[|work| - 1] in li.outermost && !LoopContainsBoth(li, work[|work| - 1], stop)
    ensures var b := work[|work| - 1];
            Walked(g, covered + li.outermost[b], work[..|work| - 1] + li.exits[b], start, stop)
  {
    hide ReachesFrom, Reach;
    var b := work[|work| - 1];
    var rest := work[..|work| - 1];
    InRest(work);
    assert b in work;
    assert stop !in li.outermost[b];
    forall x | x in rest + li.exits[b]
      ensures x in g.succ && ReachesFrom(g, start, x)
    {
      if x in li.exits[b] {
        var m :| m in li.outermost[b] && Edge(EdgesOf(g), m, x);
        OnwardReaches(g, b, m);
        ReachEdge(EdgesOf(g), m, x);
        ReachTrans(EdgesOf(g), b, m, x);
        FromOn(g, start, b, x);
      } else {
        assert x in rest;
      }
    }
  }

  lemma OnwardReaches(g: Graph, u: Vertex, v: Vertex)
    requires Onward(g, u, v)
    ensures Reach(EdgesOf(g), u, v)
  {
    hide Reach;
    var x :| Edge(EdgesOf(g), u, x) && Reach(EdgesOf(g), x, v);
    ReachStep(EdgesOf(g), u, x, v);
  }

  /** A block visited before. */
  lemma WalkSkip(g: Graph, covered: set<Vertex>, work: seq<Vertex>, start: seq<Vertex>, stop: Vertex)
    requires work != [] && Walked(g, covered, work, start, stop) && work[|work| - 1] in covered
    ensures Walked(g, covered, work[..|work| - 1], start, stop)
  {
    hide ReachesFrom, Reach;
    InRest(work);
  }

  const BLOCK_LIMIT := 32

  /** Is it known at once that b reaches stop: because it is it, dominates it or is in a loop with it? */
  predicate Decisive(b: Vertex, stop: Vertex, dt: Option<DomInfo>, li: Option<LoopInfo>) {
    || b == stop
    || (dt.Some? && stop in dt.value.reachable && (b, stop) in dt.value.dominates)
    || (li.Some? && LoopContainsBoth(li.value, b, stop))
  }

  /** There are as many blocks as the limit allows to look at, and none of them is decisive. */
  ghost predicate ManyBlocks(g: Graph, start: seq<Vertex>, stop: Vertex, dt: Option<DomInfo>, li: Option<LoopInfo>) {
    exists s: set<Vertex> :: |s| == 32 && AllReached(g, start, s) && forall b :: b in s ==> !Decisive(b, stop, dt, li)
  }

  ghost predicate AllReached(g: Graph, start: seq<Vertex>, s: set<Vertex>) {
    forall b :: b in s ==> b in g.succ && ReachesFrom(g, start, b)
  }

  /** `cut` says that the limit on the number of blocks was hit.  A "no" is always right; a "yes" is, if
      it was not given because of the limit. */
  method IsPotentiallyReachableInner(g: Graph, start: seq<Vertex>, stop: Vertex, dt0: Option<DomInfo>,
                                     li: Option<LoopInfo>)
    returns (r: bool, ghost cut: bool)
    requires Known(g, dt0, li) && start != [] && stop in g.succ && forall w :: w in start ==> w in g.succ
    ensures !r ==> forall w :: w in start ==> !Reach(EdgesOf(g), w, stop)
    ensures r && !cut ==> ReachesFrom(g, start, stop)
    ensures cut ==> r && ManyBlocks(g, start, stop, dt0, li)
  {
    hide Walked, ReachesFrom, Reach, Dominates, IsLoopInfo;
    cut := false;
    var dt := dt0;
    if dt.Some? && stop !in dt.value.reachable {
      dt := None;
    }
    var limit := BLOCK_LIMIT;
    var visited: set<Vertex> := {};
    var work := start;
    ghost var covered: set<Vertex> := {};
    WalkStarts(g, start, stop);
    while work != []
      invariant Walked(g, covered, work, start, stop) && visited <= covered && visited <= g.succ.Keys
      invariant 0 < limit <= BLOCK_LIMIT && !cut && |visited| == BLOCK_LIMIT - limit && AllReached(g, start, visited)
      invariant forall b :: b in visited ==> !Decisive(b, stop, dt0, li)
      decreases |g.succ.Keys - visited|, |work|
    {
      var b := work[|work| - 1];
      TopWalked(g, covered, work, start, stop);
      if b in visited {
        WalkSkip(g, covered, work, start, stop);
        work := work[..|work| - 1];
        continue;
      }
      SubsetSize(g.succ.Keys - (visited + {b}), g.succ.Keys - visited);
      visited := visited + {b};
      if b == stop {
        return true, false;
      }
      if dt.Some? && (b, stop) in dt.value.dominates {
        DominatorReaches(g, b, stop);
        FromOn(g, start, b, stop);
        return true, false;
      }
      if li.Some? && LoopContainsBoth(li.value, b, stop) {
        SameLoop(g, li.value, b, stop);
        FromOn(g, start, b, stop);
        return true, false;
      }
      limit := limit - 1;
      if limit == 0 {
        return true, true;
      }
      if li.Some? && b in li.value.outermost {
        WalkLoop(g, li.value, covered, work, start, stop);
        LoopHas(g, li.value, b);
        covered := covered + li.value.outermost[b];
        work := work[..|work| - 1] + li.value.exits[b];
      } else {
        WalkBlock(g, covered, work, start, stop);
        covered := covered + {b};
        work := work[..|work| - 1] + g.succ[b];
      }
    }
    WalkedAll(g, covered, start, stop);
    r := false;
  }

  lemma WalkStarts(g: Graph, start: seq<Vertex>, stop: Vertex)
    requires forall w :: w in start ==> w in g.succ
    ensures Walked(g, {}, start, start, stop)
  {
    FromStart(g, start);
  }

  lemma TopWalked(g: Graph, covered: set<Vertex>, work: seq<Vertex>, start: seq<Vertex>, stop: Vertex)
    requires work != [] && Walked(g, covered, work, start, stop)
    ensures work[|work| - 1] in g.succ && ReachesFrom(g, start, work[|work| - 1])
  {
    assert work[|work| - 1] in work;
  }

  lemma SameLoop(g: Graph, li: LoopInfo, a: Vertex, b: Vertex)
    requires IsLoopInfo(g, li) && LoopContainsBoth(li, a, b)
    ensures Reach(EdgesOf(g), a, b) && Onward(g, a, b)
  {
    OnwardReaches(g, a, b);
  }

  lemma LoopHas(g: Graph, li: LoopInfo, b: Vertex)
    requires IsLoopInfo(g, li) && b in li.outermost
    ensures b in li.outermost[b] && b in li.exits
  {
  }

  // ---------------------------------------------------------------- blocks and instructions

  /** Between blocks: a "no" means that there is no path. */
  method IsPotentiallyReachableBlock(g: Graph, a: Vertex, b: Vertex, dt: Option<DomInfo>, li: Option<LoopInfo>)
    returns (r: bool, ghost cut: bool)
    requires Known(g, dt, li) && a in g.succ && b in g.succ
    ensures !r ==> !Reach(EdgesOf(g), a, b)
    ensures r && !cut ==> Reach(EdgesOf(g), a, b)
    ensures cut ==> r && ManyBlocks(g, [a], b, dt, li)
  {
    hide Reach, IsLoopInfo, IsDomInfo;
    r, cut := IsPotentiallyReachableInner(g, [a], b, dt, li);
  }

  /** The instruction at a position in a block. */
  datatype Inst = Inst(block: Vertex, at: nat)

  /** Control that is at a gets to b: further down in the block, or along at least one edge. */
  ghost predicate Leads(g: Graph, a: Inst, b: Inst) {
    (a.block == b.block && a.at <= b.at) || Onward(g, a.block, b.block)
  }

  lemma OnwardFromSuccessors(g: Graph, u: Vertex, v: Vertex)
    requires u in g.succ
    ensures Onward(g, u, v) <==> ReachesFrom(g, g.succ[u], v)
  {
    hide Reach;
    if Onward(g, u, v) {
      var x :| Edge(EdgesOf(g), u, x) && Reach(EdgesOf(g), x, v);
      assert x in g.succ[u];
    }
    if ReachesFrom(g, g.succ[u], v) {
      var w :| w in g.succ[u] && Reach(EdgesOf(g), w, v);
      assert Edge(EdgesOf(g), u, w);
    }
  }

  /** Nothing leads to a block without predecessors but from itself. */
  lemma NoWayIn(g: Graph, v: Vertex)
    requires forall u :: !Edge(EdgesOf(g), u, v)
    ensures forall u :: u != v ==> !Reach(EdgesOf(g), u, v)
    ensures !Onward(g, v, v)
  {
    forall u | u != v
      ensures !Reach(EdgesOf(g), u, v)
    {
      if Reach(EdgesOf(g), u, v) {
        var p :| Follows(EdgesOf(g), u, p, v);
        LastEdge(g, u, p, v);
      }
    }
    if Onward(g, v, v) {
      OnwardEnds(g, v, v);
    }
  }

  lemma OnwardEnds(g: Graph, u: Vertex, v: Vertex)
    requires Onward(g, u, v)
    ensures exists x :: Edge(EdgesOf(g), x, v)
  {
    var x :| Edge(EdgesOf(g), u, x) && Reach(EdgesOf(g), x, v);
    if x != v {
      var p :| Follows(EdgesOf(g), x, p, v);
      LastEdge(g, x, p, v);
    }
  }

  lemma {:induction false} LastEdge(g: Graph, u: Vertex, p: Path, v: Vertex)
    requires Follows(EdgesOf(g), u, p, v) && u != v
    ensures exists x :: Edge(EdgesOf(g), x, v)
    decreases p
  {
    if p.next != v {
      LastEdge(g, p.next, p.rest, v);
    } else {
      assert Edge(EdgesOf(g), u, v);
    }
  }

  lemma ReachIsOnward(g: Graph, u: Vertex, v: Vertex)
    requires u != v
    ensures Reach(EdgesOf(g), u, v) <==> Onward(g, u, v)
  {
    if Reach(EdgesOf(g), u, v) {
      var p :| Follows(EdgesOf(g), u, p, v);
      assert Follows(EdgesOf(g), p.next, p.rest, v);
    }
    if Onward(g, u, v) {
      OnwardReaches(g, u, v);
    }
  }

  /** Where the walk between two instructions starts. */
  function StartOf(g: Graph, a: Inst, b: Inst): seq<Vertex>
    requires a.block in g.succ
  {
    if a.block == b.block then g.succ[a.block] else [a.block]
  }

  /** Between instructions.  From the entry block the answer to any other block is yes; apart from that and
      from the limit it is exact. */
  method IsPotentiallyReachable(g: Graph, a: Inst, b: Inst, dt: Option<DomInfo>, li: Option<LoopInfo>) returns (r: bool)
    requires Known(g, dt, li) && a.block in g.succ && b.block in g.succ
    requires forall u :: !Edge(EdgesOf(g), u, g.entry)
    ensures !r ==> !Leads(g, a, b)
    ensures a.block == g.entry != b.block ==> r
    ensures a.block == b.block == g.entry ==> (r <==> Leads(g, a, b))
    ensures b.block == g.entry != a.block ==> !r
    ensures a.block != g.entry && !ManyBlocks(g, StartOf(g, a, b), b.block, dt, li) ==> (r <==> Leads(g, a, b))
  {
    hide Reach, IsLoopInfo, IsDomInfo, ReachesFrom, Onward;
    NoWayIn(g, g.entry);
    var work: seq<Vertex> := [];
    if a.block == b.block {
      var block := a.block;
      if li.Some? && block in li.value.outermost {
        LoopItself(g, li.value, block);
        return true;
      }
      if a.at <= b.at {
        return true;
      }
      if block == g.entry {
        return false;
      }
      work := g.succ[block];
      OnwardFromSuccessors(g, block, block);
      if work == [] {
        FromNothing(g, block);
        return false;
      }
    } else {
      work := [a.block];
      ReachIsOnward(g, a.block, b.block);
      FromOne(g, a.block, b.block);
    }
    if a.block == g.entry {
      return true;
    }
    if b.block == g.entry {
      return false;
    }
    ghost var cut;
    r, cut := IsPotentiallyReachableInner(g, work, b.block, dt, li);
    NotFrom(g, work, b.block);
  }

  /** That yes from the entry block is right for every other block if and only if no block is dead. */
  lemma EntryRightIff(g: Graph)
    requires WellFormed(g)
    ensures (forall a: Inst, b: Inst {:trigger Leads(g, a, b)} ::
               a.block == g.entry != b.block && b.block in g.succ ==> Leads(g, a, b))
            <==> forall v :: v in g.succ ==> Live(g, v)
  {
    hide Reach, Onward;
    ReachRefl(EdgesOf(g), g.entry);
    forall v | v in g.succ && v != g.entry
      ensures Live(g, v) <==> Leads(g, Inst(g.entry, 0), Inst(v, 0))
    {
      ReachIsOnward(g, g.entry, v);
    }
    forall a: Inst, b: Inst | a.block == g.entry != b.block
      ensures Leads(g, a, b) <==> Leads(g, Inst(g.entry, 0), Inst(b.block, 0))
    {
    }
  }

  /** An entry block that ends, and another block. */
  lemma EntryUnsure(e: Vertex, u: Vertex)
    requires e != u
    ensures var g := Graph(e, map[e := [], u := []]);
            && Known(g, None, None) && (forall v :: !Edge(EdgesOf(g), v, g.entry)) && !Leads(g, Inst(e, 0), Inst(u, 0))
  {
    hide Reach;
    var g := Graph(e, map[e := [], u := []]);
    assert g.succ[e] == [];
  }

  lemma LoopItself(g: Graph, li: LoopInfo, b: Vertex)
    requires IsLoopInfo(g, li) && b in li.outermost
    ensures Onward(g, b, b)
  {
    assert b in li.outermost[b];
  }

  lemma FromNothing(g: Graph, b: Vertex)
    ensures !ReachesFrom(g, [], b)
  {
  }

  lemma FromOne(g: Graph, a: Vertex, b: Vertex)
    ensures ReachesFrom(g, [a], b) <==> Reach(EdgesOf(g), a, b)
  {
    assert a in [a];
  }

  lemma NotFrom(g: Graph, work: seq<Vertex>, b: Vertex)
    ensures (forall w :: w in work ==> !Reach(EdgesOf(g), w, b)) <==> !ReachesFrom(g, work, b)
  {
    hide Reach;
  }
}
