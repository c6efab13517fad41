// The depth-first walk that LazyCallGraph uses to form SCCs, as steps over values.
// Finished nodes that are not component roots are moved to a pending stack in finish order;
// a root takes every pending node numbered after it.  The invariant below is kept by every
// step, whatever position a node is resumed at.
module TarjanWalk {
  import opened Digraph
  import opened Maps

  type Numbers = map<Vertex, int>

  function At(m: Numbers, v: Vertex): int {
    if v in m then m[v] else 0
  }

  /** The numbers after the nodes s have been formed. */
  ghost function Marked(m: Numbers, s: set<Vertex>): Numbers {
    Assigned(m, s, -1)
  }

  /** `path` holds the nodes being explored, `pend` the finished nodes that wait for their
      root, `scan` the edges whose effect on the low link has been taken. */
  datatype Walk = Walk(path: set<Vertex>, pend: set<Vertex>, scan: Edges,
                       dfs: Numbers, low: Numbers, next: int)
  {
    function Active(): set<Vertex> { path + pend }
    function D(v: Vertex): int { At(dfs, v) }
    function L(v: Vertex): int { At(low, v) }

    ghost predicate Numbered(formed: set<Vertex>) {
      && path !! pend && Active() !! formed
      && (forall v :: v in Active() ==> 1 <= L(v) <= D(v) < next)
      && (forall u, v {:trigger D(u), D(v)} :: u in Active() && v in Active() && D(u) == D(v) ==> u == v)
      && (forall u, c :: Edge(scan, u, c) ==> u in Active() || u in formed)
    }

    /** A path node reaches every active node numbered from it on. */
    ghost predicate PathReaches(e: Edges) {
      forall u, v {:trigger Reach(e, u, v)} :: u in path && v in Active() && D(u) <= D(v) ==> Reach(e, u, v)
    }

    /** The low link of v is the number of an active node that v reaches. */
    ghost predicate LowIsReached(e: Edges, v: Vertex) {
      exists x :: x in Active() && D(x) == L(v) && Reach(e, v, x)
    }

    ghost predicate LowsReached(e: Edges) {
      forall v {:trigger LowIsReached(e, v)} :: v in Active() ==> LowIsReached(e, v)
    }

    ghost predicate Finished(e: Edges, formed: set<Vertex>) {
      && (forall p :: p in pend ==> L(p) < D(p))
      && (forall p, c :: p in pend && Edge(e, p, c) ==> c in formed || (c in Active() && L(p) <= D(c)))
      && (forall p, c :: p in pend && Edge(e, p, c) ==> Edge(scan, p, c))
    }

    /** What scanning the edge (u, c) leaves true while u is on the path. */
    ghost predicate Recorded(formed: set<Vertex>, u: Vertex, c: Vertex) {
      || c in formed
      || (c in path && L(u) <= D(c) <= D(u))
      || (c in pend && L(u) <= L(c))
    }

    ghost predicate Scanned(formed: set<Vertex>) {
      forall u, c :: u in path && Edge(scan, u, c) ==> Recorded(formed, u, c)
    }

    /** u is the path node under which p was explored. */
    ghost predicate Above(u: Vertex, p: Vertex) {
      D(u) < D(p) && forall x :: x in path && D(u) < D(x) ==> D(p) < D(x)
    }

    ghost predicate Shields(e: Edges, u: Vertex, c: Vertex, p: Vertex) {
      c in pend && Edge(e, u, c) && L(c) <= L(p) && D(c) <= D(p)
    }

    /** A pending node lies under a pending callee of its path node whose low link is no larger,
        so rescanning that callee is enough to see the whole subtree. */
    ghost predicate Shielded(e: Edges) {
      forall u, p {:trigger Above(u, p)} :: u in path && p in pend && Above(u, p) ==> exists c :: Shields(e, u, c, p)
    }

    ghost predicate Inv(e: Edges, formed: set<Vertex>) {
      && Numbered(formed) && PathReaches(e) && LowsReached(e)
      && Finished(e, formed) && Scanned(formed) && Shielded(e)
    }

    /** t is the node at the end of the path. */
    ghost predicate IsTop(t: Vertex) {
      t in path && forall v :: v in path ==> D(v) <= D(t)
    }
  }

  // ---------------------------------------------------------------- steps

  /** Number the unvisited node x and put it on the path. */
  function Descend(w: Walk, x: Vertex): Walk {
    w.(path := w.path + {x}, dfs := w.dfs[x := w.next], low := w.low[x := w.next], next := w.next + 1)
  }

  /** Take the callee c into account in the low link of t. */
  function Scan(w: Walk, t: Vertex, c: Vertex): Walk {
    var w' := w.(scan := w.scan + {(t, c)});
    if w.L(c) >= 0 && w.L(c) < w.L(t) then w'.(low := w.low[t := w.L(c)]) else w'
  }

  /** t cannot be a root: leave it to the root that will take it. */
  function Pend(w: Walk, t: Vertex): Walk {
    w.(path := w.path - {t}, pend := w.pend + {t})
  }

  /** The component of the root t: t and every pending node numbered after it. */
  function Component(w: Walk, t: Vertex): set<Vertex> {
    {t} + (set p | p in w.pend && w.D(p) > w.D(t))
  }

  /** Move the component of t out of the walk. */
  function Form(w: Walk, t: Vertex, dfs: Numbers, low: Numbers): Walk {
    w.(path := w.path - {t}, pend := w.pend - Component(w, t), dfs := dfs, low := low)
  }

  // ---------------------------------------------------------------- the invariant is kept

  /** The numbers that matter are the same in both walks. */
  ghost predicate SameNumbers(w: Walk, w': Walk, s: set<Vertex>) {
    forall v :: v in s ==> w'.D(v) == w.D(v) && w'.L(v) == w.L(v)
  }

  lemma LowsKept(e: Edges, w: Walk, w': Walk, v: Vertex)
    requires w.LowIsReached(e, v) && w'.L(v) == w.L(v)
    requires forall y :: y in w.Active() && w.D(y) == w.L(v) ==> y in w'.Active() && w'.D(y) == w.D(y)
    ensures w'.LowIsReached(e, v)
  {
    var y :| y in w.Active() && w.D(y) == w.L(v) && Reach(e, v, y);
    assert w'.D(y) == w'.L(v);
  }

  lemma ShieldsKept(e: Edges, w: Walk, w': Walk, u: Vertex, p: Vertex)
    requires w.Shielded(e) && u in w.path && p in w.pend && w.Above(u, p)
    requires forall c :: c in w.pend && w.D(c) <= w.D(p) && w.L(c) <= w.L(p) ==>
               c in w'.pend && w'.D(c) == w.D(c) && w'.L(c) == w.L(c)
    ensures exists c :: w'.Shields(e, u, c, p)
  {
    var c :| w.Shields(e, u, c, p);
    assert w'.Shields(e, u, c, p);
  }

  lemma LowsOnSameActive(e: Edges, w: Walk, w': Walk, v: Vertex)
    requires w.LowsReached(e) && v in w.Active() && w'.L(v) == w.L(v)
    requires w'.Active() == w.Active() && w'.dfs == w.dfs
    ensures w'.LowIsReached(e, v)
  {
    LowsKept(e, w, w', v);
  }

  lemma DescendReaches(e: Edges, w: Walk, t: Vertex, x: Vertex)
    requires w.PathReaches(e) && w.LowsReached(e) && x !in w.Active()
    requires w.path != {} ==> w.IsTop(t) && Edge(e, t, x)
    requires forall v :: v in w.Active() ==> w.D(v) < w.next
    ensures Descend(w, x).PathReaches(e) && Descend(w, x).LowsReached(e)
  {
    var w' := Descend(w, x);
    assert SameNumbers(w, w', w.Active());
    ReachRefl(e, x);
    forall u, v | u in w'.path && v in w'.Active() && w'.D(u) <= w'.D(v)
      ensures Reach(e, u, v)
    {
      if v == x && u != x {
        assert w.D(u) <= w.D(t);
        ReachEdge(e, t, x);
        assert Reach(e, u, t);
        ReachTrans(e, u, t, x);
      }
    }
    forall v | v in w'.Active()
      ensures w'.LowIsReached(e, v)
    {
      if v == x {
        assert w'.D(x) == w'.L(x) == w.next;
      } else {
        LowsKept(e, w, w', v);
      }
    }
  }

  lemma DescendShielded(e: Edges, w: Walk, x: Vertex)
    requires w.Shielded(e) && x !in w.Active()
    requires forall v :: v in w.Active() ==> w.D(v) < w.next
    ensures Descend(w, x).Shielded(e)
  {
    var w' := Descend(w, x);
    assert SameNumbers(w, w', w.Active());
    forall u, p | u in w'.path && p in w'.pend && w'.Above(u, p)
      ensures exists c :: w'.Shields(e, u, c, p)
    {
      ShieldsKept(e, w, w', u, p);
    }
  }

  lemma DescendInv(e: Edges, formed: set<Vertex>, w: Walk, t: Vertex, x: Vertex)
    requires w.Inv(e, formed) && x !in formed && x !in w.Active()
    requires w.path != {} ==> w.IsTop(t) && Edge(e, t, x)
    requires 1 <= w.next
    ensures Descend(w, x).Inv(e, formed) && Descend(w, x).IsTop(x)
  {
    DescendReaches(e, w, t, x);
    DescendShielded(e, w, x);
    var w' := Descend(w, x);
    assert SameNumbers(w, w', w.Active());
    assert w'.Active() == w.Active() + {x};
  }

  lemma AddedEdge(s: Edges, t: Vertex, c: Vertex)
    ensures forall u, x :: Edge(s + {(t, c)}, u, x) <==> Edge(s, u, x) || (u == t && x == c)
  {
  }

  lemma ScanLowers(e: Edges, w: Walk, t: Vertex, c: Vertex)
    requires w.LowsReached(e) && Edge(e, t, c) && c in w.Active() && Scan(w, t, c).L(t) == w.L(c)
    ensures Scan(w, t, c).LowIsReached(e, t)
  {
    assert w.LowIsReached(e, c);
    var y :| y in w.Active() && w.D(y) == w.L(c) && Reach(e, c, y);
    ReachStep(e, t, c, y);
    assert Scan(w, t, c).D(y) == Scan(w, t, c).L(t);
  }

  lemma ScanReaches(e: Edges, w: Walk, t: Vertex, c: Vertex)
    requires w.PathReaches(e) && w.LowsReached(e) && t in w.path && Edge(e, t, c)
    requires c in w.Active() || w.L(c) < 0
    ensures Scan(w, t, c).PathReaches(e) && Scan(w, t, c).LowsReached(e)
  {
    var w' := Scan(w, t, c);
    assert w'.Active() == w.Active() && w'.dfs == w.dfs;
    assert w'.PathReaches(e);
    forall v | v in w'.Active()
      ensures w'.LowIsReached(e, v)
    {
      if w'.L(v) == w.L(v) {
        LowsOnSameActive(e, w, w', v);
      } else {
        ScanLowers(e, w, t, c);
      }
    }
  }

  lemma ScanShielded(e: Edges, w: Walk, t: Vertex, c: Vertex)
    requires w.Shielded(e) && t in w.path && t !in w.pend
    ensures Scan(w, t, c).Shielded(e)
  {
    var w' := Scan(w, t, c);
    assert SameNumbers(w, w', w.pend);
    forall u, p | u in w'.path && p in w'.pend && w'.Above(u, p)
      ensures exists x :: w'.Shields(e, u, x, p)
    {
      ShieldsKept(e, w, w', u, p);
    }
  }

  lemma ScanScanned(formed: set<Vertex>, w: Walk, t: Vertex, c: Vertex)
    requires w.Numbered(formed) && w.Scanned(formed) && w.IsTop(t)
    requires c in formed || c in w.Active()
    requires c in formed ==> w.L(c) < 0
    ensures Scan(w, t, c).Scanned(formed)
  {
    var w' := Scan(w, t, c);
    AddedEdge(w.scan, t, c);
    forall u, x | u in w'.path && Edge(w'.scan, u, x)
      ensures w'.Recorded(formed, u, x)
    {
      if u != t || x != c {
        assert w.Recorded(formed, u, x);
      }
    }
  }

  lemma ScanInv(e: Edges, formed: set<Vertex>, w: Walk, t: Vertex, c: Vertex)
    requires w.Inv(e, formed) && w.IsTop(t) && Edge(e, t, c)
    requires c in formed || c in w.Active()
    requires c in formed ==> w.L(c) < 0
    ensures Scan(w, t, c).Inv(e, formed) && Scan(w, t, c).IsTop(t)
  {
    var w' := Scan(w, t, c);
    assert w'.Active() == w.Active() && w'.dfs == w.dfs;
    AddedEdge(w.scan, t, c);
    assert w'.Numbered(formed) && w'.Finished(e, formed);
    ScanScanned(formed, w, t, c);
    ScanReaches(e, w, t, c);
    ScanShielded(e, w, t, c);
  }

  /** Everything t has scanned lies at or above its low link; so does everything under t. */
  lemma SubtreeLow(e: Edges, formed: set<Vertex>, w: Walk, t: Vertex, p: Vertex)
    requires w.Inv(e, formed) && w.IsTop(t)
    requires forall c :: Edge(e, t, c) ==> Edge(w.scan, t, c)
    requires p in w.pend && w.D(p) > w.D(t)
    ensures w.L(t) <= w.L(p)
  {
    assert w.Above(t, p);
    var c :| w.Shields(e, t, c, p);
    assert w.Recorded(formed, t, c);
  }

  lemma PendShielded(e: Edges, formed: set<Vertex>, w: Walk, t: Vertex, b: Vertex)
    requires w.Inv(e, formed) && w.IsTop(t)
    requires forall c :: Edge(e, t, c) ==> Edge(w.scan, t, c)
    requires Pend(w, t).IsTop(b) && Edge(e, b, t)
    ensures Pend(w, t).Shielded(e)
  {
    var w' := Pend(w, t);
    assert SameNumbers(w, w', w.Active());
    forall u, p | u in w'.path && p in w'.pend && w'.Above(u, p)
      ensures exists c :: w'.Shields(e, u, c, p)
    {
      if p != t && w.D(p) < w.D(t) {
        assert w.Above(u, p);
        ShieldsKept(e, w, w', u, p);
      } else {
        assert w.D(b) <= w.D(t);
        assert u == b;
        if p != t {
          assert w.D(p) != w.D(t);
          SubtreeLow(e, formed, w, t, p);
        }
        assert w'.Shields(e, b, t, p);
      }
    }
  }

  lemma PendScanned(e: Edges, formed: set<Vertex>, w: Walk, t: Vertex)
    requires w.Numbered(formed) && w.Finished(e, formed) && w.Scanned(formed)
    requires w.IsTop(t) && w.L(t) < w.D(t)
    requires forall c :: Edge(e, t, c) ==> Edge(w.scan, t, c)
    ensures Pend(w, t).Finished(e, formed) && Pend(w, t).Scanned(formed)
  {
    var w' := Pend(w, t);
    assert w'.Active() == w.Active();
    assert SameNumbers(w, w', w.Active());
    forall c | Edge(e, t, c)
      ensures c in formed || (c in w'.Active() && w'.L(t) <= w'.D(c))
    {
      assert w.Recorded(formed, t, c);
    }
    forall u, c | u in w'.path && Edge(w'.scan, u, c)
      ensures w'.Recorded(formed, u, c)
    {
      assert w.Recorded(formed, u, c);
    }
  }

  lemma PendInv(e: Edges, formed: set<Vertex>, w: Walk, t: Vertex, b: Vertex)
    requires w.Inv(e, formed) && w.IsTop(t) && w.L(t) < w.D(t)
    requires forall c :: Edge(e, t, c) ==> Edge(w.scan, t, c)
    requires Pend(w, t).IsTop(b) && Edge(e, b, t)
    ensures Pend(w, t).Inv(e, formed)
  {
    var w' := Pend(w, t);
    assert w'.Active() == w.Active() && w'.dfs == w.dfs;
    PendShielded(e, formed, w, t, b);
    PendScanned(e, formed, w, t);
    forall v | v in w'.Active()
      ensures w'.LowIsReached(e, v)
    {
      LowsOnSameActive(e, w, w', v);
    }
  }

  /** Every active node reaches the path at or below its own number. */
  lemma {:induction false} ReachesPath(e: Edges, formed: set<Vertex>, w: Walk, v: Vertex) returns (u: Vertex)
    requires w.Inv(e, formed) && v in w.Active()
    ensures u in w.path && w.D(u) <= w.D(v) && Reach(e, v, u)
    decreases w.D(v)
  {
    ReachRefl(e, v);
    u := v;
    if v in w.pend {
      assert w.LowIsReached(e, v);
      var y :| y in w.Active() && w.D(y) == w.L(v) && Reach(e, v, y);
      u := ReachesPath(e, formed, w, y);
      ReachTrans(e, v, y, u);
    }
  }

  /** The short cut of internalDFS: every active node reaches the end of the path. */
  lemma ActiveReachesTop(e: Edges, formed: set<Vertex>, w: Walk, t: Vertex, v: Vertex)
    requires w.Inv(e, formed) && w.IsTop(t) && v in w.Active()
    ensures Reach(e, v, t)
  {
    var u := ReachesPath(e, formed, w, v);
    ReachTrans(e, v, u, t);
  }

  ghost predicate IsRoot(e: Edges, formed: set<Vertex>, w: Walk, t: Vertex) {
    && w.Inv(e, formed) && w.IsTop(t) && w.L(t) == w.D(t)
    && (forall c :: Edge(e, t, c) ==> Edge(w.scan, t, c))
  }

  lemma {:induction false} MemberReachesRoot(e: Edges, formed: set<Vertex>, w: Walk, t: Vertex, v: Vertex)
    requires IsRoot(e, formed, w, t) && v in Component(w, t)
    ensures Reach(e, v, t)
    decreases w.D(v)
  {
    ReachRefl(e, t);
    if v != t {
      SubtreeLow(e, formed, w, t, v);
      assert w.LowIsReached(e, v);
      var y :| y in w.Active() && w.D(y) == w.L(v) && Reach(e, v, y);
      assert y in Component(w, t);
      MemberReachesRoot(e, formed, w, t, y);
      ReachTrans(e, v, y, t);
    }
  }

  lemma ComponentClosed(e: Edges, formed: set<Vertex>, w: Walk, t: Vertex)
    requires IsRoot(e, formed, w, t) && Closed(e, formed)
    ensures Closed(e, formed + Component(w, t))
  {
    var s := Component(w, t);
    forall u, c | u in s && Edge(e, u, c)
      ensures c in formed + s
    {
      if u == t {
        assert w.Recorded(formed, t, c);
      } else {
        SubtreeLow(e, formed, w, t, u);
      }
    }
  }

  /** The nodes a root takes are exactly one strongly connected component. */
  lemma ComponentIsScc(e: Edges, formed: set<Vertex>, w: Walk, t: Vertex)
    requires IsRoot(e, formed, w, t) && Closed(e, formed)
    ensures IsScc(e, Component(w, t))
  {
    var s := Component(w, t);
    ComponentClosed(e, formed, w, t);
    forall u, v | u in s
      ensures v in s <==> Mutual(e, u, v)
    {
      MemberReachesRoot(e, formed, w, t, u);
      if v in s {
        MemberReachesRoot(e, formed, w, t, v);
        ReachTrans(e, u, t, v);
        ReachTrans(e, v, t, u);
      } else if Mutual(e, u, v) {
        ClosedReach(e, formed + s, u, v);
        ClosedReach(e, formed, v, u);
      }
    }
  }

  lemma FormShielded(e: Edges, w: Walk, t: Vertex, dfs: Numbers, low: Numbers)
    requires w.Shielded(e) && w.IsTop(t)
    requires KeepsRest(w, t, dfs, low)
    requires forall u, v :: u in w.Active() && v in w.Active() && w.D(u) == w.D(v) ==> u == v
    requires w.path !! w.pend
    ensures Form(w, t, dfs, low).Shielded(e)
  {
    var w' := Form(w, t, dfs, low);
    forall v | v in w'.Active()
      ensures v in w.Active() && w'.D(v) == w.D(v) && w'.L(v) == w.L(v) && w.D(v) < w.D(t)
    {
    }
    forall u, p | u in w'.path && p in w'.pend && w'.Above(u, p)
      ensures exists c :: w'.Shields(e, u, c, p)
    {
      assert w.Above(u, p);
      ShieldsKept(e, w, w', u, p);
    }
  }

  ghost predicate KeepsRest(w: Walk, t: Vertex, dfs: Numbers, low: Numbers) {
    forall v :: v in w.Active() && v !in Component(w, t) ==> At(dfs, v) == w.D(v) && At(low, v) == w.L(v)
  }

  lemma FormScanned(e: Edges, formed: set<Vertex>, w: Walk, t: Vertex, dfs: Numbers, low: Numbers)
    requires IsRoot(e, formed, w, t) && KeepsRest(w, t, dfs, low)
    ensures var w', f := Form(w, t, dfs, low), formed + Component(w, t);
            w'.Numbered(f) && w'.Finished(e, f) && w'.Scanned(f)
  {
    var s := Component(w, t);
    var w' := Form(w, t, dfs, low);
    assert w'.Active() == w.Active() - s;
    forall u, c | u in w'.path && Edge(w'.scan, u, c)
      ensures w'.Recorded(formed + s, u, c)
    {
      assert w.Recorded(formed, u, c);
    }
  }

  lemma FormLows(e: Edges, formed: set<Vertex>, w: Walk, t: Vertex, dfs: Numbers, low: Numbers)
    requires IsRoot(e, formed, w, t) && KeepsRest(w, t, dfs, low)
    ensures Form(w, t, dfs, low).LowsReached(e)
  {
    var w' := Form(w, t, dfs, low);
    assert w'.Active() == w.Active() - Component(w, t);
    forall v | v in w'.Active()
      ensures w'.LowIsReached(e, v)
    {
      assert w.D(v) < w.D(t);
      LowsKept(e, w, w', v);
    }
  }

  lemma FormInv(e: Edges, formed: set<Vertex>, w: Walk, t: Vertex, dfs: Numbers, low: Numbers)
    requires IsRoot(e, formed, w, t) && KeepsRest(w, t, dfs, low)
    ensures Form(w, t, dfs, low).Inv(e, formed + Component(w, t))
  {
    var w' := Form(w, t, dfs, low);
    assert w'.PathReaches(e);
    FormScanned(e, formed, w, t, dfs, low);
    FormShielded(e, w, t, dfs, low);
    FormLows(e, formed, w, t, dfs, low);
  }
}
