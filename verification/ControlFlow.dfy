// Control-flow graphs: blocks with ordered successors, and dominance.
module ControlFlow {
  import opened Digraph
  import opened Sets

  /** Successors in the order of the terminator; a block may be listed twice. */
  datatype Graph = Graph(entry: Vertex, succ: map<Vertex, seq<Vertex>>)

  ghost predicate WellFormed(g: Graph) {
    g.entry in g.succ && forall u, v :: u in g.succ && v in g.succ[u] ==> v in g.succ
  }

  ghost function EdgesOf(g: Graph): (e: Edges)
    ensures forall u, v {:trigger Edge(e, u, v)} :: Edge(e, u, v) <==> u in g.succ && v in g.succ[u]
  {
    var e := set u, v | u in g.succ.Keys && v in g.succ[u] :: (u, v);
    assert forall u, v :: (u, v) in e <==> u in g.succ && v in g.succ[u];
    e
  }

  ghost predicate Live(g: Graph, v: Vertex) {
    Reach(EdgesOf(g), g.entry, v)
  }

  lemma LiveIsBlock(g: Graph, v: Vertex)
    requires WellFormed(g) && Live(g, v)
    ensures v in g.succ
  {
    assert Closed(EdgesOf(g), g.succ.Keys);
    ClosedReach(EdgesOf(g), g.succ.Keys, g.entry, v);
  }

  // ---------------------------------------------------------------- dominance

  /** Does the path that starts at u visit x? */
  predicate Visits(u: Vertex, p: Path, x: Vertex)
    decreases p
  {
    u == x || (p.Via? && Visits(p.next, p.rest, x))
  }

  /** Every path from the entry to b visits a. */
  ghost predicate Dominates(g: Graph, a: Vertex, b: Vertex) {
    forall p :: Follows(EdgesOf(g), g.entry, p, b) ==> Visits(g.entry, p, a)
  }

  ghost predicate StrictlyDominates(g: Graph, a: Vertex, b: Vertex) {
    a != b && Dominates(g, a, b)
  }

  lemma {:induction false} VisitsEnd(e: Edges, u: Vertex, p: Path, v: Vertex)
    requires Follows(e, u, p, v)
    ensures Visits(u, p, v)
    decreases p
  {
    if p.Via? {
      VisitsEnd(e, p.next, p.rest, v);
    }
  }

  lemma DominatesSelf(g: Graph, b: Vertex)
    ensures Dominates(g, b, b)
  {
    forall p | Follows(EdgesOf(g), g.entry, p, b)
      ensures Visits(g.entry, p, b)
    {
      VisitsEnd(EdgesOf(g), g.entry, p, b);
    }
  }

  /** The part of a path up to its first visit of x. */
  lemma {:induction false} Prefix(e: Edges, u: Vertex, p: Path, v: Vertex, x: Vertex) returns (q: Path)
    requires Follows(e, u, p, v) && Visits(u, p, x)
    ensures Follows(e, u, q, x) && (forall y :: Visits(u, q, y) ==> Visits(u, p, y)) && Reach(e, x, v)
    decreases p
  {
    if u == x {
      q := Here;
    } else {
      var r := Prefix(e, p.next, p.rest, v, x);
      q := Via(p.next, r);
    }
  }

  /** A dominator of a live block reaches it. */
  lemma DominatorReaches(g: Graph, a: Vertex, b: Vertex)
    requires Dominates(g, a, b) && Live(g, b)
    ensures Reach(EdgesOf(g), a, b) && Live(g, a)
  {
    var p :| Follows(EdgesOf(g), g.entry, p, b);
    var q := Prefix(EdgesOf(g), g.entry, p, b, a);
  }

  lemma DominatesTrans(g: Graph, a: Vertex, b: Vertex, c: Vertex)
    requires Dominates(g, a, b) && Dominates(g, b, c)
    ensures Dominates(g, a, c)
  {
    forall p | Follows(EdgesOf(g), g.entry, p, c)
      ensures Visits(g.entry, p, a)
    {
      var q := Prefix(EdgesOf(g), g.entry, p, c, b);
      assert Visits(g.entry, q, a);
    }
  }

  lemma {:induction false} FirstOfTwo(e: Edges, u: Vertex, p: Path, v: Vertex, a: Vertex, b: Vertex) returns (q: Path)
    requires Follows(e, u, p, v) && a != b && (Visits(u, p, a) || Visits(u, p, b))
    ensures (Follows(e, u, q, a) && !Visits(u, q, b)) || (Follows(e, u, q, b) && !Visits(u, q, a))
    decreases p
  {
    if u == a || u == b {
      q := Here;
    } else {
      var r := FirstOfTwo(e, p.next, p.rest, v, a, b);
      q := Via(p.next, r);
    }
  }

  /** Two live blocks do not dominate each other. */
  lemma DominatesAntisym(g: Graph, a: Vertex, b: Vertex)
    requires Dominates(g, a, b) && Dominates(g, b, a) && Live(g, b)
    ensures a == b
  {
    if a != b {
      var p :| Follows(EdgesOf(g), g.entry, p, b);
      VisitsEnd(EdgesOf(g), g.entry, p, b);
      var q := FirstOfTwo(EdgesOf(g), g.entry, p, b, a, b);
    }
  }

  lemma {:induction false} VisitsThen(e: Edges, u: Vertex, p: Path, v: Vertex, w: Vertex) returns (q: Path)
    requires Follows(e, u, p, v) && Edge(e, v, w)
    ensures Follows(e, u, q, w) && forall x :: Visits(u, q, x) <==> Visits(u, p, x) || x == w
    decreases p
  {
    if p == Here {
      q := Via(w, Here);
    } else {
      var r := VisitsThen(e, p.next, p.rest, v, w);
      q := Via(p.next, r);
    }
  }

  /** What dominates w strictly dominates every block that branches to w. */
  lemma DominatesPred(g: Graph, a: Vertex, v: Vertex, w: Vertex)
    requires StrictlyDominates(g, a, w) && Edge(EdgesOf(g), v, w)
    ensures Dominates(g, a, v)
  {
    forall p | Follows(EdgesOf(g), g.entry, p, v)
      ensures Visits(g.entry, p, a)
    {
      var q := VisitsThen(EdgesOf(g), g.entry, p, v, w);
      assert Visits(g.entry, q, a);
    }
  }

  // ---------------------------------------------------------------- the dominator tree

  /** The immediate dominator of every live block but the entry, and the children this gives. */
  datatype DomTree = DomTree(idom: map<Vertex, Vertex>, children: map<Vertex, seq<Vertex>>)

  ghost predicate IsIdom(g: Graph, d: Vertex, b: Vertex) {
    && StrictlyDominates(g, d, b)
    && forall a {:trigger StrictlyDominates(g, a, b)} :: StrictlyDominates(g, a, b) ==> Dominates(g, a, d)
  }

  ghost predicate IsDomTree(g: Graph, t: DomTree) {
    && (forall b :: b in t.idom <==> Live(g, b) && b != g.entry)
    && (forall b :: b in t.idom ==> IsIdom(g, t.idom[b], b))
    && (forall b :: b in t.children <==> Live(g, b))
    && (forall b, c :: b in t.children ==> (c in t.children[b] <==> c in t.idom && t.idom[c] == b))
    && (forall b :: b in t.children ==> Distinct(t.children[b]))
  }

  ghost function Dominators(g: Graph, b: Vertex): (s: set<Vertex>)
    ensures forall v :: v in s <==> v in g.succ && Dominates(g, v, b)
  {
    set v | v in g.succ.Keys && Dominates(g, v, b)
  }

  lemma FewerDominators(g: Graph, a: Vertex, b: Vertex)
    requires WellFormed(g) && StrictlyDominates(g, a, b) && Live(g, b)
    ensures Dominators(g, a) < Dominators(g, b) && |Dominators(g, a)| < |Dominators(g, b)|
  {
    forall v | v in Dominators(g, a)
      ensures v in Dominators(g, b)
    {
      DominatesTrans(g, v, a, b);
    }
    LiveIsBlock(g, b);
    DominatesSelf(g, b);
    if b in Dominators(g, a) {
      DominatesAntisym(g, a, b);
    }
    assert b in Dominators(g, b);
    SubsetSize(Dominators(g, a), Dominators(g, b));
  }

  /** Below a strict dominator, one of its children dominates. */
  lemma {:induction false} ChildBetween(g: Graph, t: DomTree, a: Vertex, b: Vertex) returns (c: Vertex)
    requires WellFormed(g) && IsDomTree(g, t) && StrictlyDominates(g, a, b) && Live(g, b)
    ensures c in t.idom && t.idom[c] == a && Dominates(g, c, b) && Live(g, c)
    decreases |Dominators(g, b)|
  {
    EntryDominated(g, a, b);
    var d := t.idom[b];
    if d == a {
      c := b;
      DominatesSelf(g, b);
    } else {
      DominatorReaches(g, d, b);
      FewerDominators(g, d, b);
      c := ChildBetween(g, t, a, d);
      DominatesTrans(g, c, d, b);
    }
  }

  /** Nothing dominates the entry strictly. */
  lemma EntryDominated(g: Graph, a: Vertex, b: Vertex)
    requires StrictlyDominates(g, a, b)
    ensures b != g.entry
  {
    assert Follows(EdgesOf(g), g.entry, Here, g.entry);
    assert Visits(g.entry, Here, a) <==> a == g.entry;
  }
}
