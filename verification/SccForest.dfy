// The formed components of a call graph, with the parent links and the leaf list kept on them.
module SccForest {
  import opened Digraph
  import opened Maps

  type SccId = nat

  /** The map after the nodes s have been put in component c. */
  ghost function Joined(of: map<Vertex, SccId>, s: set<Vertex>, c: SccId): map<Vertex, SccId> {
    Assigned(of, s, c)
  }

  /** `of` maps a formed node to its component; `rank` orders components children first. */
  datatype Forest = Forest(of: map<Vertex, SccId>, parents: map<SccId, set<SccId>>,
                           leaves: set<SccId>, rank: map<SccId, int>)
  {
    function Parents(c: SccId): set<SccId> {
      if c in parents then parents[c] else {}
    }

    function Rank(c: SccId): int {
      if c in rank then rank[c] else 0
    }

    ghost predicate Has(v: Vertex, c: SccId) {
      v in of && of[v] == c
    }

    ghost predicate Partition() {
      && parents.Keys == rank.Keys
      && (forall v, c :: Has(v, c) ==> c in rank)
      && (forall c :: c in rank ==> exists v :: Has(v, c))
    }

    /** Members reach one another, edges never lead to a later component, ranks tell components apart. */
    ghost predicate Linked(e: Edges) {
      && (forall u, v :: u in of && Edge(e, u, v) ==> v in of && Rank(of[v]) <= Rank(of[u]))
      && (forall u, v, c {:trigger Mutual(e, u, v), Has(u, c)} :: Has(u, c) && Has(v, c) ==> Mutual(e, u, v))
      && (forall c, d :: c in rank && d in rank && Rank(c) == Rank(d) ==> c == d)
    }

    /** Parent links lead to later components, so they cannot form a cycle. */
    ghost predicate ParentsLater() {
      forall c, p :: c in rank && p in Parents(c) ==> p in rank && Rank(c) < Rank(p)
    }

    ghost predicate Valid(e: Edges) {
      Partition() && Linked(e) && ParentsLater()
    }

    ghost function Members(c: SccId): set<Vertex> {
      set v | v in of && of[v] == c
    }

    /** Some member of c calls some member of d. */
    ghost predicate Calls(e: Edges, c: SccId, d: SccId) {
      exists u, v :: Has(u, c) && Has(v, d) && Edge(e, u, v)
    }

    ghost predicate ExactAt(e: Edges, c: SccId, p: SccId) {
      p in Parents(c) <==> p != c && Calls(e, p, c)
    }

    /** The parent set of every component is exactly the set of other components that call it. */
    ghost predicate ParentsExact(e: Edges) {
      forall c, p {:trigger ExactAt(e, c, p)} :: c in rank && p in rank ==> ExactAt(e, c, p)
    }

    ghost predicate IsLeaf(e: Edges, c: SccId) {
      forall d :: d in rank && d != c ==> !Calls(e, c, d)
    }

    /** The leaf list names exactly the components that call no other component. */
    ghost predicate LeavesExact(e: Edges) {
      && leaves <= rank.Keys
      && (forall c {:trigger IsLeaf(e, c)} :: c in rank ==> (c in leaves <==> IsLeaf(e, c)))
    }
  }

  lemma RanksFall(e: Edges, f: Forest, u: Vertex, v: Vertex)
    requires f.Linked(e) && u in f.of && Reach(e, u, v)
    ensures v in f.of && f.Rank(f.of[v]) <= f.Rank(f.of[u])
  {
    var r := f.Rank(f.of[u]);
    var s := set x | x in f.of && f.Rank(f.of[x]) <= r;
    ClosedReach(e, s, u, v);
  }

  /** Every formed component is one whole strongly connected component of the call graph. */
  lemma GroupsAreSccs(e: Edges, f: Forest, c: SccId)
    requires f.Valid(e) && c in f.rank
    ensures IsScc(e, f.Members(c))
  {
    var w :| f.Has(w, c);
    assert w in f.Members(c);
    forall u, v | u in f.Members(c)
      ensures v in f.Members(c) <==> Mutual(e, u, v)
    {
      assert f.Has(u, c);
      if Mutual(e, u, v) {
        RanksFall(e, f, u, v);
        RanksFall(e, f, v, u);
        assert f.Has(v, f.of[v]);
      }
      if v in f.Members(c) {
        assert f.Has(v, c);
      }
    }
  }

  // ---------------------------------------------------------------- completing a component

  /** f' is f with the new component c, whose members `ns` call the components `kids`. */
  ghost predicate Extends(e: Edges, f: Forest, f': Forest, c: SccId, ns: set<Vertex>, kids: set<SccId>) {
    && c !in f.rank && c !in f.leaves && ns != {}
    && (forall v :: v in ns ==> v !in f.of)
    && (forall v, d :: f'.Has(v, d) <==> if d == c then v in ns else f.Has(v, d))
    && (forall d :: f'.Parents(d) == if d == c then {} else f.Parents(d) + (if d in kids then {c} else {}))
    && f'.leaves == f.leaves + (if kids == {} then {c} else {})
    && f'.parents.Keys == f.parents.Keys + {c}
    && f'.rank.Keys == f.rank.Keys + {c}
    && (forall d :: d in f.rank ==> f'.Rank(d) == f.Rank(d) < f'.Rank(c))
    && (forall d :: d in kids ==> d != c && d in f.rank && f'.Calls(e, c, d))
    && (forall d :: f'.Calls(e, c, d) && d != c ==> d in kids)
  }

  lemma ExtendsCalls(e: Edges, f: Forest, f': Forest, c: SccId, ns: set<Vertex>, kids: set<SccId>)
    requires f.Partition() && Extends(e, f, f', c, ns, kids)
    requires Closed(e, f.of.Keys)
    ensures forall a, b :: a != c && b != c ==> (f'.Calls(e, a, b) <==> f.Calls(e, a, b))
    ensures forall a :: a != c ==> !f'.Calls(e, a, c)
  {
    forall a, b | a != c && b != c
      ensures f'.Calls(e, a, b) <==> f.Calls(e, a, b)
    {
      if f.Calls(e, a, b) {
        var u, v :| f.Has(u, a) && f.Has(v, b) && Edge(e, u, v);
        assert f'.Has(u, a) && f'.Has(v, b);
      }
      if f'.Calls(e, a, b) {
        var u, v :| f'.Has(u, a) && f'.Has(v, b) && Edge(e, u, v);
        assert f.Has(u, a) && f.Has(v, b);
      }
    }
    forall a | a != c
      ensures !f'.Calls(e, a, c)
    {
      forall u, v | f'.Has(u, a) && f'.Has(v, c)
        ensures !Edge(e, u, v)
      {
        assert f.Has(u, a) && v in ns;
      }
    }
  }

  lemma ExtendsMaps(e: Edges, f: Forest, f': Forest, c: SccId, ns: set<Vertex>, kids: set<SccId>)
    requires f.Partition() && Extends(e, f, f', c, ns, kids)
    ensures forall v :: v in f'.of <==> v in f.of || v in ns
    ensures forall v :: v in f'.of ==> f'.of[v] == if v in ns then c else f.of[v]
    ensures forall v :: v in f.of ==> f.of[v] in f.rank
  {
    forall v | v in f'.of
      ensures (v in ns && f'.of[v] == c) || (v in f.of && v !in ns && f'.of[v] == f.of[v])
    {
      assert f'.Has(v, f'.of[v]);
    }
    forall v | v in ns || v in f.of
      ensures v in f'.of
    {
      if v in ns { assert f'.Has(v, c); } else { assert f.Has(v, f.of[v]) && f'.Has(v, f.of[v]); }
    }
    forall v | v in f.of
      ensures f.of[v] in f.rank
    {
      assert f.Has(v, f.of[v]);
    }
  }

  lemma ExtendsPartition(e: Edges, f: Forest, f': Forest, c: SccId, ns: set<Vertex>, kids: set<SccId>)
    requires f.Partition() && Extends(e, f, f', c, ns, kids)
    ensures f'.Partition()
  {
    forall d | d in f'.rank
      ensures exists v :: f'.Has(v, d)
    {
      if d == c {
        var v := Pick(ns);
        assert f'.Has(v, c);
      } else {
        var v :| f.Has(v, d);
        assert f'.Has(v, d);
      }
    }
  }

  lemma ExtendsLinked(e: Edges, f: Forest, f': Forest, c: SccId, ns: set<Vertex>, kids: set<SccId>)
    requires f.Partition() && f.Linked(e) && Extends(e, f, f', c, ns, kids)
    requires IsScc(e, ns) && Closed(e, f.of.Keys + ns)
    ensures f'.Linked(e)
  {
    hide Forest.Partition, Forest.Calls, Forest.Parents;
    ExtendsMaps(e, f, f', c, ns, kids);
    forall u, v, d | f'.Has(u, d) && f'.Has(v, d)
      ensures Mutual(e, u, v)
    {
      if d != c { assert f.Has(u, d) && f.Has(v, d); }
    }
  }

  lemma ExtendsParents(e: Edges, f: Forest, f': Forest, c: SccId, ns: set<Vertex>, kids: set<SccId>)
    requires f.Partition() && f.ParentsExact(e) && f.ParentsLater() && Extends(e, f, f', c, ns, kids)
    requires Closed(e, f.of.Keys)
    ensures f'.ParentsExact(e)
  {
    hide Forest.Calls, Forest.Rank, Forest.Has;
    ExtendsCalls(e, f, f', c, ns, kids);
    forall d, p | d in f'.rank && p in f'.rank
      ensures f'.ExactAt(e, d, p)
    {
      if d != c && p != c {
        assert f.ExactAt(e, d, p);
      }
    }
  }

  lemma ExtendsLeaves(e: Edges, f: Forest, f': Forest, c: SccId, ns: set<Vertex>, kids: set<SccId>)
    requires f.Partition() && f.LeavesExact(e) && Extends(e, f, f', c, ns, kids)
    requires Closed(e, f.of.Keys)
    ensures f'.LeavesExact(e)
  {
    hide Forest.Calls, Forest.Rank, Forest.Has, Forest.Parents;
    ExtendsCalls(e, f, f', c, ns, kids);
    forall a | a in f'.rank
      ensures a in f'.leaves <==> f'.IsLeaf(e, a)
    {
      if a == c {
        if b :| b in kids {
          assert f'.Calls(e, c, b);
        }
      } else {
        assert f.IsLeaf(e, a) <==> f'.IsLeaf(e, a);
      }
    }
  }

  lemma ExtendsLater(e: Edges, f: Forest, f': Forest, c: SccId, ns: set<Vertex>, kids: set<SccId>)
    requires f.ParentsLater() && Extends(e, f, f', c, ns, kids)
    ensures f'.ParentsLater()
  {
    forall d, p | d in f'.rank && p in f'.Parents(d)
      ensures p in f'.rank && f'.Rank(d) < f'.Rank(p)
    {
      if p != c {
        assert p in f.Parents(d);
      }
    }
  }

  /** Completing a component keeps everything, including exact parents and leaves. */
  lemma ExtendsValid(e: Edges, f: Forest, f': Forest, c: SccId, ns: set<Vertex>, kids: set<SccId>)
    requires f.Valid(e) && Extends(e, f, f', c, ns, kids)
    requires IsScc(e, ns) && Closed(e, f.of.Keys) && Closed(e, f.of.Keys + ns)
    ensures f'.Valid(e)
    ensures f.ParentsExact(e) ==> f'.ParentsExact(e)
    ensures f.LeavesExact(e) ==> f'.LeavesExact(e)
  {
    ExtendsPartition(e, f, f', c, ns, kids);
    ExtendsLinked(e, f, f', c, ns, kids);
    ExtendsLater(e, f, f', c, ns, kids);
    if f.ParentsExact(e) {
      ExtendsParents(e, f, f', c, ns, kids);
    }
    if f.LeavesExact(e) {
      ExtendsLeaves(e, f, f', c, ns, kids);
    }
  }

  ghost predicate CallsGroup(e: Edges, of: map<Vertex, SccId>, ns: seq<Vertex>, d: SccId) {
    exists u, v :: u in ns && Edge(e, u, v) && v in of && of[v] == d
  }

  /** `kids` are the components other than c that the nodes `ns` call. */
  ghost predicate KidsOf(e: Edges, of: map<Vertex, SccId>, ns: seq<Vertex>, c: SccId, kids: set<SccId>) {
    forall d :: d in kids <==> d != c && CallsGroup(e, of, ns, d)
  }

  lemma GroupsClosed(e: Edges, f: Forest)
    requires f.Valid(e)
    ensures Closed(e, f.of.Keys)
    ensures forall v :: v in f.of ==> f.of[v] in f.rank
  {
    forall v | v in f.of
      ensures f.of[v] in f.rank
    {
      assert f.Has(v, f.of[v]);
    }
  }

  /** Each component's members are listed once; the next numbers are above those in use. */
  ghost predicate Tabled(f: Forest, nodes: map<SccId, seq<Vertex>>, nextSCC: SccId, nextRank: int) {
    && nodes.Keys == f.rank.Keys
    && (forall c :: c in f.leaves ==> c < nextSCC)
    && (forall c :: c in nodes ==> c < nextSCC && f.Rank(c) < nextRank && Distinct(nodes[c]))
    && (forall c :: c in nodes ==> Elements(nodes[c]) == f.Members(c))
  }

  /** The tables after formSCC has made c out of the nodes s. */
  ghost predicate Formed(e: Edges, f: Forest, f': Forest, c: SccId, s: set<Vertex>, ns: seq<Vertex>, kids: set<SccId>) {
    && s !! f.of.Keys && s != {} && Elements(ns) == s && Distinct(ns)
    && f'.of == Joined(f.of, s, c)
    && f'.parents.Keys == f.parents.Keys + {c} && f'.parents[c] == {}
    && (forall d :: d in f.parents ==> f'.parents[d] == f.parents[d] + (if d in kids then {c} else {}))
    && f'.leaves == f.leaves + (if kids == {} then {c} else {})
    && KidsOf(e, f'.of, ns, c, kids)
  }

  lemma FormedMembers(e: Edges, f: Forest, f': Forest, c: SccId, s: set<Vertex>, ns: seq<Vertex>, kids: set<SccId>)
    requires f.Partition() && c !in f.rank && Formed(e, f, f', c, s, ns, kids)
    ensures forall v, d :: f'.Has(v, d) <==> if d == c then v in s else f.Has(v, d)
    ensures f'.Members(c) == s && forall d :: d != c ==> f'.Members(d) == f.Members(d)
  {
    forall v, d
      ensures f'.Has(v, d) <==> if d == c then v in s else f.Has(v, d)
    {
      assert !f.Has(v, c);
      if v in s { assert f'.of[v] == c; }
    }
    assert forall v :: v in f'.Members(c) <==> f'.Has(v, c);
    assert forall v :: v in f'.Members(c) <==> v in s;
    assert f'.Members(c) == s;
    forall d | d != c
      ensures f'.Members(d) == f.Members(d)
    {
      assert forall v :: v in f'.Members(d) <==> f'.Has(v, d);
      assert forall v :: v in f.Members(d) <==> f.Has(v, d);
    }
  }

  lemma FormedTabled(e: Edges, f: Forest, f': Forest, c: SccId, s: set<Vertex>, nodes: map<SccId, seq<Vertex>>,
                     ns: seq<Vertex>, kids: set<SccId>, nextRank: int)
    requires f.Partition() && Tabled(f, nodes, c, nextRank) && Formed(e, f, f', c, s, ns, kids)
    requires f'.rank == f.rank[c := nextRank]
    ensures Tabled(f', nodes[c := ns], c + 1, nextRank + 1)
  {
    FormedMembers(e, f, f', c, s, ns, kids);
  }

  /** What formSCC does to the tables, as one completed component. */
  lemma FormedExtends(e: Edges, f: Forest, f': Forest, c: SccId, s: set<Vertex>, ns: seq<Vertex>, kids: set<SccId>)
    requires f.Partition() && c !in f.rank && c !in f.leaves && Formed(e, f, f', c, s, ns, kids)
    requires f'.rank.Keys == f.rank.Keys + {c}
    requires forall d :: d in f.rank ==> f'.Rank(d) == f.Rank(d) < f'.Rank(c)
    ensures Extends(e, f, f', c, s, kids)
  {
    FormedMembers(e, f, f', c, s, ns, kids);
    forall d | d in kids
      ensures d in f.rank && f'.Calls(e, c, d)
    {
      assert CallsGroup(e, f'.of, ns, d);
      var u, v :| u in ns && Edge(e, u, v) && v in f'.of && f'.of[v] == d;
      assert u in Elements(ns) && f'.Has(u, c) && f'.Has(v, d) && f.Has(v, d);
    }
    forall d | f'.Calls(e, c, d) && d != c
      ensures d in kids
    {
      var u, v :| f'.Has(u, c) && f'.Has(v, d) && Edge(e, u, v);
      assert u in Elements(ns);
      assert CallsGroup(e, f'.of, ns, d);
    }
  }
}
