// What the edge updates on formed components preserve.
module SccUpdates {
  import opened Digraph
  import opened TarjanWalk
  import opened WalkStacks
  import opened SccForest

  /** The edges out of every node outside s are the same. */
  ghost predicate SameOutside(e: Edges, e': Edges, s: set<Vertex>) {
    forall u, v :: u !in s ==> (Edge(e, u, v) <==> Edge(e', u, v))
  }

  // ---------------------------------------------------------------- a suspended walk is not disturbed

  lemma WalkInvFrame(e: Edges, e': Edges, formed: set<Vertex>, w: Walk)
    requires w.Inv(e, formed) && Closed(e, formed) && SameOutside(e, e', formed)
    ensures w.Inv(e', formed)
  {
    forall u, v | u in w.path && v in w.Active() && w.D(u) <= w.D(v)
      ensures Reach(e', u, v)
    {
      assert Reach(e, u, v);
      ReachOutside(e, e', formed, u, v);
    }
    assert w.PathReaches(e');
    WalkLowsFrame(e, e', formed, w);
    WalkShieldsFrame(e, e', formed, w);
  }

  lemma WalkLowsFrame(e: Edges, e': Edges, formed: set<Vertex>, w: Walk)
    requires w.LowsReached(e) && w.Active() !! formed && Closed(e, formed) && SameOutside(e, e', formed)
    ensures w.LowsReached(e')
  {
    forall v | v in w.Active()
      ensures w.LowIsReached(e', v)
    {
      assert w.LowIsReached(e, v);
      var x :| x in w.Active() && w.D(x) == w.L(v) && Reach(e, v, x);
      ReachOutside(e, e', formed, v, x);
    }
  }

  lemma WalkShieldsFrame(e: Edges, e': Edges, formed: set<Vertex>, w: Walk)
    requires w.Shielded(e) && w.Active() !! formed && SameOutside(e, e', formed)
    ensures w.Shielded(e')
  {
    forall u, p | u in w.path && p in w.pend && w.Above(u, p)
      ensures exists c :: w.Shields(e', u, c, p)
    {
      var c :| w.Shields(e, u, c, p);
      assert w.Shields(e', u, c, p);
    }
  }

  lemma StackFrame(cal: CalleeLists, cal': CalleeLists, e: Edges, e': Edges, formed: set<Vertex>, stack: seq<Frame>,
                   w: Walk)
    requires StackFits(cal, e, stack, w) && w.Active() !! formed && SameOutside(e, e', formed)
    requires cal'.Keys == cal.Keys && forall u :: u in cal && u !in formed ==> cal'[u] == cal[u]
    ensures StackFits(cal', e', stack, w)
  {
    forall i | 0 <= i < |stack|
      ensures stack[i].node in w.path && ScannedUpTo(cal', w, stack[i])
    {
      assert ScannedUpTo(cal, w, stack[i]);
    }
    assert forall i :: 0 <= i < |stack| ==> stack[i].node !in formed;
  }

  /** Changing callees of formed nodes leaves a suspended walk as it was. */
  lemma ExploringFrame(cal: CalleeLists, cal': CalleeLists, e: Edges, e': Edges, formed: set<Vertex>,
                       stack: seq<Frame>, pending: seq<Vertex>, w: Walk)
    requires Exploring(cal, e, formed, stack, pending, w) && Closed(e, formed)
    requires SameOutside(e, e', formed) && Lists(cal', e')
    requires cal'.Keys == cal.Keys && forall u :: u in cal && u !in formed ==> cal'[u] == cal[u]
    ensures Exploring(cal', e', formed, stack, pending, w)
  {
    hide Lists, Walk.Inv, StackFits;
    WalkInvFrame(e, e', formed, w);
    assert w.Active() !! formed by { ActiveUnformed(e, formed, w); }
    StackFrame(cal, cal', e, e', formed, stack, w);
  }

  lemma ActiveUnformed(e: Edges, formed: set<Vertex>, w: Walk)
    requires w.Inv(e, formed)
    ensures w.Active() !! formed
  {
  }

  // ---------------------------------------------------------------- the slots of a node

  type IndexMap = map<Vertex, nat>

  /** The index of a callee names a slot that lists it. */
  ghost predicate SlotsFit(slots: seq<Option<Vertex>>, index: IndexMap) {
    forall v :: v in index ==> index[v] < |slots| && slots[index[v]] == Some(v)
  }

  ghost predicate IndexFits(cal: CalleeLists, index: map<Vertex, IndexMap>) {
    index.Keys == cal.Keys && forall u {:trigger index[u]} :: u in index ==> SlotsFit(cal[u], index[u])
  }

  lemma ListsSet(cal: CalleeLists, e: Edges, e': Edges, u: Vertex, slots: seq<Option<Vertex>>)
    requires Lists(cal, e) && u in cal
    requires forall x, y :: x != u ==> (Edge(e', x, y) <==> Edge(e, x, y))
    requires forall y :: Edge(e', u, y) <==> Some(y) in slots
    requires forall y :: Some(y) in slots ==> y in cal
    ensures Lists(cal[u := slots], e')
  {
    assert forall k :: 0 <= k < |slots| && slots[k].Some? ==> Some(slots[k].value) in slots;
  }

  // ---------------------------------------------------------------- inserting an edge

  /** e' is e with the edge (u, v). */
  ghost predicate Adds(e: Edges, e': Edges, u: Vertex, v: Vertex) {
    forall x, y :: Edge(e', x, y) <==> Edge(e, x, y) || (x == u && y == v)
  }

  lemma AddsCalls(e: Edges, e': Edges, f: Forest, u: Vertex, v: Vertex, a: SccId, b: SccId)
    requires Adds(e, e', u, v) && u in f.of && v in f.of
    ensures f.Calls(e', a, b) <==> f.Calls(e, a, b) || (a == f.of[u] && b == f.of[v])
  {
    if f.Calls(e, a, b) {
      var x, y :| f.Has(x, a) && f.Has(y, b) && Edge(e, x, y);
      assert Edge(e', x, y);
    }
    if a == f.of[u] && b == f.of[v] {
      assert f.Has(u, a) && f.Has(v, b) && Edge(e', u, v);
    }
    if f.Calls(e', a, b) {
      var x, y :| f.Has(x, a) && f.Has(y, b) && Edge(e', x, y);
    }
  }

  /** A new edge into the same or an earlier component changes no component. */
  lemma AddsValid(e: Edges, e': Edges, f: Forest, u: Vertex, v: Vertex)
    requires f.Valid(e) && Adds(e, e', u, v) && u in f.of && v in f.of && f.Rank(f.of[v]) <= f.Rank(f.of[u])
    ensures f.Valid(e')
  {
    forall x, y, c | f.Has(x, c) && f.Has(y, c)
      ensures Mutual(e', x, y)
    {
      assert Mutual(e, x, y);
      ReachOutside(e, e', {}, x, y);
      ReachOutside(e, e', {}, y, x);
    }
  }

  /** Inside one component nothing else changes. */
  lemma IntraInsertExact(e: Edges, e': Edges, f: Forest, u: Vertex, v: Vertex)
    requires Adds(e, e', u, v) && u in f.of && v in f.of && f.of[u] == f.of[v]
    ensures f.ParentsExact(e) ==> f.ParentsExact(e')
    ensures f.LeavesExact(e) ==> f.LeavesExact(e')
  {
    forall a, b
      ensures a != b ==> (f.Calls(e', a, b) <==> f.Calls(e, a, b))
    {
      AddsCalls(e, e', f, u, v, a, b);
    }
    if f.ParentsExact(e) {
      forall c, p | c in f.rank && p in f.rank
        ensures f.ExactAt(e', c, p)
      {
        assert f.ExactAt(e, c, p);
      }
    }
    if f.LeavesExact(e) {
      forall c | c in f.rank
        ensures c in f.leaves <==> f.IsLeaf(e', c)
      {
        assert f.IsLeaf(e, c) <==> f.IsLeaf(e', c);
      }
    }
  }

  /** Between components the caller becomes a parent of the callee. */
  lemma OutgoingInsertExact(e: Edges, e': Edges, f: Forest, f': Forest, u: Vertex, v: Vertex)
    requires Adds(e, e', u, v) && u in f.of && v in f.of && f.of[u] != f.of[v] && f.of[v] in f.parents
    requires f' == f.(parents := f.parents[f.of[v] := f.parents[f.of[v]] + {f.of[u]}])
    ensures f.ParentsExact(e) ==> f'.ParentsExact(e')
  {
    if f.ParentsExact(e) {
      forall c, p | c in f'.rank && p in f'.rank
        ensures f'.ExactAt(e', c, p)
      {
        assert f.ExactAt(e, c, p);
        AddsCalls(e, e', f, u, v, p, c);
        assert f'.Calls(e', p, c) <==> f.Calls(e', p, c) by { SameOf(e', f, f', p, c); }
      }
    }
  }

  lemma SameOf(e: Edges, f: Forest, f': Forest, a: SccId, b: SccId)
    requires f.of == f'.of
    ensures f.Calls(e, a, b) <==> f'.Calls(e, a, b)
  {
    if f.Calls(e, a, b) {
      var x, y :| f.Has(x, a) && f.Has(y, b) && Edge(e, x, y);
      assert f'.Has(x, a) && f'.Has(y, b);
    }
    if f'.Calls(e, a, b) {
      var x, y :| f'.Has(x, a) && f'.Has(y, b) && Edge(e, x, y);
      assert f.Has(x, a) && f.Has(y, b);
    }
  }

  /** If the caller's component already calls another one, it is and stays no leaf. */
  lemma OutgoingInsertLeaves(e: Edges, e': Edges, f: Forest, f': Forest, u: Vertex, v: Vertex, d: SccId)
    requires Adds(e, e', u, v) && u in f.of && v in f.of && f'.of == f.of && f'.leaves == f.leaves && f'.rank == f.rank
    requires d in f.rank && d != f.of[u] && f.Calls(e, f.of[u], d)
    ensures f.LeavesExact(e) ==> f'.LeavesExact(e')
  {
    if f.LeavesExact(e) {
      forall c | c in f'.rank
        ensures c in f'.leaves <==> f'.IsLeaf(e', c)
      {
        assert f.IsLeaf(e, c) <==> c in f.leaves;
        forall b
          ensures f'.Calls(e', c, b) <==> f.Calls(e, c, b) || (c == f.of[u] && b == f.of[v])
        {
          AddsCalls(e, e', f, u, v, c, b);
          SameOf(e', f, f', c, b);
        }
        if c == f.of[u] {
          assert f.Calls(e, c, d) && f'.Calls(e', c, d);
        }
      }
    }
  }

  /** The new callee is in a slot of its own at the end; the index keeps the slot it has for a callee. */
  ghost predicate SlotAdded(cal: CalleeLists, index: map<Vertex, IndexMap>, cal': CalleeLists,
                            index': map<Vertex, IndexMap>, u: Vertex, v: Vertex) {
    && u in cal && u in index && cal' == cal[u := cal[u] + [Some(v)]]
    && index' == index[u := if v in index[u] then index[u] else index[u][v := |cal[u]|]]
  }

  // ---------------------------------------------------------------- removing an edge

  /** The slot that the index gives for the callee is empty, and the index has no slot for it any more. */
  ghost predicate SlotCleared(cal: CalleeLists, index: map<Vertex, IndexMap>, cal': CalleeLists,
                              index': map<Vertex, IndexMap>, u: Vertex, v: Vertex) {
    && u in cal && u in index && v in index[u] && index[u][v] < |cal[u]|
    && cal' == cal[u := cal[u][index[u][v] := None]] && index' == index[u := index[u] - {v}]
  }

  /** If no other slot lists the callee the edge is gone. */
  lemma OnlySlotCleared(cal: CalleeLists, index: map<Vertex, IndexMap>, cal': CalleeLists,
                        index': map<Vertex, IndexMap>, e': Edges, u: Vertex, v: Vertex)
    requires SlotCleared(cal, index, cal', index', u, v) && Lists(cal', e')
    requires forall k :: 0 <= k < |cal[u]| && cal[u][k] == Some(v) ==> k == index[u][v]
    ensures !Edge(e', u, v)
  {
    assert forall k :: 0 <= k < |cal'[u]| ==> cal'[u][k] != Some(v);
    assert Some(v) !in cal'[u];
  }

  /** e' is e without the edge (u, v), unless another slot of u still lists v. */
  ghost predicate Drops(e: Edges, e': Edges, u: Vertex, v: Vertex) {
    && (forall x, y :: Edge(e', x, y) ==> Edge(e, x, y))
    && (forall x, y :: Edge(e, x, y) && !(x == u && y == v) ==> Edge(e', x, y))
  }

  /** An edge between components is on no path within one. */
  lemma InterDropValid(e: Edges, e': Edges, f: Forest, u: Vertex, v: Vertex)
    requires f.Valid(e) && Drops(e, e', u, v) && u in f.of && v in f.of && f.of[u] != f.of[v]
    requires Edge(e, u, v)
    ensures f.Valid(e')
  {
    assert f.Has(u, f.of[u]) && f.Has(v, f.of[v]);
    assert f.Rank(f.of[v]) < f.Rank(f.of[u]);
    forall x, y, c | f.Has(x, c) && f.Has(y, c)
      ensures Mutual(e', x, y)
    {
      assert Mutual(e, x, y);
      InterDropReach(e, e', f, u, v, x, y);
      InterDropReach(e, e', f, u, v, y, x);
    }
  }

  lemma InterDropReach(e: Edges, e': Edges, f: Forest, u: Vertex, v: Vertex, x: Vertex, y: Vertex)
    requires f.Linked(e) && Drops(e, e', u, v) && u in f.of && v in f.of && f.Rank(f.of[v]) < f.Rank(f.of[u])
    requires x in f.of && y in f.of && f.of[x] == f.of[y] && Reach(e, x, y)
    ensures Reach(e', x, y)
  {
    var r := f.Rank(f.of[x]);
    var s := set z | z in f.of && f.Rank(f.of[z]) < r;
    var t := set z | z in f.of && f.Rank(f.of[z]) <= r;
    ReachWithin(e, e', s, t, x, y);
  }

  lemma DropsCalls(e: Edges, e': Edges, f: Forest, u: Vertex, v: Vertex, a: SccId, b: SccId)
    requires Drops(e, e', u, v) && u in f.of && v in f.of
    ensures f.Calls(e', a, b) ==> f.Calls(e, a, b)
    ensures f.Calls(e, a, b) && !(a == f.of[u] && b == f.of[v]) ==> f.Calls(e', a, b)
  {
    if f.Calls(e, a, b) {
      var x, y :| f.Has(x, a) && f.Has(y, b) && Edge(e, x, y);
      if x != u || y != v { assert Edge(e', x, y); }
    }
    if f.Calls(e', a, b) {
      var x, y :| f.Has(x, a) && f.Has(y, b) && Edge(e', x, y);
      assert Edge(e, x, y);
    }
  }

  lemma {:induction false} PathWithoutLoop(e: Edges, e': Edges, u: Vertex, x: Vertex, p: Path, y: Vertex)
    requires Drops(e, e', u, u) && Follows(e, x, p, y)
    ensures Reach(e', x, y)
    decreases p
  {
    match p
    case Here => ReachRefl(e', x);
    case Via(z, rest) =>
      PathWithoutLoop(e, e', u, z, rest, y);
      if x != z { ReachStep(e', x, z, y); }
  }

  /** A function's call to itself is on no simple path and between no two components. */
  lemma LoopDrop(e: Edges, e': Edges, f: Forest, u: Vertex)
    requires f.Valid(e) && Drops(e, e', u, u) && u in f.of
    ensures f.Valid(e')
    ensures f.ParentsExact(e) ==> f.ParentsExact(e')
    ensures f.LeavesExact(e) ==> f.LeavesExact(e')
  {
    forall x, y, c | f.Has(x, c) && f.Has(y, c)
      ensures Mutual(e', x, y)
    {
      assert Mutual(e, x, y);
      var p :| Follows(e, x, p, y);
      var q :| Follows(e, y, q, x);
      PathWithoutLoop(e, e', u, x, p, y);
      PathWithoutLoop(e, e', u, y, q, x);
    }
    LoopDropExact(e, e', f, u);
  }

  lemma LoopDropExact(e: Edges, e': Edges, f: Forest, u: Vertex)
    requires Drops(e, e', u, u) && u in f.of
    ensures f.ParentsExact(e) ==> f.ParentsExact(e')
    ensures f.LeavesExact(e) ==> f.LeavesExact(e')
  {
    forall a, b
      ensures a != b ==> (f.Calls(e', a, b) <==> f.Calls(e, a, b))
    {
      DropsCalls(e, e', f, u, u, a, b);
    }
    if f.ParentsExact(e) {
      forall c, p | c in f.rank && p in f.rank
        ensures f.ExactAt(e', c, p)
      {
        assert f.ExactAt(e, c, p);
      }
    }
    if f.LeavesExact(e) {
      forall c | c in f.rank
        ensures c in f.leaves <==> f.IsLeaf(e', c)
      {
        assert f.IsLeaf(e, c) <==> f.IsLeaf(e', c);
      }
    }
  }

  /** The caller stays a parent exactly if it still calls the component. */
  lemma InterDropExact(e: Edges, e': Edges, f: Forest, f': Forest, u: Vertex, v: Vertex)
    requires Drops(e, e', u, v) && Edge(e, u, v) && u in f.of && v in f.of && f.of[u] != f.of[v]
    requires f.ParentsExact(e) && f'.of == f.of && f'.rank == f.rank
    requires forall d :: f'.Parents(d) ==
               if d == f.of[v] && !f.Calls(e', f.of[u], d) then f.Parents(d) - {f.of[u]} else f.Parents(d)
    ensures f'.ParentsExact(e')
  {
    forall c, p | c in f'.rank && p in f'.rank
      ensures f'.ExactAt(e', c, p)
    {
      assert f.ExactAt(e, c, p);
      DropsCalls(e, e', f, u, v, p, c);
      SameOf(e', f, f', p, c);
    }
  }

  /** The leaf list is exact afterwards exactly if it gains the caller's component when, and only
      when, that component calls nothing else any more. */
  lemma InterDropLeaves(e: Edges, e': Edges, f: Forest, f': Forest, u: Vertex, v: Vertex)
    requires Drops(e, e', u, v) && Edge(e, u, v) && u in f.of && v in f.of && f.of[u] != f.of[v]
    requires f.Partition() && f.LeavesExact(e) && f'.of == f.of && f'.rank == f.rank
    requires f'.leaves == f.leaves || f'.leaves == f.leaves + {f.of[u]}
    ensures f'.LeavesExact(e') <==> (f'.leaves == f.leaves + {f.of[u]} <==> f'.IsLeaf(e', f.of[u]))
  {
    var a := f.of[u];
    assert f.Has(u, a) && f.Has(v, f.of[v]) && f.Calls(e, a, f.of[v]);
    assert !f.IsLeaf(e, a) && a !in f.leaves;
    forall c | c in f.rank && c != a
      ensures f.IsLeaf(e, c) <==> f'.IsLeaf(e', c)
    {
      forall d
        ensures f.Calls(e, c, d) <==> f'.Calls(e', c, d)
      {
        DropsCalls(e, e', f, u, v, c, d);
        SameOf(e', f, f', c, d);
      }
    }
    forall c | c in f.rank && c != a
      ensures c in f'.leaves <==> f'.IsLeaf(e', c)
    {
      assert f.IsLeaf(e, c) <==> c in f.leaves;
    }
    if f'.LeavesExact(e') {
      assert a in f'.leaves <==> f'.IsLeaf(e', a);
    }
  }

  /** Losing a parent keeps the components. */
  lemma FewerParentsValid(e: Edges, f: Forest, f': Forest)
    requires f.Valid(e) && f'.of == f.of && f'.rank == f.rank && f'.parents.Keys == f.parents.Keys
    requires forall d :: f'.Parents(d) <= f.Parents(d)
    ensures f'.Valid(e)
  {
    assert forall v, d :: f'.Has(v, d) <==> f.Has(v, d);
    assert forall d :: f'.Rank(d) == f.Rank(d);
  }

  // ---------------------------------------------------------------- the scan of removeInterSCCEdge

  /** The callees that the slots of ns still list, in order. */
  function Targets(slots: seq<Option<Vertex>>): seq<Vertex> {
    if slots == [] then []
    else (if slots[0].Some? then [slots[0].value] else []) + Targets(slots[1..])
  }

  function AllTargets(cal: CalleeLists, ns: seq<Vertex>): seq<Vertex> {
    if ns == [] then []
    else Targets(if ns[0] in cal then cal[ns[0]] else []) + AllTargets(cal, ns[1..])
  }

  /** The scan stops at the first call into component d; the second result tells whether a call
      into some third component had come before that. */
  function ScanCalls(of: map<Vertex, SccId>, ts: seq<Vertex>, c: SccId, d: SccId, outside: bool): (bool, bool) {
    if ts == [] then (false, outside)
    else if ts[0] in of && of[ts[0]] == d then (true, outside)
    else ScanCalls(of, ts[1..], c, d, outside || (ts[0] in of && of[ts[0]] != c))
  }

  /** Target k of the callees of component c is the first that lies outside c. */
  ghost predicate FirstOutside(of: map<Vertex, SccId>, ts: seq<Vertex>, c: SccId, k: nat) {
    && k < |ts| && ts[k] in of && of[ts[k]] != c
    && forall j :: 0 <= j < k && ts[j] in of ==> of[ts[j]] == c
  }

  /** Of the calls that leave c, the first in the order of the lists goes to d. */
  ghost predicate FirstCallOutGoesTo(of: map<Vertex, SccId>, ts: seq<Vertex>, c: SccId, d: SccId) {
    exists k: nat :: FirstOutside(of, ts, c, k) && of[ts[k]] == d
  }

  /** Exactly then the scan stops at a call into d before it has seen a call into a third component. */
  lemma {:induction false} ScanStopsEarly(of: map<Vertex, SccId>, ts: seq<Vertex>, c: SccId, d: SccId)
    requires c != d
    ensures ScanCalls(of, ts, c, d, false) == (true, false) <==> FirstCallOutGoesTo(of, ts, c, d)
    decreases |ts|
  {
    if ts != [] {
      if ts[0] in of && of[ts[0]] != c {
        ScanCallsMeans(of, ts[1..], c, d, true);
        assert FirstOutside(of, ts, c, 0);
      } else {
        ScanStopsEarly(of, ts[1..], c, d);
        FirstOutsideNext(of, ts, c);
        if FirstCallOutGoesTo(of, ts[1..], c, d) {
          var k: nat :| FirstOutside(of, ts[1..], c, k) && of[ts[1..][k]] == d;
          assert FirstOutside(of, ts, c, k + 1);
        }
      }
    }
  }

  lemma FirstOutsideNext(of: map<Vertex, SccId>, ts: seq<Vertex>, c: SccId)
    requires ts != [] && !(ts[0] in of && of[ts[0]] != c)
    ensures forall k: nat :: FirstOutside(of, ts, c, k) ==> k > 0 && FirstOutside(of, ts[1..], c, k - 1)
    ensures forall k: nat :: FirstOutside(of, ts[1..], c, k) ==> FirstOutside(of, ts, c, k + 1)
  {
    forall k: nat | FirstOutside(of, ts[1..], c, k)
      ensures FirstOutside(of, ts, c, k + 1)
    {
      forall j | 0 <= j < k + 1 && ts[j] in of
        ensures of[ts[j]] == c
      {
        if j > 0 { assert ts[1..][j - 1] == ts[j]; }
      }
    }
  }

  lemma ScanNext(of: map<Vertex, SccId>, t: Vertex, rest: seq<Vertex>, c: SccId, d: SccId, outside: bool)
    ensures ScanCalls(of, [t] + rest, c, d, outside) ==
            if t in of
              && of[t] == d then (true, outside) else ScanCalls(of, rest, c, d, outside || (t in of && of[t] != c))
  {
    assert ([t] + rest)[1..] == rest;
  }

  /** What the slots from j on list, followed by `later`. */
  lemma TargetsNext(slots: seq<Option<Vertex>>, j: nat, later: seq<Vertex>)
    requires j < |slots|
    ensures Targets(slots[j..]) + later
            == (if slots[j].Some? then [slots[j].value] else []) + (Targets(slots[j + 1..]) + later)
  {
    assert slots[j..][1..] == slots[j + 1..];
  }

  lemma NoTargets(later: seq<Vertex>)
    ensures Targets([]) + later == later
  {
  }

  lemma ScanNothing(of: map<Vertex, SccId>, c: SccId, d: SccId, outside: bool)
    ensures ScanCalls(of, [], c, d, outside) == (false, outside)
  {
  }

  lemma {:induction false} ScanCallsMeans(of: map<Vertex, SccId>, ts: seq<Vertex>, c: SccId, d: SccId, outside: bool)
    ensures var r := ScanCalls(of, ts, c, d, outside);
            && (r.0 <==> exists t :: t in ts && t in of && of[t] == d)
            && (!r.0 ==> (r.1 <==> outside || exists t :: t in ts && t in of && of[t] != c))
            && (outside ==> r.1)
  {
    if ts != [] {
      ScanCallsMeans(of, ts[1..], c, d, outside || (ts[0] in of && of[ts[0]] != c));
      assert forall t :: t in ts <==> t == ts[0] || t in ts[1..];
    }
  }

  lemma {:induction false} TargetsListed(slots: seq<Option<Vertex>>, t: Vertex)
    ensures t in Targets(slots) <==> Some(t) in slots
  {
    if slots != [] {
      TargetsListed(slots[1..], t);
      assert Some(t) in slots <==> slots[0] == Some(t) || Some(t) in slots[1..];
    }
  }

  lemma {:induction false} AllTargetsListed(cal: CalleeLists, e: Edges, ns: seq<Vertex>, t: Vertex)
    requires Lists(cal, e) && forall n :: n in ns ==> n in cal
    ensures t in AllTargets(cal, ns) <==> exists n :: n in ns && Edge(e, n, t)
  {
    if ns != [] {
      var n: Vertex := ns[0];
      assert n in ns && n in cal;
      AllTargetsListed(cal, e, ns[1..], t);
      TargetsListed(cal[ns[0]], t);
      assert forall n :: n in ns <==> n == ns[0] || n in ns[1..];
      if Some(t) in cal[ns[0]] {
        var k :| 0 <= k < |cal[ns[0]]| && cal[ns[0]][k] == Some(t);
        assert Edge(e, ns[0], t);
      }
    }
  }

  /** What the scan of a component's own callees says about its calls. */
  lemma ScanIsCalls(cal: CalleeLists, e: Edges, f: Forest, ns: seq<Vertex>, c: SccId, d: SccId)
    requires Lists(cal, e) && (forall n :: n in ns ==> n in cal) && Elements(ns) == f.Members(c) && c != d
    requires f.Valid(e)
    ensures var r := ScanCalls(f.of, AllTargets(cal, ns), c, d, false);
            && (r.0 <==> f.Calls(e, c, d))
            && (!r.0 ==> (r.1 <==> !f.IsLeaf(e, c)))
  {
    var ts := AllTargets(cal, ns);
    ScanCallsMeans(f.of, ts, c, d, false);
    forall t
      ensures t in ts <==> exists n :: f.Has(n, c) && Edge(e, n, t)
    {
      AllTargetsListed(cal, e, ns, t);
      if n :| n in ns && Edge(e, n, t) { assert n in Elements(ns) && f.Has(n, c); }
      if n :| f.Has(n, c) && Edge(e, n, t) { assert n in f.Members(c) && n in Elements(ns); }
    }
    forall b
      ensures f.Calls(e, c, b) <==> exists t :: t in ts && f.Has(t, b)
    {
      if f.Calls(e, c, b) {
        var x, y :| f.Has(x, c) && f.Has(y, b) && Edge(e, x, y);
        assert y in ts;
      }
    }
    assert f.Calls(e, c, d) <==> exists t :: t in ts && t in f.of && f.of[t] == d;
    if exists t :: t in ts && t in f.of && f.of[t] != c {
      var t :| t in ts && t in f.of && f.of[t] != c;
      assert f.Has(t, f.of[t]) && f.Calls(e, c, f.of[t]);
    }
    if !f.IsLeaf(e, c) {
      var b :| b in f.rank && b != c && f.Calls(e, c, b);
      var t :| t in ts && f.Has(t, b);
    }
  }

  /** Function a calls into the component of x and y. */
  function CallerAndPair(a: Vertex, x: Vertex, y: Vertex): Forest {
    Forest(map[a := 1, x := 0, y := 0], map[0 := {1}, 1 := {}], {0}, map[0 := 0, 1 := 1])
  }

  lemma CallerAndPairValid(e: Edges, a: Vertex, x: Vertex, y: Vertex)
    requires a != x && a != y && x != y && {(a, x), (x, y), (y, x)} <= e <= {(a, x), (a, y), (x, y), (y, x)}
    ensures CallerAndPair(a, x, y).Valid(e)
  {
    assert Edge(e, a, x) && Edge(e, x, y) && Edge(e, y, x);
    var f := CallerAndPair(a, x, y);
    assert f.Has(a, 1) && f.Has(x, 0) && f.Has(y, 0);
    ReachEdge(e, x, y);
    ReachEdge(e, y, x);
    ReachRefl(e, a);
    ReachRefl(e, x);
    ReachRefl(e, y);
  }

  /** The early exit of the scan loses a leaf list that was exact: a calls x and y, which form a component.
      Without the edge to x the call to y ends the scan before any call out of a has been noted, so the
      component of a is listed as a leaf, although it still calls y. */
  lemma ScanListsCaller(a: Vertex, x: Vertex, y: Vertex)
    requires a != x && a != y && x != y
    ensures var e0: Edges, e: Edges, f := {(a, x), (a, y), (x, y), (y, x)}, {(a, y), (x, y), (y, x)},
              CallerAndPair(a, x, y);
            var cal: CalleeLists := map[a := [None, Some(y)], x := [Some(y)], y := [Some(x)]];
            && f.Valid(e0) && f.ParentsExact(e0) && f.LeavesExact(e0) && Drops(e0, e, a, x) && Lists(cal, e)
            && ScanCalls(f.of, AllTargets(cal, [a]), 1, 0, false) == (true, false)
            && f.LeavesExact(e) && !f.(leaves := f.leaves + {1}).LeavesExact(e)
  {
    hide Forest.Valid, Reach;
    var e0: Edges, e: Edges, f := {(a, x), (a, y), (x, y), (y, x)}, {(a, y), (x, y), (y, x)}, CallerAndPair(a, x, y);
    CallerAndPairValid(e0, a, x, y);
    assert f.Has(a, 1) && f.Has(x, 0) && f.Has(y, 0) && Edge(e0, a, x) && Edge(e, a, y) && Edge(e0, a, y);
    assert f.Calls(e0, 1, 0) && !f.Calls(e0, 0, 1) && f.Calls(e, 1, 0) && !f.Calls(e, 0, 1);
    PairScanned(a, x, y);
    assert !f.(leaves := f.leaves + {1}).IsLeaf(e, 1) by {
      assert f.(leaves := f.leaves + {1}).Calls(e, 1, 0) by {
        assert f.(leaves := f.leaves + {1}).Has(a, 1) && f.(leaves := f.leaves + {1}).Has(y, 0);
      }
    }
  }

  lemma PairScanned(a: Vertex, x: Vertex, y: Vertex)
    requires a != x && a != y && x != y
    ensures var cal: CalleeLists := map[a := [None, Some(y)], x := [Some(y)], y := [Some(x)]];
            ScanCalls(CallerAndPair(a, x, y).of, AllTargets(cal, [a]), 1, 0, false) == (true, false)
  {
    var cal: CalleeLists := map[a := [None, Some(y)], x := [Some(y)], y := [Some(x)]];
    var slots: seq<Option<Vertex>> := [None, Some(y)];
    assert slots[1..] == [Some(y)] && slots[1..][1..] == [];
    assert Targets(slots[1..]) == [y];
    assert Targets(slots) == [y];
    assert cal[a] == slots && [a][1..] == [];
    assert AllTargets(cal, [a]) == [y];
  }
}
